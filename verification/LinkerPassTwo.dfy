/**
 The second pass of ld68: origins and final symbol values, the check of every
 symbol against the table, and the relocation of text and data.
 */
module LinkerPassTwo {
  import opened Arithmetic
  import opened BufferedOutput
  import opened LinkerModel
  import opened LinkerPassOne
  import opened LinkerLayout
  import opened LinkerReloc

  const LHSIZ: nat := 31

  /** A module with its bytes and relocation entries. */
  datatype Module = Module(o: Object, text: seq<Byte>, data: seq<Byte>, textRel: seq<Reloc>, dataRel: seq<Reloc>)

  /** An undefined symbol of the module and its entry in the table. */
  datatype Local = Local(index: nat, entry: nat)

  /** What stays fixed during the second pass. */
  datatype Link = Link(st: State, opts: Opts)

  // ---- Local symbols -----------------------------------------------------

  predicate IsLocal(syms: seq<Nlist>, n: nat) {
    n < |syms| && syms[n].ext && syms[n].kind.Undf?
  }

  /** The chain of bucket b once the first n symbols have been read: the newest first. */
  function Chain(t: seq<Sym>, syms: seq<Nlist>, b: nat, n: nat): seq<Local>
    requires n <= |syms|
  {
    if n == 0 then []
    else
      var rest := Chain(t, syms, b, n - 1);
      var i := Find(t, syms[n - 1].name);
      if IsLocal(syms, n - 1) && (n - 1) % LHSIZ == b && i >= 0 then [Local(n - 1, i)] + rest else rest
  }

  /** The entry a chain gives for symbol number n, or -1. */
  function Walk(chain: seq<Local>, n: nat): int {
    if chain == [] then -1
    else if chain[0].index == n then chain[0].entry
    else Walk(chain[1..], n)
  }

  /** The hash table finds exactly the undefined symbols of the module, each with its own entry. */
  lemma {:induction false} ChainFinds(t: seq<Sym>, syms: seq<Nlist>, done: nat, n: nat)
    requires done <= |syms|
    ensures Walk(Chain(t, syms, n % LHSIZ, done), n)
      == if n < done && IsLocal(syms, n) then Find(t, syms[n].name) else -1
  {
    if done > 0 {
      ChainFinds(t, syms, done - 1, n);
      var b := n % LHSIZ;
      var c, rest := Chain(t, syms, b, done), Chain(t, syms, b, done - 1);
      if c != rest {
        assert c[1..] == rest;
      }
    }
  }

  // ---- Relocation amounts ------------------------------------------------

  predicate GoodTarget(syms: seq<Nlist>, r: Reloc) {
    match r.target
    case External(n) => IsLocal(syms, n)
    case Segment(k) => k.Text? || k.Data? || k.Bss? || k.Abs?
  }

  ghost predicate GoodTargets(syms: seq<Nlist>, rs: seq<Reloc>, n: nat)
    requires n <= |rs|
  {
    forall i :: 0 <= i < n ==> GoodTarget(syms, rs[i])
  }

  lemma OneMoreGood(syms: seq<Nlist>, rs: seq<Reloc>, n: nat)
    requires n < |rs| && GoodTargets(syms, rs, n) && GoodTarget(syms, rs[n])
    ensures GoodTargets(syms, rs, n + 1)
  {
  }

  /** What an entry in the given segment of a module adds to its word. */
  function Amount(table: seq<Sym>, syms: seq<Nlist>, c: Rel, seg: Kind, r: Reloc): int {
    var base := match r.target
      case Segment(k) => Shift(c, k)
      case External(n) =>
        if n >= |syms| then 0
        else
          var i := Find(table, syms[n].name);
          if i < 0 || table[i].kind.Undf? then 0 else table[i].value;
    base - if r.pcrel then Shift(c, seg) else 0
  }

  function Amounts(table: seq<Sym>, syms: seq<Nlist>, c: Rel, seg: Kind, rs: seq<Reloc>): (a: seq<int>)
    ensures |a| == |rs|
  {
    seq(|rs|, i requires 0 <= i < |rs| => Amount(table, syms, c, seg, rs[i]))
  }

  /** The entry as saved for a later link. */
  function Saved(table: seq<Sym>, syms: seq<Nlist>, nsym: nat, position: nat, r: Reloc): Reloc {
    var q := r.(address := r.address + position);
    match r.target
    case Segment(_) => q
    case External(n) =>
      if n >= |syms| then q
      else
        var i := Find(table, syms[n].name);
        if i < 0 then q
        else if table[i].kind.Undf? then q.(target := External(nsym + i))
        else q.(target := Segment(table[i].kind))
  }

  // ---- Words in place ----------------------------------------------------

  method ReadWord(code: array<Byte>, at: nat, n: nat) returns (tw: nat)
    requires at + n <= code.Length
    ensures tw == Value(code[at..at + n])
  {
    tw := 0;
    var i := 0;
    while i < n
      invariant 0 <= i <= n && tw == Value(code[at..at + i])
    {
      assert code[at..at + i + 1][..i] == code[at..at + i];
      tw := tw * 256 + code[at + i];
      i := i + 1;
    }
  }

  lemma {:induction false} DigitAt(x: int, n: nat, j: nat)
    requires j < n
    ensures Digits(x, n)[j] == (x / Power(256, n - 1 - j)) % 256
    decreases n
  {
    if j < n - 1 {
      DigitAt(x / 256, n - 1, j);
      DivideTwice(x, 256, Power(256, n - 2 - j));
    } else {
      assert x / 1 == x;
    }
  }

  method WriteWord(code: array<Byte>, at: nat, n: nat, tw: int)
    requires at + n <= code.Length
    modifies code
    ensures code[..] == old(code[..at]) + Digits(tw, n) + old(code[at + n..])
  {
    var i := n;
    while i > 0
      invariant 0 <= i <= n
      invariant forall j :: 0 <= j < n - i ==> code[at + j] == Digits(tw, n)[j]
      invariant forall j :: 0 <= j < code.Length && !(at <= j < at + n - i) ==> code[j] == old(code[j])
    {
      i := i - 1;
      DigitAt(tw, n, n - 1 - i);
      code[at + n - 1 - i] := (tw / Power(256, i)) % 256;
    }
  }

  // ---- middle ------------------------------------------------------------

  class SecondPass {
    var table: seq<Sym>
    var tsize: nat
    var dsize: nat
    var bsize: nat
    /** Where the segments of the next module go. */
    var torigin: int
    var dorigin: int
    var borigin: int
    /** Where all text and all data start. */
    var textbase: int
    var database: int
    /** Relocation is saved for a later link. */
    var rflag: bool
    /** The output streams. */
    var tout: seq<Byte>
    var dout: seq<Byte>
    var trout: seq<Reloc>
    var drout: seq<Reloc>
    const lochash: array<seq<Local>>

    constructor (st: State)
      ensures lochash.Length == LHSIZ && fresh(lochash) && tout == dout == [] && trout == drout == []
      ensures table == st.table && tsize == st.tsize && dsize == st.dsize && bsize == st.bsize
    {
      table, tsize, dsize, bsize := st.table, st.tsize, st.dsize, st.bsize;
      torigin, dorigin, borigin, textbase, database, rflag := 0, 0, 0, 0, 0, false;
      tout, dout, trout, drout := [], [], [], [];
      lochash := new seq<Local>[LHSIZ];
    }

    method FindUnresolved() returns (found: bool)
      ensures found == AnyUnresolved(table)
    {
      var i := 0;
      while i < |table|
        invariant 0 <= i <= |table| && forall j :: 0 <= j < i ==> !Unresolved(table[j])
      {
        if Unresolved(table[i]) {
          return true;
        }
        i := i + 1;
      }
      return false;
    }

    /** ldrsym: gives a loader-defined symbol its value unless it already has one. */
    method Ldrsym(name: string, val: nat, kind: Kind)
      requires DistinctNames(table)
      modifies this`table
      ensures |table| == |old(table)| && DistinctNames(table)
      ensures forall i :: 0 <= i < |table| ==>
        table[i] == (if old(table)[i] == Sym(name, Undf, 0) then Sym(name, kind, val) else old(table)[i])
    {
      var sp := Find(table, name);
      if sp >= 0 && table[sp].kind.Undf? && table[sp].value == 0 {
        table := table[sp := Sym(name, kind, val)];
      }
    }

    /** Storage for the common symbols, in table order. */
    method AssignCommons(ghost t: seq<Sym>) returns (csize: nat)
      requires |t| == |table| && forall i :: 0 <= i < |t| ==> GoodSym(t[i])
      requires forall i :: 0 <= i < |t| ==> table[i] == LoaderSym(t[i], tsize, dsize, bsize)
      modifies this`table
      ensures |table| == |t| && csize == CommonSize(t, |t|)
      ensures forall i :: 0 <= i < |t| ==> table[i] == Stored(t, tsize, dsize, bsize, i)
    {
      var i := 0;
      csize := 0;
      while i < |table|
        invariant 0 <= i <= |table| == |t| && csize == CommonSize(t, i)
        invariant forall j :: i <= j < |t| ==> table[j] == LoaderSym(t[j], tsize, dsize, bsize)
        invariant forall j :: 0 <= j < i ==> table[j] == Stored(t, tsize, dsize, bsize, j)
      {
        assert GoodSym(t[i]);
        var sp := table[i];
        if sp.kind.Undf? && sp.value != 0 {
          csize := Up(csize, Alignment(sp.value));
          table := table[i := sp.(kind := Comm, value := csize)];
          csize := csize + sp.value;
        }
        i := i + 1;
      }
    }

    /** The origins added to every symbol. */
    method LocateAll(l: Layout)
      modifies this`table
      ensures |table| == |old(table)|
      ensures forall i :: 0 <= i < |table| ==> table[i] == Located(old(table)[i], l)
    {
      var i := 0;
      while i < |table|
        invariant 0 <= i <= |table| == |old(table)|
        invariant forall j :: 0 <= j < i ==> table[j] == Located(old(table)[j], l)
        invariant forall j :: i <= j < |table| ==> table[j] == old(table)[j]
      {
        table := table[i := Located(table[i], l)];
        i := i + 1;
      }
    }

    /** The three loader-defined symbols, then the commons; without -d neither when relocation is saved. */
    method Assign(o: Opts, ghost st: State) returns (csize: nat)
      requires table == st.table && tsize == st.tsize && dsize == st.dsize && bsize == st.bsize
      requires GoodTable(table)
      modifies this`table, this`rflag
      ensures |table| == |st.table| && rflag == SavesRelocation(st.table, o)
      ensures forall i :: 0 <= i < |table| ==> table[i] == Assigned(st, o, i)
      ensures csize == if AssignsCommon(st.table, o) then CommonSize(st.table, |st.table|) else 0
    {
      var dflag := o.d;
      rflag, csize := o.r, 0;
      if !rflag {
        rflag := FindUnresolved();
        if rflag {
          dflag := false;
        }
      }
      if dflag || !rflag {
        Ldrsym(ETEXT, tsize, Text);
        Ldrsym(EDATA, dsize, Data);
        Ldrsym(END, bsize, Bss);
        assert ETEXT != EDATA && ETEXT != END && EDATA != END;
        csize := AssignCommons(st.table);
      }
    }

    /** Assigns the commons and gives every symbol its final value. */
    method Middle(o: Opts, ghost st: State)
      requires table == st.table && tsize == st.tsize && dsize == st.dsize && bsize == st.bsize
      requires GoodTable(table)
      modifies this`table, this`bsize, this`torigin, this`dorigin, this`borigin, this`textbase, this`database,
        this`rflag
      ensures var l := LayoutOf(st, o);
        && torigin == textbase == l.torigin && dorigin == database == l.dorigin && borigin == l.borigin
        && bsize == st.bsize + l.csize
      ensures rflag == SavesRelocation(st.table, o) && tsize == st.tsize && dsize == st.dsize
      ensures |table| == |st.table| && forall i :: 0 <= i < |table| ==> table[i] == Final(st, o, i)
    {
      var csize := Assign(o, st);
      var l := SetOrigins(o, Long(csize), st);
      LocateAll(l);
    }

    /** Where the segments start, with room for csize bytes of commons between data and bss. */
    method SetOrigins(o: Opts, csize: nat, ghost st: State) returns (l: Layout)
      requires tsize == st.tsize && dsize == st.dsize && rflag == SavesRelocation(st.table, o)
      requires csize == if AssignsCommon(st.table, o) then Long(CommonSize(st.table, |st.table|)) else 0
      modifies this`bsize, this`torigin, this`dorigin, this`borigin, this`textbase, this`database
      ensures l == LayoutOf(st, o) && bsize == old(bsize) + csize
      ensures torigin == textbase == l.torigin && dorigin == database == l.dorigin && borigin == l.borigin
    {
      var zflag := o.z && !rflag;
      textbase := o.textbase;
      database := Up(tsize + o.textbase, if o.n || zflag then PAGSIZ else LONG) + o.hsize;
      torigin, dorigin := textbase, database;
      var corigin := if o.bssbase != 0 then o.bssbase else dorigin + dsize;
      borigin := corigin + csize;
      bsize := bsize + csize;
      l := Layout(torigin, dorigin, corigin, borigin, csize);
    }

    // ---- load2 -----------------------------------------------------------

    /** The symbols of a module: remembers the undefined ones, reports definitions the table disagrees with. */
    method ReadSymbols(syms: seq<Nlist>, c: Rel) returns (found: bool, dups: seq<nat>)
      requires lochash.Length == LHSIZ
      modifies lochash
      ensures found == AllIn(table, syms)
      ensures found ==> dups == Disagreeing(table, syms, c, |syms|)
      ensures found ==> Hashed(syms, |syms|)
    {
      var b := 0;
      while b < LHSIZ
        invariant 0 <= b <= LHSIZ && forall j :: 0 <= j < b ==> lochash[j] == []
      {
        lochash[b] := [];
        b := b + 1;
      }
      var symno := 0;
      dups := [];
      while symno < |syms|
        invariant 0 <= symno <= |syms| && Hashed(syms, symno) && dups == Disagreeing(table, syms, c, symno)
        invariant forall k :: 0 <= k < symno && syms[k].ext ==> Find(table, syms[k].name) >= 0
      {
        var s := syms[symno];
        if s.ext {
          var sp := Find(table, s.name);
          if sp < 0 {
            return false, dups;
          }
          if s.kind.Undf? {
            lochash[symno % LHSIZ] := [Local(symno, sp)] + lochash[symno % LHSIZ];
          } else if Symreloc(s, c) != table[sp] {
            dups := dups + [symno];
          }
        }
        symno := symno + 1;
      }
      found := true;
    }

    ghost predicate Hashed(syms: seq<Nlist>, n: nat)
      reads this, lochash
      requires n <= |syms|
    {
      lochash.Length == LHSIZ && forall b :: 0 <= b < LHSIZ ==> lochash[b] == Chain(table, syms, b, n)
    }

    /** The table entry of the module's symbol number n, or -1. */
    method Resolve(n: nat, ghost syms: seq<Nlist>) returns (sp: int)
      requires Hashed(syms, |syms|)
      ensures sp == if IsLocal(syms, n) then Find(table, syms[n].name) else -1
    {
      var lp := lochash[n % LHSIZ];
      ChainFinds(table, syms, |syms|, n);
      while lp != [] && lp[0].index != n
        invariant Walk(lp, n) == Walk(lochash[n % LHSIZ], n)
        decreases |lp|
      {
        lp := lp[1..];
      }
      sp := if lp == [] then -1 else lp[0].entry;
    }

    /** What one relocation entry adds, and the entry to save. */
    method Adjust(r: Reloc, c: Rel, seg: Kind, position: nat, nsym: nat, ghost syms: seq<Nlist>)
      returns (ok: bool, add: int, saved: Reloc)
      requires Hashed(syms, |syms|)
      requires AllIn(table, syms)
      ensures ok == GoodTarget(syms, r)
      ensures ok ==> add == Amount(table, syms, c, seg, r) && saved == Saved(table, syms, nsym, position, r)
    {
      saved, add, ok := r.(address := r.address + position), 0, true;
      match r.target {
        case External(n) =>
          var sp := Resolve(n, syms);
          if sp < 0 {
            return false, 0, r;
          }
          if table[sp].kind.Undf? {
            saved := saved.(target := External(nsym + sp));
          } else {
            saved := saved.(target := Segment(table[sp].kind));
            add := table[sp].value;
          }
        case Segment(k) =>
          if !(k.Text? || k.Data? || k.Bss? || k.Abs?) {
            return false, 0, r;
          }
          add := Shift(c, k);
      }
      if r.pcrel {
        add := add - Shift(c, seg);
      }
    }

    /** Applies one entry. */
    method Apply(code: array<Byte>, r: Reloc, c: Rel, seg: Kind, position: nat, nsym: nat, ghost syms: seq<Nlist>)
      returns (ok: bool, saved: Reloc)
      requires Hashed(syms, |syms|) && InBounds(r, code.Length) && AllIn(table, syms)
      modifies code
      ensures Hashed(syms, |syms|) && ok == GoodTarget(syms, r)
      ensures ok ==> code[..] == Bump(old(code[..]), r, Amount(table, syms, c, seg, r))
      ensures ok ==> saved == Saved(table, syms, nsym, position, r)
    {
      var tw;
      ok, tw, saved := Adjust(r, c, seg, position, nsym, syms);
      if ok {
        BumpInPlace(code, r, tw);
      }
    }

    /** Relocates one segment of a module in its buffer. */
    method Load2td(code: array<Byte>, rs: seq<Reloc>, c: Rel, seg: Kind, position: nat, nsym: nat,
        ghost syms: seq<Nlist>)
      returns (ok: bool, saved: seq<Reloc>)
      requires Hashed(syms, |syms|) && AllIn(table, syms)
      requires AllInBounds(rs, code.Length)
      modifies code
      ensures Hashed(syms, |syms|) && ok == GoodTargets(syms, rs, |rs|)
      ensures ok ==> code[..] == Relocated(old(code[..]), rs, Amounts(table, syms, c, seg, rs), |rs|)
      ensures ok ==> saved == SavedAll(table, syms, nsym, position, rs, |rs|)
    {
      saved := [];
      ghost var add, was, cur := Amounts(table, syms, c, seg, rs), code[..], code[..];
      var rp := 0;
      while rp < |rs|
        invariant 0 <= rp <= |rs| == |add| && Hashed(syms, |syms|)
        invariant GoodTargets(syms, rs, rp)
        invariant code[..] == cur && cur == Relocated(was, rs, add, rp)
        invariant saved == SavedAll(table, syms, nsym, position, rs, rp)
      {
        var good, q := Apply(code, rs[rp], c, seg, position, nsym, syms);
        if !good {
          return false, saved;
        }
        OneMoreGood(syms, rs, rp);
        OneMoreEntry(was, rs, add, rp);
        assert Amount(table, syms, c, seg, rs[rp]) == add[rp];
        assert code[..] == Bump(cur, rs[rp], add[rp]);
        cur := Relocated(was, rs, add, rp + 1);
        saved := saved + [q];
        rp := rp + 1;
      }
      ok := true;
    }

    /** Reads one segment into a buffer of its own and relocates it. */
    method LoadSegment(bytes: seq<Byte>, rs: seq<Reloc>, c: Rel, seg: Kind, origin: int, base: int, nsym: nat,
        ghost syms: seq<Nlist>)
      returns (ok: bool, image: seq<Byte>, saved: seq<Reloc>)
      requires Hashed(syms, |syms|) && AllIn(table, syms) && base <= origin
      requires AllInBounds(rs, |bytes|)
      ensures Hashed(syms, |syms|) && ok == GoodTargets(syms, rs, |rs|)
      ensures ok ==> image == Relocated(bytes, rs, Amounts(table, syms, c, seg, rs), |rs|)
      ensures ok ==> saved == SavedFrom(table, syms, nsym, origin, base, rs, rflag)
    {
      var code := new Byte[|bytes|](i requires 0 <= i < |bytes| => bytes[i]);
      assert code[..] == bytes;
      ok, saved := Load2td(code, rs, c, seg, origin - base, nsym, syms);
      image := code[..];
      saved := if rflag then saved else [];
    }

    /**
     One module on the second pass: its symbols are checked, its text and data are
     relocated and appended to the output, and the origins move past it.
     */
    method Load2(m: Module, nsym: nat) returns (ok: bool, dups: seq<nat>)
      requires WellSized(m) && lochash.Length == LHSIZ && 0 <= torigin - textbase && 0 <= dorigin - database
      modifies this`torigin, this`dorigin, this`borigin, this`tout, this`dout, this`trout, this`drout, lochash
      ensures ok == Loadable(table, m)
      ensures ok ==> var c := Sum(HeaderRel(m.o), Rel(old(torigin), old(dorigin), old(borigin)));
        && dups == Disagreeing(table, m.o.syms, c, |m.o.syms|)
        && tout == old(tout) + TextImage(table, m, c) && dout == old(dout) + DataImage(table, m, c)
        && trout == old(trout) + SavedFrom(table, m.o.syms, nsym, old(torigin), textbase, m.textRel, rflag)
        && drout == old(drout) + SavedFrom(table, m.o.syms, nsym, old(dorigin), database, m.dataRel, rflag)
      ensures ok ==> torigin == old(torigin) + m.o.text
      ensures ok ==> dorigin == old(dorigin) + Long(m.o.data) && borigin == old(borigin) + Long(m.o.bss)
    {
      var c := Sum(HeaderRel(m.o), Rel(torigin, dorigin, borigin));
      var syms := m.o.syms;
      var found;
      found, dups := ReadSymbols(syms, c);
      if !found {
        return false, dups;
      }
      ok := LoadText(m, c, nsym);
      if !ok {
        return false, dups;
      }
      ok := LoadData(m, c, nsym);
      if !ok {
        return false, dups;
      }
      torigin, dorigin, borigin := torigin + m.o.text, dorigin + Long(m.o.data), borigin + Long(m.o.bss);
    }

    method LoadText(m: Module, c: Rel, nsym: nat) returns (ok: bool)
      requires WellSized(m) && Hashed(m.o.syms, |m.o.syms|) && AllIn(table, m.o.syms) && textbase <= torigin
      modifies this`tout, this`trout
      ensures Hashed(m.o.syms, |m.o.syms|) && ok == GoodTargets(m.o.syms, m.textRel, |m.textRel|)
      ensures ok ==> tout == old(tout) + TextImage(table, m, c)
      ensures ok ==> trout == old(trout) + SavedFrom(table, m.o.syms, nsym, torigin, textbase, m.textRel, rflag)
    {
      var image, saved;
      ok, image, saved := LoadSegment(m.text, m.textRel, c, Text, torigin, textbase, nsym, m.o.syms);
      if ok {
        tout := tout + image;
        trout := trout + saved;
      }
    }

    method LoadData(m: Module, c: Rel, nsym: nat) returns (ok: bool)
      requires WellSized(m) && Hashed(m.o.syms, |m.o.syms|) && AllIn(table, m.o.syms) && database <= dorigin
      modifies this`dout, this`drout
      ensures ok == GoodTargets(m.o.syms, m.dataRel, |m.dataRel|)
      ensures ok ==> dout == old(dout) + DataImage(table, m, c)
      ensures ok ==> drout == old(drout) + SavedFrom(table, m.o.syms, nsym, dorigin, database, m.dataRel, rflag)
    {
      var image, saved;
      ok, image, saved := LoadSegment(m.data, m.dataRel, c, Data, dorigin, database, nsym, m.o.syms);
      if ok {
        dout := dout + (image + Zeros(Long(m.o.data) - m.o.data));
        drout := drout + saved;
      }
    }
  }

  function Zeros(n: nat): (z: seq<Byte>)
    ensures |z| == n
  {
    seq(n, _ => 0)
  }

  /** The sizes in the header are those of the bytes that follow, and entries lie inside. */
  ghost predicate WellSized(m: Module) {
    && |m.text| == m.o.text && |m.data| == m.o.data
    && AllInBounds(m.textRel, |m.text|)
    && AllInBounds(m.dataRel, |m.data|)
  }

  /** Every external symbol is in the table and every entry has a target load2td can handle. */
  ghost predicate Loadable(table: seq<Sym>, m: Module) {
    && AllIn(table, m.o.syms)
    && GoodTargets(m.o.syms, m.textRel, |m.textRel|) && GoodTargets(m.o.syms, m.dataRel, |m.dataRel|)
  }

  function TextImage(table: seq<Sym>, m: Module, c: Rel): (s: seq<Byte>)
    requires WellSized(m)
    ensures |s| == m.o.text
  {
    Relocated(m.text, m.textRel, Amounts(table, m.o.syms, c, Text, m.textRel), |m.textRel|)
  }

  /** The data is padded to a whole number of longs. */
  function DataImage(table: seq<Sym>, m: Module, c: Rel): (s: seq<Byte>)
    requires WellSized(m)
    ensures |s| == Long(m.o.data)
  {
    Relocated(m.data, m.dataRel, Amounts(table, m.o.syms, c, Data, m.dataRel), |m.dataRel|) +
      Zeros(Long(m.o.data) - m.o.data)
  }

  predicate AllIn(table: seq<Sym>, syms: seq<Nlist>) {
    forall k :: 0 <= k < |syms| && syms[k].ext ==> Find(table, syms[k].name) >= 0
  }

  function SavedAll(table: seq<Sym>, syms: seq<Nlist>, nsym: nat, position: nat, rs: seq<Reloc>,
      n: nat): (s: seq<Reloc>)
    requires n <= |rs|
    ensures |s| == n
  {
    if n == 0 then []
    else SavedAll(table, syms, nsym, position, rs, n - 1) + [Saved(table, syms, nsym, position, rs[n - 1])]
  }

  /** The entries a segment saves for a later link when it starts at origin and its kind at base. */
  function SavedFrom(table: seq<Sym>, syms: seq<Nlist>, nsym: nat, origin: int, base: int, rs: seq<Reloc>,
      saving: bool): seq<Reloc>
    requires base <= origin
  {
    if saving then SavedAll(table, syms, nsym, origin - base, rs, |rs|) else []
  }

  method BumpInPlace(code: array<Byte>, r: Reloc, y: int)
    requires InBounds(r, code.Length)
    modifies code
    ensures code[..] == Bump(old(code[..]), r, y)
  {
    var tw := ReadWord(code, r.address, Width(r));
    assert code[..][r.address..r.address + Width(r)] == code[r.address..r.address + Width(r)];
    WriteWord(code, r.address, Width(r), tw + y);
  }

  /** Symbols whose value in the table is not the one the module gives them. */
  function Disagreeing(table: seq<Sym>, syms: seq<Nlist>, c: Rel, n: nat): seq<nat>
    requires n <= |syms|
  {
    if n == 0 then []
    else
      var rest, s := Disagreeing(table, syms, c, n - 1), syms[n - 1];
      var i := Find(table, s.name);
      if s.ext && !s.kind.Undf? && i >= 0 && Symreloc(s, c) != table[i] then rest + [n - 1] else rest
  }
}
