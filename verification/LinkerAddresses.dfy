/**
 What the two passes of ld68 achieve together: every byte has one address, and
 every relocated word holds the address it should.
 */
module LinkerAddresses {
  import opened BufferedOutput
  import opened LinkerModel
  import opened LinkerPassOne
  import opened LinkerLayout
  import opened LinkerReloc
  import opened LinkerPassTwo

  /** A byte of a module: module number, segment, and offset in that segment. */
  datatype Place = Place(m: nat, seg: Kind, off: nat)

  function SegSize(o: Object, seg: Kind): nat {
    match seg
    case Text => o.text
    case Data => o.data
    case Bss => o.bss
    case _ => 0
  }

  predicate Exists(v: seq<Object>, p: Place) {
    p.m < |v| && p.off < SegSize(v[p.m], p.seg)
  }

  /** Where the module's own header puts the byte. */
  function OwnAddress(v: seq<Object>, p: Place): int
    requires Exists(v, p)
  {
    p.off - Shift(HeaderRel(v[p.m]), p.seg)
  }

  /** Where the byte ends up. */
  function Address(v: seq<Object>, l: Layout, p: Place): int
    requires Exists(v, p)
  {
    Shift(Origins(v, l, p.m), p.seg) + p.off
  }

  // ---- No two bytes share an address -------------------------------------

  function SegSum(v: seq<Object>, seg: Kind): nat {
    match seg
    case Text => TextSum(v)
    case Data => DataSum(v)
    case Bss => BssAll(v)
    case _ => 0
  }

  lemma {:induction false} SumsGrow(v: seq<Object>, m: nat, n: nat, seg: Kind)
    requires m < n <= |v|
    ensures SegSum(v[..m], seg) + SegSize(v[m], seg) <= SegSum(v[..n], seg)
    decreases n
  {
    assert v[..n][..n - 1] == v[..n - 1];
    if m < n - 1 {
      SumsGrow(v, m, n - 1, seg);
    }
  }

  function SegStart(l: Layout, seg: Kind): int {
    match seg
    case Text => l.torigin
    case Data => l.dorigin
    case Bss => l.borigin
    case _ => 0
  }

  /** A byte lies inside its segment of the program. */
  lemma InSegment(v: seq<Object>, l: Layout, p: Place)
    requires Exists(v, p)
    ensures SegStart(l, p.seg) <= Address(v, l, p) < SegStart(l, p.seg) + SegSum(v, p.seg)
  {
    SumsGrow(v, p.m, |v|, p.seg);
    assert v[..|v|] == v;
  }

  /** -B is not given, or lies beyond the data. */
  predicate BssBeyond(st: State, o: Opts) {
    o.bssbase == 0 || Database(st.table, st.tsize, o) + st.dsize <= o.bssbase
  }

  /** Text, data, commons and bss follow one another. */
  lemma SegmentsInOrder(st: State, o: Opts)
    requires Good(st) && BssBeyond(st, o)
    ensures var l := LayoutOf(st, o);
      && l.torigin + SegSum(st.visited, Text) <= l.dorigin
      && l.dorigin + SegSum(st.visited, Data) <= l.corigin
      && l.corigin + l.csize == l.borigin
  {
  }

  /** Different bytes of the program have different addresses. */
  lemma AddressesDiffer(st: State, o: Opts, p: Place, q: Place)
    requires Good(st) && BssBeyond(st, o)
    requires Exists(st.visited, p) && Exists(st.visited, q) && p != q
    ensures Address(st.visited, LayoutOf(st, o), p) != Address(st.visited, LayoutOf(st, o), q)
  {
    var v, l := st.visited, LayoutOf(st, o);
    SegmentsInOrder(st, o);
    InSegment(v, l, p);
    InSegment(v, l, q);
    if p.seg == q.seg {
      if p.m < q.m {
        SumsGrow(v, p.m, q.m, p.seg);
      } else if q.m < p.m {
        SumsGrow(v, q.m, p.m, p.seg);
      }
    }
  }

  /** Common symbols lie between data and bss, clear of every byte of a module. */
  lemma CommonsClear(st: State, o: Opts, i: nat, p: Place)
    requires Good(st) && BssBeyond(st, o) && AssignsCommon(st.table, o)
    requires i < |st.table| && Common(st.table[i]) && Exists(st.visited, p)
    ensures var a, b := Final(st, o, i).value, Address(st.visited, LayoutOf(st, o), p);
      Final(st, o, i).kind == Bss && (b < a || a + st.table[i].value <= b)
  {
    SegmentsInOrder(st, o);
    InSegment(st.visited, LayoutOf(st, o), p);
    CommonFits(st.table, i);
  }

  /**
   The bss of all visited modules fits what the header declares when every file with
   bss has symbols, and only then.
   */
  lemma BssFitsIff(st: State, o: Opts)
    requires Good(st)
    ensures var l := LayoutOf(st, o);
      l.borigin + BssAll(st.visited) <= l.corigin + (st.bsize + l.csize) <==> BssCounted(st.visited, |st.visited|)
  {
    BssAgreesIff(st.visited, |st.visited|);
    assert st.visited[..|st.visited|] == st.visited;
  }

  /**
   The loader's own symbols mark the ends of text and data, and _end the end of bss
   when every file with bss has symbols, and only then.
   */
  lemma EndSymbols(st: State, o: Opts, i: nat)
    requires Good(st) && i < |st.table| && AssignsCommon(st.table, o)
    requires st.table[i].kind.Undf? && st.table[i].value == 0
    ensures var l, v := LayoutOf(st, o), st.visited;
      && (st.table[i].name == ETEXT ==> Final(st, o, i) == Sym(ETEXT, Text, l.torigin + TextSum(v)))
      && (st.table[i].name == EDATA ==> Final(st, o, i) == Sym(EDATA, Data, l.dorigin + DataSum(v)))
      && (st.table[i].name == END ==>
            && Final(st, o, i) == Sym(END, Bss, l.borigin + BssSum(v))
            && (Final(st, o, i).value == l.borigin + BssAll(v) <==> BssCounted(v, |v|)))
  {
    BssAgreesIff(st.visited, |st.visited|);
    assert st.visited[..|st.visited|] == st.visited;
    assert ETEXT != EDATA && ETEXT != END && EDATA != END;
  }

  // ---- The output file ---------------------------------------------------

  /** Demand paging survives only when no relocation is saved. */
  predicate Paged(st: State, o: Opts) {
    o.z && !SavesRelocation(st.table, o)
  }

  /** a_text and a_data of the header: the room setupout leaves for the two streams. */
  function TextRoom(st: State, o: Opts): nat {
    if o.n then st.tsize else Up(st.tsize, if Paged(st, o) then PAGSIZ else LONG)
  }

  function DataRoom(st: State, o: Opts): nat {
    if Paged(st, o) then Up(st.dsize, PAGSIZ) else st.dsize
  }

  /** The text and data the second pass writes stay clear of each other and of what follows them in the file. */
  lemma StreamsApart(st: State, o: Opts, txtoff: nat, rest: nat)
    requires Good(st)
    ensures var d := txtoff + TextRoom(st, o); var r := d + DataRoom(st, o);
      && ApartBy(txtoff, TextSum(st.visited), d, DataSum(st.visited))
      && ApartBy(txtoff, TextSum(st.visited), r, rest)
      && ApartBy(d, DataSum(st.visited), r, rest)
  {
  }

  // ---- Relocated words ---------------------------------------------------

  /** The final table. */
  ghost predicate IsFinal(table: seq<Sym>, st: State, o: Opts) {
    |table| == |st.table| && forall i :: 0 <= i < |table| ==> table[i] == Final(st, o, i)
  }

  lemma {:induction false} SameFind(t: seq<Sym>, u: seq<Sym>, name: string)
    requires |t| == |u| && forall i :: 0 <= i < |t| ==> t[i].name == u[i].name
    ensures Find(t, name) == Find(u, name)
  {
    if t != [] {
      SameFind(t[..|t| - 1], u[..|u| - 1], name);
    }
  }

  lemma FinalFind(table: seq<Sym>, st: State, o: Opts, name: string)
    requires IsFinal(table, st, o)
    ensures Find(table, name) == Find(st.table, name)
  {
    SameFind(table, st.table, name);
  }

  /** The byte an entry sits on. */
  function Site(m: nat, seg: Kind, r: Reloc): Place {
    Place(m, seg, r.address)
  }

  /** A reference to byte p by the module's own addresses, as the word at an entry holds it. */
  function Before(v: seq<Object>, p: Place, seg: Kind, r: Reloc, disp: int): int
    requires Exists(v, p) && Exists(v, Site(p.m, seg, r))
  {
    OwnAddress(v, p) + disp - if r.pcrel then OwnAddress(v, Site(p.m, seg, r)) else 0
  }

  /** The same reference by final addresses. */
  function After(v: seq<Object>, l: Layout, p: Place, seg: Kind, r: Reloc, disp: int): int
    requires Exists(v, p) && Exists(v, Site(p.m, seg, r))
  {
    Address(v, l, p) + disp - if r.pcrel then Address(v, l, Site(p.m, seg, r)) else 0
  }

  /**
   A word that referred to a byte of its own module by the module's own address,
   plus a displacement, refers after relocation to the byte's final address plus the
   displacement; a pc-relative word holds the distance from the entry's own byte
   before and after.
   */
  lemma SegmentWord(table: seq<Sym>, v: seq<Object>, l: Layout, seg: Kind, r: Reloc, p: Place, disp: int)
    requires Exists(v, p) && (seg.Text? || seg.Data?) && r.target == Segment(p.seg)
    requires Exists(v, Site(p.m, seg, r))
    ensures Before(v, p, seg, r, disp) + Amount(table, v[p.m].syms, SecondRel(v, l, p.m), seg, r) ==
      After(v, l, p, seg, r, disp)
  {
  }

  /** A reference to an external symbol by the module's own addresses, which count its value as 0. */
  function BeforeExternal(v: seq<Object>, m: nat, seg: Kind, r: Reloc, disp: int): int
    requires Exists(v, Site(m, seg, r))
  {
    disp - if r.pcrel then OwnAddress(v, Site(m, seg, r)) else 0
  }

  /** The same reference by final addresses, for the symbol's final value. */
  function AfterExternal(v: seq<Object>, l: Layout, m: nat, seg: Kind, r: Reloc, value: int, disp: int): int
    requires Exists(v, Site(m, seg, r))
  {
    value + disp - if r.pcrel then Address(v, l, Site(m, seg, r)) else 0
  }

  /** Entry r refers to symbol n of module m, which is entry i of the table and has a final value. */
  ghost predicate RefersTo(st: State, o: Opts, m: nat, r: Reloc, i: nat)
    requires m < |st.visited|
  {
    && r.target.External? && r.target.symno < |st.visited[m].syms| && i < |st.table|
    && Find(st.table, st.visited[m].syms[r.target.symno].name) == i && !Final(st, o, i).kind.Undf?
  }

  /** Relocation adds to such a word what turns the one reference into the other. */
  lemma ExternalWord(table: seq<Sym>, st: State, o: Opts, m: nat, seg: Kind, r: Reloc, i: nat, disp: int)
    requires IsFinal(table, st, o) && m < |st.visited| && (seg.Text? || seg.Data?)
    requires Exists(st.visited, Site(m, seg, r)) && RefersTo(st, o, m, r, i)
    ensures var v, l := st.visited, LayoutOf(st, o);
      BeforeExternal(v, m, seg, r, disp) + Amount(table, v[m].syms, SecondRel(v, l, m), seg, r)
        == AfterExternal(v, l, m, seg, r, Final(st, o, i).value, disp)
  {
    FinalFind(table, st, o, st.visited[m].syms[r.target.symno].name);
  }

  /** A symbol defined at a byte of a module has that byte's final address. */
  lemma SymbolAddress(st: State, o: Opts, i: nat, m: nat, k: nat, p: Place)
    requires Good(st) && i < |st.table| && m < |st.visited| && k < |st.visited[m].syms|
    requires ComesFrom(st.table[i], st.visited, m, k) && (st.table[i].kind.Bss? ==> BssCounted(st.visited, m))
    requires p.m == m && p.seg == st.visited[m].syms[k].kind && Exists(st.visited, p)
    requires st.visited[m].syms[k].value == OwnAddress(st.visited, p)
    ensures Final(st, o, i).value == Address(st.visited, LayoutOf(st, o), p)
  {
    PassesAgreeIff(st, o, i, m, k);
  }

  /** load2 reports exactly the symbols Check calls multiply defined. */
  lemma {:induction false} DuplicatesAre(table: seq<Sym>, st: State, o: Opts, m: nat, n: nat, k: nat)
    requires IsFinal(table, st, o) && m < |st.visited| && n <= |st.visited[m].syms| && k < n
    ensures k in Disagreeing(table, st.visited[m].syms, SecondRel(st.visited, LayoutOf(st, o), m), n)
      <==> Check(st, o, m, k).MultiplyDefined?
  {
    var syms, c := st.visited[m].syms, SecondRel(st.visited, LayoutOf(st, o), m);
    FinalFind(table, st, o, syms[n - 1].name);
    if k < n - 1 {
      DuplicatesAre(table, st, o, m, n - 1, k);
    } else {
      SmallDuplicates(table, syms, c, n - 1, k);
    }
  }

  lemma {:induction false} SmallDuplicates(table: seq<Sym>, syms: seq<Nlist>, c: Rel, n: nat, k: nat)
    requires n <= |syms| && k >= n
    ensures k !in Disagreeing(table, syms, c, n)
  {
    if n > 0 {
      SmallDuplicates(table, syms, c, n - 1, k);
    }
  }

  // ---- The whole second pass ---------------------------------------------

  ghost predicate Matches(mods: seq<Module>, v: seq<Object>) {
    |mods| == |v| && forall m :: 0 <= m < |mods| ==> mods[m].o == v[m] && WellSized(mods[m])
  }

  /** The streams hold the relocated segments of module m where its addresses say. */
  ghost predicate InOutput(table: seq<Sym>, mods: seq<Module>, v: seq<Object>, l: Layout, m: nat, tout: seq<Byte>,
      dout: seq<Byte>)
    requires Matches(mods, v) && m < |mods|
  {
    var c, t, d := SecondRel(v, l, m), TextSum(v[..m]), DataSum(v[..m]);
    && t + v[m].text <= |tout| && tout[t..t + v[m].text] == TextImage(table, mods[m], c)
    && d + Long(v[m].data) <= |dout| && dout[d..d + Long(v[m].data)] == DataImage(table, mods[m], c)
  }

  lemma StaysInOutput(table: seq<Sym>, mods: seq<Module>, v: seq<Object>, l: Layout, m: nat,
                      tout: seq<Byte>, dout: seq<Byte>, t: seq<Byte>, d: seq<Byte>)
    requires Matches(mods, v) && m < |mods| && InOutput(table, mods, v, l, m, tout, dout)
    ensures InOutput(table, mods, v, l, m, tout + t, dout + d)
  {
    var a, b := TextSum(v[..m]), DataSum(v[..m]);
    assert (tout + t)[a..a + v[m].text] == tout[a..a + v[m].text];
    assert (dout + d)[b..b + Long(v[m].data)] == dout[b..b + Long(v[m].data)];
  }

  /** What the second pass carries from module to module. */
  datatype Progress = Progress(origins: Rel, tout: seq<Byte>, dout: seq<Byte>, dups: seq<seq<nat>>)

  /** The second pass stands before module m, and what it has put out is right. */
  ghost predicate Reached(s: Progress, table: seq<Sym>, mods: seq<Module>, v: seq<Object>, l: Layout, m: nat)
    requires Matches(mods, v) && m <= |mods|
  {
    && s.origins == Origins(v, l, m)
    && |s.tout| == TextSum(v[..m]) && |s.dout| == DataSum(v[..m]) && |s.dups| == m
    && (forall j :: 0 <= j < m ==> Loadable(table, mods[j]))
    && (forall j :: 0 <= j < m ==> InOutput(table, mods, v, l, j, s.tout, s.dout))
    && (forall j :: 0 <= j < m ==> DupsOf(table, v, l, j, s.dups[j]))
  }

  function Advanced(s: Progress, table: seq<Sym>, mod: Module, ds: seq<nat>): Progress
    requires WellSized(mod)
  {
    var c := Sum(HeaderRel(mod.o), s.origins);
    Progress(Sum(s.origins, Rel(mod.o.text, Long(mod.o.data), Long(mod.o.bss))),
             s.tout + TextImage(table, mod, c), s.dout + DataImage(table, mod, c), s.dups + [ds])
  }

  lemma ReachesNext(s: Progress, table: seq<Sym>, mods: seq<Module>, v: seq<Object>, l: Layout, m: nat, ds: seq<nat>)
    requires Matches(mods, v) && m < |mods| && Reached(s, table, mods, v, l, m)
    requires Loadable(table, mods[m]) && DupsOf(table, v, l, m, ds)
    ensures Reached(Advanced(s, table, mods[m], ds), table, mods, v, l, m + 1)
  {
    var c, u := SecondRel(v, l, m), Advanced(s, table, mods[m], ds);
    var t, d := TextImage(table, mods[m], c), DataImage(table, mods[m], c);
    assert c == Sum(HeaderRel(mods[m].o), s.origins);
    Appended(v, m, s.tout, s.dout, t, d);
    assert v[..m + 1][..m] == v[..m];
    forall j | 0 <= j < m + 1
      ensures InOutput(table, mods, v, l, j, u.tout, u.dout) && DupsOf(table, v, l, j, u.dups[j]) {
      if j < m {
        StaysInOutput(table, mods, v, l, j, s.tout, s.dout, t, d);
      }
    }
  }

  function ProgressOf(pass: SecondPass, dups: seq<seq<nat>>): Progress
    reads pass
  {
    Progress(Rel(pass.torigin, pass.dorigin, pass.borigin), pass.tout, pass.dout, dups)
  }

  method NextModule(pass: SecondPass, mods: seq<Module>, m: nat, dups: seq<seq<nat>>, nsym: nat, ghost v: seq<Object>,
      ghost l: Layout)
    returns (ok: bool, more: seq<seq<nat>>)
    requires Matches(mods, v) && m < |mods| && Reached(ProgressOf(pass, dups), pass.table, mods, v, l, m)
    requires pass.lochash.Length == LHSIZ && pass.textbase == l.torigin && pass.database == l.dorigin
    modifies pass`torigin, pass`dorigin, pass`borigin, pass`tout, pass`dout, pass`trout, pass`drout, pass.lochash
    ensures ok == Loadable(pass.table, mods[m])
    ensures ok ==> Reached(ProgressOf(pass, more), pass.table, mods, v, l, m + 1)
  {
    ghost var s := ProgressOf(pass, dups);
    var ds;
    ok, ds := pass.Load2(mods[m], nsym);
    more := dups + [ds];
    if ok {
      assert ProgressOf(pass, more) == Advanced(s, pass.table, mods[m], ds);
      ReachesNext(s, pass.table, mods, v, l, m, ds);
    }
  }

  /** middle and load2 on every visited module. */
  method Finish(st: State, o: Opts, mods: seq<Module>, nsym: nat)
    returns (ok: bool, table: seq<Sym>, tout: seq<Byte>, dout: seq<Byte>, dups: seq<seq<nat>>)
    requires Good(st) && Matches(mods, st.visited)
    ensures IsFinal(table, st, o)
    ensures ok == forall m :: 0 <= m < |mods| ==> Loadable(table, mods[m])
    ensures ok ==> |tout| == TextSum(st.visited) && |dout| == DataSum(st.visited) && |dups| == |mods|
    ensures ok ==> forall m :: 0 <= m < |mods| ==> InOutput(table, mods, st.visited, LayoutOf(st, o), m, tout, dout)
    ensures ok ==> forall m :: 0 <= m < |mods| ==> DupsOf(table, st.visited, LayoutOf(st, o), m, dups[m])
  {
    var pass := new SecondPass(st);
    pass.Middle(o, st);
    table, dups := pass.table, [];
    ghost var v, l := st.visited, LayoutOf(st, o);
    var m := 0;
    while m < |mods|
      invariant 0 <= m <= |mods| && fresh(pass.lochash) && pass.lochash.Length == LHSIZ && pass.table == table
      invariant pass.textbase == l.torigin && pass.database == l.dorigin
      invariant Reached(ProgressOf(pass, dups), table, mods, v, l, m)
    {
      ok, dups := NextModule(pass, mods, m, dups, nsym, v, l);
      if !ok {
        return false, table, [], [], [];
      }
      m := m + 1;
    }
    assert v[..m] == v;
    ok, tout, dout := true, pass.tout, pass.dout;
  }

  lemma Appended(v: seq<Object>, m: nat, tout: seq<Byte>, dout: seq<Byte>, t: seq<Byte>, d: seq<Byte>)
    requires m < |v| && |t| == v[m].text && |d| == Long(v[m].data)
    requires |tout| == TextSum(v[..m]) && |dout| == DataSum(v[..m])
    ensures (tout + t)[TextSum(v[..m])..TextSum(v[..m]) + v[m].text] == t
    ensures (dout + d)[DataSum(v[..m])..DataSum(v[..m]) + Long(v[m].data)] == d
  {
  }

  predicate DupsOf(table: seq<Sym>, v: seq<Object>, l: Layout, m: nat, ds: seq<nat>)
    requires m < |v|
  {
    ds == Disagreeing(table, v[m].syms, SecondRel(v, l, m), |v[m].syms|)
  }

  /** The word of entry i in a relocated segment, for a reference to byte p of the same module. */
  lemma RelocatedWord(table: seq<Sym>, v: seq<Object>, l: Layout, seg: Kind, code: seq<Byte>, rs: seq<Reloc>,
      p: Place, i: nat, disp: int)
    requires Exists(v, p) && (seg.Text? || seg.Data?) && |code| == SegSize(v[p.m], seg)
    requires AllInBounds(rs, |code|)
    requires i < |rs| && NoOverlap(rs) && rs[i].target == Segment(p.seg)
    requires Carries(code, rs[i], Before(v, p, seg, rs[i], disp))
    ensures Carries(Relocated(code, rs, Amounts(table, v[p.m].syms, SecondRel(v, l, p.m), seg, rs), |rs|), rs[i],
                    After(v, l, p, seg, rs[i], disp))
  {
    var add := Amounts(table, v[p.m].syms, SecondRel(v, l, p.m), seg, rs);
    var x, y := Before(v, p, seg, rs[i], disp), After(v, l, p, seg, rs[i], disp);
    assert x + add[i] == y by {
      SegmentWord(table, v, l, seg, rs[i], p, disp);
    }
    ImageWord(code, rs, add, i, x, y);
  }

  /**
   In the output: a text word that referred to a byte of its module holds that byte's
   final address (or its final distance from the entry), modulo the width of the word.
   */
  lemma TextWord(table: seq<Sym>, v: seq<Object>, l: Layout, mods: seq<Module>, tout: seq<Byte>, dout: seq<Byte>,
                 p: Place, r: Reloc, i: nat, disp: int)
    requires Matches(mods, v) && Exists(v, p) && InOutput(table, mods, v, l, p.m, tout, dout)
    requires NoOverlap(mods[p.m].textRel) && i < |mods[p.m].textRel| && r == mods[p.m].textRel[i]
    requires r.target == Segment(p.seg) && Carries(mods[p.m].text, r, Before(v, p, Text, r, disp))
    ensures Carries(tout, Moved(r, TextSum(v[..p.m])), After(v, l, p, Text, r, disp))
  {
    var mod := mods[p.m];
    RelocatedWord(table, v, l, Text, mod.text, mod.textRel, p, i, disp);
    CarriedWord(tout, TextSum(v[..p.m]), TextImage(table, mod, SecondRel(v, l, p.m)), r, After(v, l, p, Text, r, disp));
  }

  /** The same for a data word. */
  lemma DataWord(table: seq<Sym>, v: seq<Object>, l: Layout, mods: seq<Module>, tout: seq<Byte>, dout: seq<Byte>,
                 p: Place, r: Reloc, i: nat, disp: int)
    requires Matches(mods, v) && Exists(v, p) && InOutput(table, mods, v, l, p.m, tout, dout)
    requires NoOverlap(mods[p.m].dataRel) && i < |mods[p.m].dataRel| && r == mods[p.m].dataRel[i]
    requires r.target == Segment(p.seg) && Carries(mods[p.m].data, r, Before(v, p, Data, r, disp))
    ensures Carries(dout, Moved(r, DataSum(v[..p.m])), After(v, l, p, Data, r, disp))
  {
    RelocatedWord(table, v, l, Data, mods[p.m].data, mods[p.m].dataRel, p, i, disp);
    DataCarries(table, v, l, mods, p.m, tout, dout, r, After(v, l, p, Data, r, disp));
  }

  /** What the relocated data of a module holds, the data put out holds further on. */
  lemma DataCarries(table: seq<Sym>, v: seq<Object>, l: Layout, mods: seq<Module>, m: nat, tout: seq<Byte>,
                    dout: seq<Byte>, r: Reloc, x: int)
    requires Matches(mods, v) && m < |mods| && InOutput(table, mods, v, l, m, tout, dout)
    requires var mod := mods[m];
      Carries(Relocated(mod.data, mod.dataRel, Amounts(table, mod.o.syms, SecondRel(v, l, m), Data, mod.dataRel),
                        |mod.dataRel|), r, x)
    ensures Carries(dout, Moved(r, DataSum(v[..m])), x)
  {
    var mod := mods[m];
    var image := Relocated(mod.data, mod.dataRel, Amounts(table, mod.o.syms, SecondRel(v, l, m), Data, mod.dataRel),
                           |mod.dataRel|);
    PaddedWord(dout, DataSum(v[..m]), image, Zeros(Long(mod.o.data) - mod.o.data), r, x);
  }

  lemma RelocatedExternal(table: seq<Sym>, st: State, o: Opts, seg: Kind, code: seq<Byte>, rs: seq<Reloc>, m: nat,
      k: nat, i: nat, disp: int)
    requires IsFinal(table, st, o) && m < |st.visited| && (seg.Text? || seg.Data?) &&
      |code| == SegSize(st.visited[m], seg)
    requires AllInBounds(rs, |code|) && k < |rs| && NoOverlap(rs) && RefersTo(st, o, m, rs[k], i)
    requires Carries(code, rs[k], BeforeExternal(st.visited, m, seg, rs[k], disp))
    ensures var v, l := st.visited, LayoutOf(st, o);
      Carries(Relocated(code, rs, Amounts(table, v[m].syms, SecondRel(v, l, m), seg, rs), |rs|), rs[k],
              AfterExternal(v, l, m, seg, rs[k], Final(st, o, i).value, disp))
  {
    var v, l := st.visited, LayoutOf(st, o);
    var add := Amounts(table, v[m].syms, SecondRel(v, l, m), seg, rs);
    var x, y := BeforeExternal(v, m, seg, rs[k], disp), AfterExternal(v, l, m, seg, rs[k], Final(st, o, i).value, disp);
    assert x + add[k] == y by {
      ExternalWord(table, st, o, m, seg, rs[k], i, disp);
    }
    ImageWord(code, rs, add, k, x, y);
  }

  /** In the output: a text word that referred to an external symbol holds its final value, or the distance to it. */
  lemma ExternalText(table: seq<Sym>, st: State, o: Opts, mods: seq<Module>, tout: seq<Byte>, dout: seq<Byte>,
                     m: nat, k: nat, i: nat, disp: int)
    requires IsFinal(table, st, o) && Matches(mods, st.visited) && m < |mods|
    requires InOutput(table, mods, st.visited, LayoutOf(st, o), m, tout, dout)
    requires NoOverlap(mods[m].textRel) && k < |mods[m].textRel| && RefersTo(st, o, m, mods[m].textRel[k], i)
    requires Carries(mods[m].text, mods[m].textRel[k], BeforeExternal(st.visited, m, Text, mods[m].textRel[k], disp))
    ensures Carries(tout, Moved(mods[m].textRel[k], TextSum(st.visited[..m])),
                    AfterExternal(st.visited, LayoutOf(st, o), m, Text, mods[m].textRel[k],
                                  Final(st, o, i).value, disp))
  {
    var mod, v, l, r := mods[m], st.visited, LayoutOf(st, o), mods[m].textRel[k];
    RelocatedExternal(table, st, o, Text, mod.text, mod.textRel, m, k, i, disp);
    CarriedWord(tout, TextSum(v[..m]), TextImage(table, mod, SecondRel(v, l, m)), r,
                AfterExternal(v, l, m, Text, r, Final(st, o, i).value, disp));
  }

  /** The same for a data word. */
  lemma ExternalData(table: seq<Sym>, st: State, o: Opts, mods: seq<Module>, tout: seq<Byte>, dout: seq<Byte>,
                     m: nat, k: nat, i: nat, disp: int)
    requires IsFinal(table, st, o) && Matches(mods, st.visited) && m < |mods|
    requires InOutput(table, mods, st.visited, LayoutOf(st, o), m, tout, dout)
    requires NoOverlap(mods[m].dataRel) && k < |mods[m].dataRel| && RefersTo(st, o, m, mods[m].dataRel[k], i)
    requires Carries(mods[m].data, mods[m].dataRel[k], BeforeExternal(st.visited, m, Data, mods[m].dataRel[k], disp))
    ensures Carries(dout, Moved(mods[m].dataRel[k], DataSum(st.visited[..m])),
                    AfterExternal(st.visited, LayoutOf(st, o), m, Data, mods[m].dataRel[k],
                                  Final(st, o, i).value, disp))
  {
    var v, l, r := st.visited, LayoutOf(st, o), mods[m].dataRel[k];
    RelocatedExternal(table, st, o, Data, mods[m].data, mods[m].dataRel, m, k, i, disp);
    DataCarries(table, v, l, mods, m, tout, dout, r, AfterExternal(v, l, m, Data, r, Final(st, o, i).value, disp));
  }

  /** What a segment holds, the stream it is written to holds further on. */
  lemma CarriedWord(s: seq<Byte>, base: nat, image: seq<Byte>, r: Reloc, x: int)
    requires base + |image| <= |s| && s[base..base + |image|] == image && Carries(image, r, x)
    ensures Carries(s, Moved(r, base), x)
  {
    WordInStream(s, base, image, r);
  }

  lemma PaddedWord(s: seq<Byte>, base: nat, image: seq<Byte>, padding: seq<Byte>, r: Reloc, x: int)
    requires base + |image| + |padding| <= |s| && s[base..base + |image| + |padding|] == image + padding &&
      Carries(image, r, x)
    ensures Carries(s, Moved(r, base), x)
  {
    Slice(s, base, |image| + |padding|, 0, |image|);
    assert (image + padding)[0..|image|] == image;
    CarriedWord(s, base, image, r, x);
  }

  lemma WordInStream(s: seq<Byte>, base: nat, image: seq<Byte>, r: Reloc)
    requires base + |image| <= |s| && s[base..base + |image|] == image && InBounds(r, |image|)
    ensures WordAt(s, Moved(r, base)) == WordAt(image, r)
  {
    Slice(s, base, |image|, r.address, Width(r));
  }

  lemma Slice(s: seq<Byte>, base: nat, m: nat, a: nat, n: nat)
    requires base + m <= |s| && a + n <= m
    ensures s[base..base + m][a..a + n] == s[base + a..base + a + n]
  {
    var x, y := s[base..base + m][a..a + n], s[base + a..base + a + n];
    forall k | 0 <= k < n ensures x[k] == y[k] {
      assert x[k] == s[base..base + m][a + k];
    }
  }
}
