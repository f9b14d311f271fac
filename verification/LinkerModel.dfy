/**
 What ld68 does with symbols on its first pass, as values: one module's external
 symbols against the global table, and the module's sizes.
 */
module LinkerModel {
  import opened Arithmetic

  /** n_type without the external bit; Comm exists only between the two halves of middle. */
  datatype Kind = Undf | Abs | Text | Data | Bss | Comm

  /** A symbol in a module's own symbol table. */
  datatype Nlist = Nlist(name: string, ext: bool, kind: Kind, value: nat)

  /** A symbol in the global table, all of which are external. */
  datatype Sym = Sym(name: string, kind: Kind, value: int)

  datatype Magic = OMagic | NMagic | ZMagic

  datatype Object = Object(magic: Magic, text: nat, data: nat, bss: nat, syms: seq<Nlist>)

  /** ctrel, cdrel and cbrel: how far each segment moves. */
  datatype Rel = Rel(t: int, d: int, b: int)

  const PAGSIZ: nat := 1024
  const LONG: nat := 4

  /** The smallest multiple of r not below v. */
  function Round(v: int, r: nat): int
    requires r > 0
  {
    v + (r - 1) - (v + (r - 1)) % r
  }

  lemma RoundMeans(v: int, r: nat)
    requires r > 0
    ensures v <= Round(v, r) < v + r && Round(v, r) % r == 0
  {
    var x := v + (r - 1);
    assert Round(v, r) == r * (x / r);
    MultipleMod(x / r, r);
  }

  // ---- One symbol --------------------------------------------------------

  /** Where the module's own header puts its data and bss, negated. */
  function HeaderRel(o: Object): Rel {
    var d := if o.magic.OMagic? then 0 - o.text else -Round(o.text, PAGSIZ);
    Rel(0, d, d - o.data)
  }

  function Shift(c: Rel, k: Kind): int {
    match k
    case Text => c.t
    case Data => c.d
    case Bss => c.b
    case _ => 0
  }

  function Sum(a: Rel, b: Rel): Rel {
    Rel(a.t + b.t, a.d + b.d, a.b + b.b)
  }

  /** The kind symreloc leaves on an external symbol. */
  function Settle(k: Kind): Kind {
    if k.Comm? then Abs else k
  }

  /** symreloc on an external symbol. */
  function Symreloc(s: Nlist, c: Rel): Sym {
    Sym(s.name, Settle(s.kind), s.value + Shift(c, s.kind))
  }

  // ---- The global table --------------------------------------------------

  /** lookup: the index of a name, or -1. */
  function Find(t: seq<Sym>, name: string): (i: int)
    ensures -1 <= i < |t|
    ensures i >= 0 ==> t[i].name == name
    ensures i < 0 ==> forall j :: 0 <= j < |t| ==> t[j].name != name
  {
    if t == [] then -1
    else if t[|t| - 1].name == name then |t| - 1
    else Find(t[..|t| - 1], name)
  }

  ghost predicate DistinctNames(t: seq<Sym>) {
    forall i, j :: 0 <= i < j < |t| ==> t[i].name != t[j].name
  }

  lemma FindIs(t: seq<Sym>, i: nat)
    requires DistinctNames(t) && i < |t|
    ensures Find(t, t[i].name) == i
  {
  }

  /** What an entry becomes when its name turns up again, and whether that defines it. */
  function Met(e: Sym, s: Sym): (Sym, bool) {
    if !e.kind.Undf? then (e, false)
    else if s.kind.Undf? then (if s.value > e.value then e.(value := s.value) else e, false)
    else if e.value != 0 && s.kind.Text? then (e, false)
    else (e.(kind := s.kind, value := s.value), true)
  }

  /** One external symbol of a module on the first pass; a name entered anew is not counted as defined. */
  function Absorb(t: seq<Sym>, s: Sym): (seq<Sym>, bool) {
    var i := Find(t, s.name);
    if i < 0 then (t + [s], false)
    else
      var (e, d) := Met(t[i], s);
      (t[i := e], d)
  }

  /** The loop over a module's symbols: the table it leaves and ndef. */
  function AbsorbAll(t: seq<Sym>, syms: seq<Nlist>, c: Rel): (seq<Sym>, nat) {
    if syms == [] then (t, 0)
    else
      var (u, n) := AbsorbAll(t, syms[..|syms| - 1], c);
      var s := syms[|syms| - 1];
      if !s.ext then (u, n)
      else
        var (v, d) := Absorb(u, Symreloc(s, c));
        (v, if d then n + 1 else n)
  }

  // ---- How the table can change ------------------------------------------

  /** A definition is final; a common or undefined symbol can only grow or be defined. */
  predicate Evolves(a: Sym, b: Sym) {
    && a.name == b.name
    && (if a.kind.Undf? then (b.kind.Undf? ==> a.value <= b.value) else a == b)
  }

  predicate StepsTo(t: seq<Sym>, u: seq<Sym>, i: nat)
    requires i < |t| <= |u|
  {
    Evolves(t[i], u[i])
  }

  ghost predicate Grows(t: seq<Sym>, u: seq<Sym>) {
    |t| <= |u| && forall i :: 0 <= i < |t| ==> StepsTo(t, u, i)
  }

  lemma GrowsTrans(t: seq<Sym>, u: seq<Sym>, v: seq<Sym>)
    requires Grows(t, u) && Grows(u, v)
    ensures Grows(t, v)
  {
    forall i | 0 <= i < |t| ensures StepsTo(t, v, i) {
      assert StepsTo(t, u, i) && StepsTo(u, v, i);
    }
  }

  predicate GoodSym(e: Sym) {
    !e.kind.Comm? && (e.kind.Undf? ==> e.value >= 0)
  }

  ghost predicate GoodTable(t: seq<Sym>) {
    DistinctNames(t) && forall i :: 0 <= i < |t| ==> GoodSym(t[i])
  }

  lemma AbsorbGrows(t: seq<Sym>, s: Sym)
    requires GoodTable(t) && GoodSym(s)
    ensures var u := Absorb(t, s).0; GoodTable(u) && Grows(t, u) && |u| <= |t| + 1
  {
    var u := Absorb(t, s).0;
    forall i | 0 <= i < |t| ensures StepsTo(t, u, i) {
    }
  }

  lemma {:induction false} AbsorbAllGrows(t: seq<Sym>, syms: seq<Nlist>, c: Rel)
    requires GoodTable(t)
    ensures var u := AbsorbAll(t, syms, c).0; GoodTable(u) && Grows(t, u)
  {
    if syms != [] {
      var rest, s := syms[..|syms| - 1], syms[|syms| - 1];
      AbsorbAllGrows(t, rest, c);
      if s.ext {
        var u := AbsorbAll(t, rest, c).0;
        AbsorbGrows(u, Symreloc(s, c));
        GrowsTrans(t, u, AbsorbAll(t, syms, c).0);
      }
    }
  }

  lemma NameStays(t: seq<Sym>, u: seq<Sym>, name: string)
    requires GoodTable(t) && GoodTable(u) && Grows(t, u) && Find(t, name) >= 0
    ensures Find(u, name) == Find(t, name)
  {
    var i := Find(t, name);
    assert StepsTo(t, u, i);
    FindIs(u, i);
  }

  // ---- What a module leaves settled --------------------------------------

  /** Meeting the symbol again would define nothing. */
  predicate Settled(t: seq<Sym>, s: Nlist) {
    var i := Find(t, s.name);
    i >= 0 && (s.kind.Undf? || !t[i].kind.Undf? || (t[i].value != 0 && s.kind.Text?))
  }

  predicate SettledAt(t: seq<Sym>, syms: seq<Nlist>, k: nat)
    requires k < |syms|
  {
    syms[k].ext ==> Settled(t, syms[k])
  }

  ghost predicate AllSettled(t: seq<Sym>, syms: seq<Nlist>) {
    forall k :: 0 <= k < |syms| ==> SettledAt(t, syms, k)
  }

  lemma SettledStays(t: seq<Sym>, u: seq<Sym>, s: Nlist)
    requires GoodTable(t) && GoodTable(u) && Grows(t, u) && Settled(t, s)
    ensures Settled(u, s)
  {
    NameStays(t, u, s.name);
    assert StepsTo(t, u, Find(t, s.name)) && GoodSym(t[Find(t, s.name)]);
  }

  lemma AllSettledStays(t: seq<Sym>, u: seq<Sym>, syms: seq<Nlist>)
    requires GoodTable(t) && GoodTable(u) && Grows(t, u) && AllSettled(t, syms)
    ensures AllSettled(u, syms)
  {
    forall k | 0 <= k < |syms| ensures SettledAt(u, syms, k) {
      assert SettledAt(t, syms, k);
      if syms[k].ext {
        SettledStays(t, u, syms[k]);
      }
    }
  }

  lemma AbsorbSettles(t: seq<Sym>, s: Nlist, c: Rel)
    requires GoodTable(t)
    ensures Settled(Absorb(t, Symreloc(s, c)).0, s)
  {
    var r := Symreloc(s, c);
    var i, u := Find(t, s.name), Absorb(t, r).0;
    AbsorbGrows(t, r);
    FindIs(u, if i < 0 then |t| else i);
  }

  /** After a module's symbols have gone in, all of them are settled. */
  lemma {:induction false} AbsorbAllSettles(t: seq<Sym>, syms: seq<Nlist>, c: Rel)
    requires GoodTable(t)
    ensures AllSettled(AbsorbAll(t, syms, c).0, syms)
  {
    if syms != [] {
      var n := |syms| - 1;
      var rest, s, u := syms[..n], syms[n], AbsorbAll(t, syms[..n], c).0;
      var v := AbsorbAll(t, syms, c).0;
      AbsorbAllSettles(t, rest, c);
      AbsorbAllGrows(t, rest, c);
      if s.ext {
        AbsorbGrows(u, Symreloc(s, c));
        AbsorbSettles(u, s, c);
        AllSettledStays(u, v, rest);
      }
      forall k | 0 <= k < |syms| ensures SettledAt(v, syms, k) {
        if k < n {
          assert SettledAt(v, rest, k);
        }
      }
    }
  }

  /** A module all of whose symbols are settled defines nothing and enters nothing. */
  lemma {:induction false} SettledDefinesNothing(t: seq<Sym>, syms: seq<Nlist>, c: Rel)
    requires GoodTable(t) && AllSettled(t, syms)
    ensures AbsorbAll(t, syms, c).1 == 0 && |AbsorbAll(t, syms, c).0| == |t|
  {
    if syms != [] {
      var n := |syms| - 1;
      var rest, s, u := syms[..n], syms[n], AbsorbAll(t, syms[..n], c).0;
      forall k | 0 <= k < n ensures SettledAt(t, rest, k) {
        assert SettledAt(t, syms, k);
      }
      SettledDefinesNothing(t, rest, c);
      AbsorbAllGrows(t, rest, c);
      if s.ext {
        assert SettledAt(t, syms, n);
        SettledStays(t, u, s);
      }
    }
  }

  predicate Undefined(t: seq<Sym>, name: string) {
    var i := Find(t, name);
    i >= 0 && t[i].kind.Undf?
  }

  predicate Defines(syms: seq<Nlist>, name: string, k: nat)
    requires k < |syms|
  {
    syms[k].ext && syms[k].name == name && !syms[k].kind.Undf?
  }

  ghost predicate DefinedIn(syms: seq<Nlist>, name: string) {
    exists k :: 0 <= k < |syms| && Defines(syms, name, k)
  }

  /** The names of a module's external symbols. */
  function ExtNames(syms: seq<Nlist>): set<string> {
    set k | 0 <= k < |syms| && syms[k].ext :: syms[k].name
  }

  function Names(t: seq<Sym>): set<string> {
    set i | 0 <= i < |t| :: t[i].name
  }

  /** Names not in the module keep their entries. */
  lemma {:induction false} OthersKept(t: seq<Sym>, syms: seq<Nlist>, c: Rel, name: string)
    requires GoodTable(t) && name !in ExtNames(syms)
    ensures var u := AbsorbAll(t, syms, c).0;
      && Find(u, name) == Find(t, name)
      && (Find(t, name) >= 0 ==> u[Find(t, name)] == t[Find(t, name)])
  {
    if syms != [] {
      var n := |syms| - 1;
      var rest, s, u := syms[..n], syms[n], AbsorbAll(t, syms[..n], c).0;
      assert name !in ExtNames(rest) by {
        forall k | 0 <= k < n && rest[k].ext ensures rest[k].name != name {
          assert syms[k].name in ExtNames(syms);
        }
      }
      OthersKept(t, rest, c, name);
      AbsorbAllGrows(t, rest, c);
      if s.ext {
        assert syms[n].name in ExtNames(syms);
        AbsorbOther(u, Symreloc(s, c), name);
      }
    }
  }

  lemma AbsorbOther(t: seq<Sym>, s: Sym, name: string)
    requires GoodTable(t) && GoodSym(s) && s.name != name
    ensures var u := Absorb(t, s).0;
      && Find(u, name) == Find(t, name)
      && (Find(t, name) >= 0 ==> u[Find(t, name)] == t[Find(t, name)])
  {
    var u := Absorb(t, s).0;
    AbsorbGrows(t, s);
    var i, j := Find(t, name), Find(u, name);
    if i >= 0 {
      FindIs(u, i);
    }
  }

  lemma DefinedStays(u: seq<Sym>, v: seq<Sym>, name: string)
    requires GoodTable(u) && GoodTable(v) && Grows(u, v) && Find(u, name) >= 0 && !Undefined(u, name)
    ensures Find(v, name) >= 0 && !Undefined(v, name)
  {
    NameStays(u, v, name);
    assert StepsTo(u, v, Find(u, name));
  }
}
