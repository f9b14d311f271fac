/**
 Between the passes of ld68: storage for common symbols, the segment origins, and
 the final value of every symbol.
 */
module LinkerLayout {
  import opened LinkerModel
  import opened LinkerPassOne

  /** The options that matter here: -r, -d, -n, and demand paging; -T, -B and -H. */
  datatype Opts = Opts(r: bool, d: bool, n: bool, z: bool, textbase: nat, bssbase: nat, hsize: nat)

  const ETEXT := "_etext"
  const EDATA := "_edata"
  const END := "_end"

  /** Start of text, data, common and bss, and the size of the commons. */
  datatype Layout = Layout(torigin: int, dorigin: int, corigin: int, borigin: int, csize: nat)

  // ---- Specification of middle -------------------------------------------

  predicate LoaderName(name: string) {
    name == ETEXT || name == EDATA || name == END
  }

  /** Undefined, without a size, and not for the loader to define. */
  predicate Unresolved(e: Sym) {
    e.kind.Undf? && e.value == 0 && !LoaderName(e.name)
  }

  predicate AnyUnresolved(t: seq<Sym>) {
    exists i :: 0 <= i < |t| && Unresolved(t[i])
  }

  predicate SavesRelocation(t: seq<Sym>, o: Opts) {
    o.r || AnyUnresolved(t)
  }

  predicate AssignsCommon(t: seq<Sym>, o: Opts) {
    !SavesRelocation(t, o) || (o.r && o.d)
  }

  /** Round for a positive power of two. */
  function Up(v: nat, r: nat): (u: nat)
    requires r > 0
    ensures v <= u < v + r && u % r == 0
  {
    RoundMeans(v, r);
    Round(v, r)
  }

  function Database(t: seq<Sym>, tsize: nat, o: Opts): nat {
    Up(tsize + o.textbase, if o.n || (o.z && !SavesRelocation(t, o)) then PAGSIZ else LONG) + o.hsize
  }

  /** ldrsym: defines a symbol of the loader's own unless the user did. */
  function LoaderSym(e: Sym, tsize: nat, dsize: nat, bsize: nat): Sym {
    if !e.kind.Undf? || e.value != 0 then e
    else if e.name == ETEXT then e.(kind := Text, value := tsize)
    else if e.name == EDATA then e.(kind := Data, value := dsize)
    else if e.name == END then e.(kind := Bss, value := bsize)
    else e
  }

  predicate Common(e: Sym) {
    e.kind.Undf? && e.value > 0
  }

  function Alignment(size: nat): (a: nat)
    ensures a == 2 || a == 4 || a == 8
  {
    if size >= 8 then 8 else if size >= 4 then 4 else 2
  }

  /** csize once the first n symbols have been given their storage. */
  function CommonSize(t: seq<Sym>, n: nat): nat
    requires n <= |t|
  {
    if n == 0 then 0
    else if Common(t[n - 1]) then Up(CommonSize(t, n - 1), Alignment(t[n - 1].value)) + t[n - 1].value
    else CommonSize(t, n - 1)
  }

  /** Where among the commons symbol i goes. */
  function CommonOffset(t: seq<Sym>, i: nat): nat
    requires i < |t| && Common(t[i])
  {
    Up(CommonSize(t, i), Alignment(t[i].value))
  }

  function LayoutOf(st: State, o: Opts): Layout {
    var csize := if AssignsCommon(st.table, o) then Long(CommonSize(st.table, |st.table|)) else 0;
    var d := Database(st.table, st.tsize, o);
    var c := if o.bssbase != 0 then o.bssbase else d + st.dsize;
    Layout(o.textbase, d, c, c + csize, csize)
  }

  /** The value of a symbol once the segments have their origins. */
  function Located(e: Sym, l: Layout): Sym {
    match e.kind
    case Text => e.(value := e.value + l.torigin)
    case Data => e.(value := e.value + l.dorigin)
    case Bss => e.(value := e.value + l.borigin)
    case Comm => e.(kind := Bss, value := e.value + l.corigin)
    case _ => e
  }

  /** Symbol i once commons have their place and the loader's symbols their value. */
  function Stored(t: seq<Sym>, tsize: nat, dsize: nat, bsize: nat, i: nat): Sym
    requires i < |t|
  {
    if Common(t[i]) then Sym(t[i].name, Comm, CommonOffset(t, i)) else LoaderSym(t[i], tsize, dsize, bsize)
  }

  /** Symbol i before the origins are added. */
  function Assigned(st: State, o: Opts, i: nat): Sym
    requires i < |st.table|
  {
    if AssignsCommon(st.table, o) then Stored(st.table, st.tsize, st.dsize, st.bsize, i) else st.table[i]
  }

  function Final(st: State, o: Opts, i: nat): Sym
    requires i < |st.table|
  {
    Located(Assigned(st, o, i), LayoutOf(st, o))
  }

  // ---- Commons -----------------------------------------------------------

  lemma {:induction false} CommonSizeGrows(t: seq<Sym>, i: nat, n: nat)
    requires i <= n <= |t|
    ensures CommonSize(t, i) <= CommonSize(t, n)
    decreases n
  {
    if i < n {
      CommonSizeGrows(t, i, n - 1);
    }
  }

  /** Common symbols get disjoint storage, in table order, aligned by their size. */
  lemma CommonsApart(t: seq<Sym>, i: nat, j: nat)
    requires i < j < |t| && Common(t[i]) && Common(t[j])
    ensures CommonOffset(t, i) + t[i].value <= CommonOffset(t, j)
    ensures CommonOffset(t, j) + t[j].value <= CommonSize(t, |t|)
    ensures CommonOffset(t, j) % Alignment(t[j].value) == 0
  {
    CommonSizeGrows(t, i + 1, j);
    CommonSizeGrows(t, j + 1, |t|);
  }

  lemma CommonFits(t: seq<Sym>, i: nat)
    requires i < |t| && Common(t[i])
    ensures CommonOffset(t, i) + t[i].value <= CommonSize(t, |t|)
  {
    CommonSizeGrows(t, i + 1, |t|);
  }

  // ---- The second pass recomputes the same addresses ---------------------

  /** The second pass counts the bss of every module it visits. */
  function BssAll(v: seq<Object>): nat {
    if v == [] then 0 else BssAll(v[..|v| - 1]) + Long(v[|v| - 1].bss)
  }

  /** torigin, dorigin and borigin when the second pass reaches module m. */
  function Origins(v: seq<Object>, l: Layout, m: nat): Rel
    requires m <= |v|
  {
    Rel(l.torigin + TextSum(v[..m]), l.dorigin + DataSum(v[..m]), l.borigin + BssAll(v[..m]))
  }

  function SecondRel(v: seq<Object>, l: Layout, m: nat): Rel
    requires m < |v|
  {
    Sum(HeaderRel(v[m]), Origins(v, l, m))
  }

  /** No visited module before m has bss but no symbols. */
  ghost predicate BssCounted(v: seq<Object>, m: nat)
    requires m <= |v|
  {
    forall j :: 0 <= j < m && v[j].syms == [] ==> v[j].bss == 0
  }

  lemma {:induction false} BssAgreesIff(v: seq<Object>, m: nat)
    requires m <= |v|
    ensures BssSum(v[..m]) <= BssAll(v[..m])
    ensures BssSum(v[..m]) == BssAll(v[..m]) <==> BssCounted(v, m)
  {
    if m > 0 {
      BssAgreesIff(v, m - 1);
      assert v[..m][..m - 1] == v[..m - 1];
    }
  }

  /**
   The value the table holds after middle for the symbol that defined an entry is
   the one load2 recomputes from the module, exactly when the symbol is not in bss
   or no earlier plain file had bss but no symbols.
   */
  lemma PassesAgreeIff(st: State, o: Opts, i: nat, m: nat, k: nat)
    requires i < |st.table| && m < |st.visited| && k < |st.visited[m].syms|
    requires ComesFrom(st.table[i], st.visited, m, k)
    ensures var s := st.visited[m].syms[k];
      Final(st, o, i) == Symreloc(s, SecondRel(st.visited, LayoutOf(st, o), m))
      <==> (s.kind.Bss? ==> BssCounted(st.visited, m))
  {
    BssAgreesIff(st.visited, m);
    assert Assigned(st, o, i) == st.table[i];
  }

  /** In particular, every defined entry of a module visited agrees when every file with bss has symbols. */
  lemma EveryDefinitionAgrees(st: State, o: Opts, i: nat) returns (m: nat, k: nat)
    requires Good(st) && Clean(st) && BssCounted(st.visited, |st.visited|)
    requires i < |st.table| && !st.table[i].kind.Undf?
    ensures m < |st.visited| && k < |st.visited[m].syms| && st.visited[m].syms[k].name == st.table[i].name
    ensures Final(st, o, i) == Symreloc(st.visited[m].syms[k], SecondRel(st.visited, LayoutOf(st, o), m))
  {
    assert HasOrigin(st.table[i], st.visited);
    m, k :| 0 <= m < |st.visited| && 0 <= k < |st.visited[m].syms| && ComesFrom(st.table[i], st.visited, m, k);
    PassesAgreeIff(st, o, i, m, k);
  }

  // ---- load2's checks ----------------------------------------------------

  /** What load2 says about symbol k of visited module m. */
  datatype Verdict = Fine | NotFound | MultiplyDefined

  function Check(st: State, o: Opts, m: nat, k: nat): Verdict
    requires m < |st.visited| && k < |st.visited[m].syms|
  {
    var s := st.visited[m].syms[k];
    var i := Find(st.table, s.name);
    if !s.ext then Fine
    else if i < 0 then NotFound
    else if s.kind.Undf? then Fine
    else if Symreloc(s, SecondRel(st.visited, LayoutOf(st, o), m)) == Final(st, o, i) then Fine
    else MultiplyDefined
  }

  ghost predicate OnlyDefinition(v: seq<Object>, m: nat, k: nat)
    requires m < |v| && k < |v[m].syms|
  {
    forall n, j :: 0 <= n < |v| && 0 <= j < |v[n].syms| && Defines(v[n].syms, v[m].syms[k].name, j) ==> n == m && j == k
  }

  /** The second pass finds every external symbol it meets. */
  lemma AllFound(st: State, o: Opts, m: nat, k: nat)
    requires Good(st) && m < |st.visited| && k < |st.visited[m].syms|
    ensures !Check(st, o, m, k).NotFound?
  {
    assert ModuleIn(st, m);
    assert SettledAt(st.table, st.visited[m].syms, k);
  }

  /**
   A symbol no other module defines is reported as multiply defined only when a
   common of that name overruled its text definition, or it lies in bss behind a
   plain file with bss but no symbols.
   */
  lemma SoleDefinition(st: State, o: Opts, m: nat, k: nat)
    requires Good(st) && Clean(st) && m < |st.visited| && k < |st.visited[m].syms|
    requires Defines(st.visited[m].syms, st.visited[m].syms[k].name, k) && OnlyDefinition(st.visited, m, k)
    ensures var s := st.visited[m].syms[k]; var i := Find(st.table, s.name);
      && 0 <= i < |st.table|
      && (Check(st, o, m, k).MultiplyDefined? <==>
           if st.table[i].kind.Undf? then true else s.kind.Bss? && !BssCounted(st.visited, m))
      && (st.table[i].kind.Undf? ==> s.kind.Text? && Common(st.table[i]))
  {
    var s := st.visited[m].syms[k];
    assert ModuleIn(st, m);
    assert SettledAt(st.table, st.visited[m].syms, k);
    var i := Find(st.table, s.name);
    assert GoodSym(st.table[i]);
    if !st.table[i].kind.Undf? {
      assert HasOrigin(st.table[i], st.visited);
      var n, j :| 0 <= n < |st.visited| && 0 <= j < |st.visited[n].syms| && ComesFrom(st.table[i], st.visited, n, j);
      assert Defines(st.visited[n].syms, s.name, j);
      PassesAgreeIff(st, o, i, m, k);
    }
  }
}
