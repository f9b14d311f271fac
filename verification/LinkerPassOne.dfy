/**
 The first pass of ld68: plain files and archive members, the members that are
 backed out, and the search of an archive by its table of contents.
 */
module LinkerPassOne {
  import opened LinkerModel
  import opened LinkerNeeds
  import opened ProbeSequence

  datatype Outcome = Kept | Dropped | Fatal

  /**
   The table, the modules load2 will visit, the sizes accumulated, and nextsym as the
   number of symbols in front of the place it points to, 0 standing for no place.
   */
  datatype State = State(table: seq<Sym>, visited: seq<Object>, tsize: nat, dsize: nat, bsize: nat, next: nat)

  const START := State([], [], 0, 0, 0, 0)

  /** nextsym does not point behind the newest symbol. */
  predicate Stale(st: State) {
    st.next != |st.table|
  }

  /** The segment of the symbol in front of place n. */
  function SegmentOf(n: nat): nat
    requires n > 0
  {
    (n - 1) / NSYM
  }

  /** nextsym after a module's symbols have made the table u. */
  function NextAfter(st: State, u: seq<Sym>): nat {
    if |u| > |st.table| then |u| else st.next
  }

  /**
   "symx botch" on a module kept: nextsym, now or when the module started, points into
   a segment behind the current one. Only a stale nextsym can; the number of symbols
   before and after the module tells.
   */
  predicate SymxBotch(next: nat, before: nat, after: nat) {
    next != before && next > 0 && (after == 0 || SegmentOf(next) > SegmentOf(after))
  }

  function Long(n: nat): (r: nat)
    ensures n <= r < n + LONG && r % LONG == 0
  {
    RoundMeans(n, LONG);
    Round(n, LONG)
  }

  /** How far the segments of the next module move on the first pass. */
  function PassRel(st: State, o: Object): Rel {
    Sum(HeaderRel(o), Rel(st.tsize, st.dsize, st.bsize))
  }

  predicate OddSizes(o: Object) {
    o.text % 2 != 0 || o.data % 2 != 0
  }

  /** load1. */
  function Load(st: State, o: Object, lib: bool): (State, Outcome) {
    if OddSizes(o) then (st, Fatal)
    else if o.syms == [] then
      if o.text + o.data != 0 then (st, Fatal)
      else (if lib then st else st.(visited := st.visited + [o]), Dropped)
    else
      var (u, ndef) := AbsorbAll(st.table, o.syms, PassRel(st, o));
      var next := NextAfter(st, u);
      if !lib || ndef > 0 then
        if SymxBotch(st.next, |st.table|, |u|) then (st, Fatal)
        else (State(u, st.visited + [o], st.tsize + o.text, st.dsize + Long(o.data), st.bsize + Long(o.bss), next),
          Kept)
      else if st.next > |u| then (st, Fatal)
      else (st.(table := u[..st.next], next := if st.next == 0 then next else st.next), Dropped)
  }

  // ---- Sizes -------------------------------------------------------------

  function TextSum(v: seq<Object>): nat {
    if v == [] then 0 else TextSum(v[..|v| - 1]) + v[|v| - 1].text
  }

  function DataSum(v: seq<Object>): nat {
    if v == [] then 0 else DataSum(v[..|v| - 1]) + Long(v[|v| - 1].data)
  }

  /** The first pass passes over the bss of a module without symbols. */
  function BssSum(v: seq<Object>): nat {
    if v == [] then 0
    else BssSum(v[..|v| - 1]) + if v[|v| - 1].syms == [] then 0 else Long(v[|v| - 1].bss)
  }

  /** How far the first pass moved the segments of visited module m. */
  function FirstRel(v: seq<Object>, m: nat): Rel
    requires m < |v|
  {
    Sum(HeaderRel(v[m]), Rel(TextSum(v[..m]), DataSum(v[..m]), BssSum(v[..m])))
  }

  // ---- What holds after every load ---------------------------------------

  /** Entry e is what symbol k of visited module m came to on the first pass. */
  predicate ComesFrom(e: Sym, v: seq<Object>, m: nat, k: nat)
    requires m < |v| && k < |v[m].syms|
  {
    v[m].syms[k].ext && !v[m].syms[k].kind.Undf? && e == Symreloc(v[m].syms[k], FirstRel(v, m))
  }

  ghost predicate HasOrigin(e: Sym, v: seq<Object>) {
    e.kind.Undf? || exists m, k :: 0 <= m < |v| && 0 <= k < |v[m].syms| && ComesFrom(e, v, m, k)
  }

  ghost predicate ModuleIn(st: State, m: nat)
    requires m < |st.visited|
  {
    && !OddSizes(st.visited[m])
    && (st.visited[m].syms == [] ==> st.visited[m].text == st.visited[m].data == 0)
    && AllSettled(st.table, st.visited[m].syms)
  }

  ghost predicate Good(st: State) {
    && GoodTable(st.table) && (Stale(st) ==> st.table == [])
    && st.tsize == TextSum(st.visited) && st.dsize == DataSum(st.visited) && st.bsize == BssSum(st.visited)
    && (forall m :: 0 <= m < |st.visited| ==> ModuleIn(st, m))
  }

  /** Every defined entry is some visited module's symbol. */
  ghost predicate Clean(st: State) {
    forall i :: 0 <= i < |st.table| ==> HasOrigin(st.table[i], st.visited)
  }

  lemma StartsGood()
    ensures Good(START) && Clean(START) && !Stale(START)
  {
  }

  lemma OriginKept(e: Sym, v: seq<Object>, o: Object)
    requires HasOrigin(e, v)
    ensures HasOrigin(e, v + [o])
  {
    if !e.kind.Undf? {
      var m, k :| 0 <= m < |v| && 0 <= k < |v[m].syms| && ComesFrom(e, v, m, k);
      assert (v + [o])[..m] == v[..m];
      assert ComesFrom(e, v + [o], m, k);
    }
  }

  /** Where the entries of the table come from after a module's symbols went in. */
  predicate MadeBy(e: Sym, syms: seq<Nlist>, c: Rel, k: nat)
    requires k < |syms|
  {
    syms[k].ext && !syms[k].kind.Undf? && e == Symreloc(syms[k], c)
  }

  ghost predicate Accounted(t: seq<Sym>, u: seq<Sym>, syms: seq<Nlist>, c: Rel, i: nat)
    requires i < |u|
  {
    || (i < |t| && u[i] == t[i])
    || u[i].kind.Undf?
    || exists k :: 0 <= k < |syms| && MadeBy(u[i], syms, c, k)
  }

  lemma {:induction false} AllAccounted(t: seq<Sym>, syms: seq<Nlist>, c: Rel)
    requires GoodTable(t)
    ensures var u := AbsorbAll(t, syms, c).0; forall i :: 0 <= i < |u| ==> Accounted(t, u, syms, c, i)
  {
    if syms != [] {
      var n := |syms| - 1;
      var rest, s, u, v := syms[..n], syms[n], AbsorbAll(t, syms[..n], c).0, AbsorbAll(t, syms, c).0;
      AllAccounted(t, rest, c);
      AbsorbAllGrows(t, rest, c);
      forall i | 0 <= i < |v| ensures Accounted(t, v, syms, c, i) {
        if i < |u| && v[i] == u[i] {
          assert Accounted(t, u, rest, c, i);
          if exists k :: 0 <= k < |rest| && MadeBy(u[i], rest, c, k) {
            var k :| 0 <= k < |rest| && MadeBy(u[i], rest, c, k);
            assert MadeBy(v[i], syms, c, k);
          }
        } else {
          assert v[i].kind.Undf? || MadeBy(v[i], syms, c, n);
        }
      }
    }
  }

  /** A module that defines nothing leaves the old entries alone, but for the sizes of undefined ones. */
  predicate OnlyRaised(a: Sym, b: Sym) {
    a == b || (a.kind.Undf? && b.kind.Undf? && a.name == b.name && a.value <= b.value)
  }

  predicate RaisedAt(t: seq<Sym>, u: seq<Sym>, i: nat)
    requires i < |t| <= |u|
  {
    OnlyRaised(t[i], u[i])
  }

  lemma {:induction false} NothingDefined(t: seq<Sym>, syms: seq<Nlist>, c: Rel)
    requires GoodTable(t) && AbsorbAll(t, syms, c).1 == 0
    ensures var u := AbsorbAll(t, syms, c).0; |t| <= |u| && forall i :: 0 <= i < |t| ==> RaisedAt(t, u, i)
  {
    if syms != [] {
      var n := |syms| - 1;
      var rest, s, u, v := syms[..n], syms[n], AbsorbAll(t, syms[..n], c).0, AbsorbAll(t, syms, c).0;
      NothingDefined(t, rest, c);
      forall i | 0 <= i < |t| ensures RaisedAt(t, v, i) {
        assert RaisedAt(t, u, i);
      }
    }
  }

  lemma LoadKept(st: State, o: Object, lib: bool)
    requires Good(st) && Load(st, o, lib).1.Kept?
    ensures Good(Load(st, o, lib).0) && !Stale(Load(st, o, lib).0)
    ensures Clean(st) ==> Clean(Load(st, o, lib).0)
  {
    var st' := Load(st, o, lib).0;
    var c, v, n := PassRel(st, o), st.visited + [o], |st.visited|;
    assert v[..n] == st.visited;
    AbsorbAllGrows(st.table, o.syms, c);
    AbsorbAllSettles(st.table, o.syms, c);
    forall m | 0 <= m < |v| ensures ModuleIn(st', m) {
      if m < n {
        assert ModuleIn(st, m);
        AllSettledStays(st.table, st'.table, v[m].syms);
      }
    }
    if Clean(st) {
      KeptClean(st, o, lib);
    }
  }

  lemma KeptClean(st: State, o: Object, lib: bool)
    requires Good(st) && Clean(st) && Load(st, o, lib).1.Kept?
    ensures Clean(Load(st, o, lib).0)
  {
    var st' := Load(st, o, lib).0;
    var c, v, n := PassRel(st, o), st.visited + [o], |st.visited|;
    assert v[..n] == st.visited;
    AbsorbAllGrows(st.table, o.syms, c);
    AllAccounted(st.table, o.syms, c);
    forall i | 0 <= i < |st'.table| ensures HasOrigin(st'.table[i], v) {
      var e := st'.table[i];
      assert Accounted(st.table, st'.table, o.syms, c, i);
      if i < |st.table| && e == st.table[i] {
        OriginKept(e, st.visited, o);
      } else if !e.kind.Undf? {
        var k :| 0 <= k < |o.syms| && MadeBy(e, o.syms, c, k);
        assert ComesFrom(e, v, n, k);
      }
    }
  }

  /** The table cut at some place not in front of the old symbols. */
  lemma BackedOut(t: seq<Sym>, syms: seq<Nlist>, c: Rel, n: nat)
    requires GoodTable(t) && AbsorbAll(t, syms, c).1 == 0 && |t| <= n <= |AbsorbAll(t, syms, c).0|
    ensures var u := AbsorbAll(t, syms, c).0;
      && GoodTable(u[..n]) && Grows(t, u[..n])
      && forall i :: 0 <= i < |t| ==> RaisedAt(t, u[..n], i)
  {
    var u := AbsorbAll(t, syms, c).0;
    NothingDefined(t, syms, c);
    AbsorbAllGrows(t, syms, c);
    forall i | 0 <= i < |t| ensures StepsTo(t, u[..n], i) && RaisedAt(t, u[..n], i) {
      assert StepsTo(t, u, i) && RaisedAt(t, u, i);
    }
  }

  lemma NothingAdded(v: seq<Object>, o: Object)
    requires o.syms == [] && o.text == o.data == 0
    ensures TextSum(v + [o]) == TextSum(v) && DataSum(v + [o]) == DataSum(v) && BssSum(v + [o]) == BssSum(v)
  {
    assert (v + [o])[..|v|] == v;
    assert Long(0) == 0;
  }

  /** A plain file without symbols, text or data is still visited by the second pass. */
  lemma VisitEmpty(st: State, o: Object)
    requires Good(st) && !OddSizes(o) && o.syms == [] && o.text == o.data == 0
    ensures Good(st.(visited := st.visited + [o])) && (Clean(st) ==> Clean(st.(visited := st.visited + [o])))
  {
    var st' := st.(visited := st.visited + [o]);
    var v := st'.visited;
    NothingAdded(st.visited, o);
    forall m | 0 <= m < |v| ensures ModuleIn(st', m) {
      assert if m < |st.visited| then v[m] == st.visited[m] && ModuleIn(st, m) else v[m] == o;
    }
    if Clean(st) {
      forall i | 0 <= i < |st.table| ensures HasOrigin(st.table[i], v) {
        OriginKept(st.table[i], st.visited, o);
      }
    }
  }

  lemma LoadBackedOut(st: State, o: Object)
    requires Good(st) && o.syms != [] && Load(st, o, true).1.Dropped?
    ensures Good(Load(st, o, true).0) && Grows(st.table, Load(st, o, true).0.table)
    ensures !Stale(st) && Clean(st) ==> Clean(Load(st, o, true).0)
  {
    var t, st' := st.table, Load(st, o, true).0;
    AbsorbAllGrows(t, o.syms, PassRel(st, o));
    BackedOut(t, o.syms, PassRel(st, o), st.next);
    forall m | 0 <= m < |st.visited| ensures ModuleIn(st', m) {
      assert ModuleIn(st, m);
      AllSettledStays(t, st'.table, st.visited[m].syms);
    }
    if !Stale(st) && Clean(st) {
      forall i | 0 <= i < |t| ensures HasOrigin(st'.table[i], st.visited) {
        assert RaisedAt(t, st'.table, i);
        assert HasOrigin(t[i], st.visited);
      }
    }
  }

  /**
   After every load: the sizes are the sums over the modules kept, every external
   symbol of a kept module is in the table, defined or overruled by a common of that
   name, and nextsym is stale in an empty table only.
   */
  lemma LoadStaysGood(st: State, o: Object, lib: bool)
    requires Good(st)
    ensures Good(Load(st, o, lib).0) && Grows(st.table, Load(st, o, lib).0.table)
  {
    var (st', r) := Load(st, o, lib);
    if r.Kept? {
      LoadKept(st, o, lib);
      AbsorbAllGrows(st.table, o.syms, PassRel(st, o));
    } else if r.Dropped? {
      if o.syms != [] {
        LoadBackedOut(st, o);
      } else if !lib {
        VisitEmpty(st, o);
      }
    }
  }

  /** What a member adds to the modules visited. */
  lemma VisitedNext(st: State, o: Object)
    ensures var (st', r) := Load(st, o, true); st'.visited == st.visited + if r.Kept? then [o] else []
  {
  }

  // ---- What a stale nextsym does -----------------------------------------

  /** While the table is empty no visited module has an external symbol. */
  lemma NoExternal(st: State, m: nat, k: nat)
    requires Good(st) && st.table == [] && m < |st.visited| && k < |st.visited[m].syms|
    ensures !st.visited[m].syms[k].ext
  {
    assert ModuleIn(st, m);
    assert SettledAt(st.table, st.visited[m].syms, k);
  }

  lemma NothingToComeFrom(st: State, e: Sym)
    requires Good(st) && st.table == [] && HasOrigin(e, st.visited)
    ensures e.kind.Undf?
  {
    if !e.kind.Undf? {
      var m, k :| 0 <= m < |st.visited| && 0 <= k < |st.visited[m].syms| && ComesFrom(e, st.visited, m, k);
      NoExternal(st, m, k);
    }
  }

  /** load1 has no complaint about the module itself. */
  predicate Loads(o: Object) {
    !OddSizes(o) && (o.syms == [] ==> o.text == o.data == 0)
  }

  /** load1 fails on a stale nextsym; the table is empty then, so the module's names are all it will hold. */
  ghost predicate StaleBotch(st: State, o: Object, lib: bool) {
    Stale(st) && o.syms != [] &&
    if lib && !SomeResolves([], o.syms, |o.syms|) then st.next > |ExtNames(o.syms)|
    else SymxBotch(st.next, 0, |ExtNames(o.syms)|)
  }

  /** What comes of a load: all of it can be seen from the table and the module. */
  lemma OutcomeIs(st: State, o: Object, lib: bool)
    requires Good(st)
    ensures var r := Load(st, o, lib).1;
      && (r.Fatal? <==> !Loads(o) || StaleBotch(st, o, lib))
      && (r.Kept? <==> !r.Fatal? && o.syms != [] && (lib ==> SomeResolves(st.table, o.syms, |o.syms|)))
  {
    var c := PassRel(st, o);
    DefinesIff(st.table, o.syms, c);
    AbsorbAllGrows(st.table, o.syms, c);
    if Stale(st) {
      FilledBy(o.syms, c);
    }
  }

  /**
   Every defined entry still is one visited module's symbol, moved by the sizes
   before it, unless a dropped member met a stale nextsym and defines one of as many
   names as nextsym counts.
   */
  lemma LoadStaysCleanIff(st: State, o: Object, lib: bool)
    requires Good(st) && Clean(st)
    ensures var (st', r) := Load(st, o, lib);
      Clean(st') <==> !(r.Dropped? && o.syms != [] && Stale(st) && DefinesEarly(o.syms, st.next))
  {
    var (st', r) := Load(st, o, lib);
    if r.Kept? {
      LoadKept(st, o, lib);
    } else if r.Dropped? && o.syms != [] {
      LoadBackedOut(st, o);
      if Stale(st) {
        DroppedCleanIff(st, o);
      }
    } else if r.Dropped? && !lib {
      VisitEmpty(st, o);
    }
  }

  lemma DroppedCleanIff(st: State, o: Object)
    requires Good(st) && Stale(st) && Load(st, o, true).1.Dropped? && o.syms != []
    ensures Clean(Load(st, o, true).0) <==> !DefinesEarly(o.syms, st.next)
  {
    var st' := Load(st, o, true).0;
    DefinesEarlyIff(o.syms, PassRel(st, o), st.next);
    if Clean(st') {
      forall i | 0 <= i < |st'.table| ensures st'.table[i].kind.Undf? {
        assert HasOrigin(st'.table[i], st.visited);
        NothingToComeFrom(st, st'.table[i]);
      }
    }
  }

  /** The table is empty after a module's symbols only if the module has no external ones. */
  lemma {:induction false} EmptyAfterIff(t: seq<Sym>, syms: seq<Nlist>, c: Rel)
    requires GoodTable(t)
    ensures AbsorbAll(t, syms, c).0 == [] <==> t == [] && ExtNames(syms) == {}
  {
    AbsorbAllGrows(t, syms, c);
    if syms != [] {
      var n := |syms| - 1;
      EmptyAfterIff(t, syms[..n], c);
      assert ExtNames(syms) == ExtNames(syms[..n]) + if syms[n].ext then {syms[n].name} else {};
    }
  }

  /**
   nextsym goes stale exactly when a member with external symbols is dropped before
   any symbol is in the table.
   */
  lemma GoesStaleIff(st: State, o: Object, lib: bool)
    requires Good(st) && !Stale(st)
    ensures Stale(Load(st, o, lib).0) <==> st.table == [] && Load(st, o, lib).1.Dropped? && ExtNames(o.syms) != {}
  {
    var u := AbsorbAll(st.table, o.syms, PassRel(st, o)).0;
    AbsorbAllGrows(st.table, o.syms, PassRel(st, o));
    EmptyAfterIff(st.table, o.syms, PassRel(st, o));
  }

  /** A stale nextsym stops the link, or ends when some module enters enough symbols. */
  lemma StaleEnds(st: State, o: Object, lib: bool)
    requires Good(st) && Stale(st) && o.syms != [] && !Load(st, o, lib).1.Fatal?
    ensures var (st', r) := Load(st, o, lib); !Stale(st') && st'.table != [] && (r.Dropped? ==> |st'.table| == st.next)
  {
    var u := AbsorbAll(st.table, o.syms, PassRel(st, o)).0;
  }

  // ---- Whole runs --------------------------------------------------------

  /** A plain file or a library member put to load1. */
  datatype Item = Item(o: Object, lib: bool)

  function Run(steps: seq<Item>): State {
    if steps == [] then START
    else
      var n := |steps| - 1;
      Load(Run(steps[..n]), steps[n].o, steps[n].lib).0
  }

  /** What load1 made of step j. */
  function OutcomeOf(steps: seq<Item>, j: nat): Outcome
    requires j < |steps|
  {
    Load(Run(steps[..j]), steps[j].o, steps[j].lib).1
  }

  /** No step stops the link, and nextsym never goes stale. */
  ghost predicate Smooth(steps: seq<Item>) {
    && (forall j :: 0 <= j < |steps| ==> !OutcomeOf(steps, j).Fatal?)
    && (forall n :: 0 <= n <= |steps| ==> !Stale(Run(steps[..n])))
  }

  lemma SmoothPrefix(steps: seq<Item>, n: nat)
    requires Smooth(steps) && n <= |steps|
    ensures Smooth(steps[..n]) && !Stale(Run(steps[..n]))
  {
    forall j | 0 <= j < n ensures !OutcomeOf(steps[..n], j).Fatal? {
      assert steps[..n][..j] == steps[..j] && !OutcomeOf(steps, j).Fatal?;
    }
    forall k | 0 <= k <= n ensures !Stale(Run(steps[..n][..k])) {
      assert steps[..n][..k] == steps[..k];
    }
  }

  lemma {:induction false} RunGood(steps: seq<Item>)
    ensures Good(Run(steps))
  {
    StartsGood();
    if steps != [] {
      var n := |steps| - 1;
      RunGood(steps[..n]);
      LoadStaysGood(Run(steps[..n]), steps[n].o, steps[n].lib);
    }
  }

  /** On a smooth run every definition in the table is a visited module's. */
  lemma {:induction false} SmoothClean(steps: seq<Item>)
    requires Smooth(steps)
    ensures Clean(Run(steps)) && !Stale(Run(steps))
  {
    StartsGood();
    if steps != [] {
      var n := |steps| - 1;
      SmoothPrefix(steps, n);
      SmoothClean(steps[..n]);
      RunGood(steps[..n]);
      LoadStaysCleanIff(Run(steps[..n]), steps[n].o, steps[n].lib);
      assert steps[..|steps|] == steps;
    }
  }

  lemma RunMore(steps: seq<Item>, s: Item)
    ensures var more := steps + [s]; var r := Load(Run(steps), s.o, s.lib);
      && more[..|steps|] == steps && Run(more) == r.0 && OutcomeOf(more, |steps|) == r.1
      && forall n :: 0 <= n <= |steps| ==> more[..n] == steps[..n]
  {
    assert (steps + [s])[..|steps|] == steps;
  }

  /**
   A run stays smooth as long as nothing stops it and no member with external symbols
   is dropped before the first symbol.
   */
  lemma StaysSmooth(steps: seq<Item>, s: Item)
    requires Smooth(steps) && !Load(Run(steps), s.o, s.lib).1.Fatal?
    requires Run(steps).table != [] || !Load(Run(steps), s.o, s.lib).1.Dropped? || ExtNames(s.o.syms) == {}
    ensures Smooth(steps + [s])
  {
    var more := steps + [s];
    RunMore(steps, s);
    RunGood(steps);
    SmoothPrefix(steps, |steps|);
    GoesStaleIff(Run(steps), s.o, s.lib);
    forall j | 0 <= j < |more| ensures !OutcomeOf(more, j).Fatal? {
      if j < |steps| {
        assert !OutcomeOf(steps, j).Fatal?;
      }
    }
    assert !Stale(Run(more));
    forall n | 0 <= n <= |more| ensures !Stale(Run(more[..n])) {
      if n <= |steps| {
        var front := steps[..n];
        assert !Stale(Run(front)) && more[..n] == front;
      } else {
        assert more[..n] == more;
      }
    }
  }
}
