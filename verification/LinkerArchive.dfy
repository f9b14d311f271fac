/**
 Archives on the first pass of ld68: which members get loaded, and what backing
 out the others leaves behind.
 */
module LinkerArchive {
  import opened Arithmetic
  import opened LinkerModel
  import opened LinkerNeeds
  import opened LinkerPassOne

  /** An entry of an archive's table of contents. */
  datatype Ran = Ran(name: string, off: int)

  /** A recorded member: where it is in the archive, and at which step of the run it was loaded. */
  datatype Pick = Pick(off: int, at: nat)

  type Archive = map<int, Object>

  // ---- Closure -----------------------------------------------------------

  /** The name is not an undefined symbol without a size. */
  predicate Done(t: seq<Sym>, name: string) {
    var i := Find(t, name);
    i >= 0 && t[i].kind.Undf? ==> t[i].value != 0
  }

  ghost predicate Truthful(r: Ran, members: Archive) {
    r.off in members && DefinedIn(members[r.off].syms, r.name)
  }

  lemma SettledDone(t: seq<Sym>, syms: seq<Nlist>, name: string)
    requires AllSettled(t, syms) && DefinedIn(syms, name)
    ensures Done(t, name)
  {
    var k :| 0 <= k < |syms| && Defines(syms, name, k);
    assert SettledAt(t, syms, k);
  }

  /** Backing a member out to some place leaves none of its names undefined without a size. */
  lemma BackedOutDone(t: seq<Sym>, syms: seq<Nlist>, c: Rel, name: string, n: nat)
    requires GoodTable(t) && AbsorbAll(t, syms, c).1 == 0 && DefinedIn(syms, name)
    requires |t| <= n <= |AbsorbAll(t, syms, c).0|
    ensures Done(AbsorbAll(t, syms, c).0[..n], name)
  {
    var u := AbsorbAll(t, syms, c).0;
    AbsorbAllSettles(t, syms, c);
    SettledDone(u, syms, name);
    AbsorbAllGrows(t, syms, c);
    var i := Find(u[..n], name);
    if i >= 0 {
      FindIs(u, i);
    }
  }

  lemma DoneStays(t: seq<Sym>, u: seq<Sym>, name: string)
    requires GoodTable(t) && GoodTable(u) && Grows(t, u) && |t| == |u| && Done(t, name)
    ensures Done(u, name)
  {
    var i := Find(u, name);
    if i >= 0 {
      assert StepsTo(t, u, i) && GoodSym(t[i]);
      FindIs(t, i);
    }
  }

  /** After the member at an offset has been looked at, every name listed for it is done. */
  lemma LookedAt(st: State, r: Ran, members: Archive)
    requires Good(st) && Truthful(r, members) && !Load(st, members[r.off], true).1.Fatal?
    ensures Done(Load(st, members[r.off], true).0.table, r.name)
  {
    var o := members[r.off];
    var c := PassRel(st, o);
    assert o.syms != [];
    if AbsorbAll(st.table, o.syms, c).1 == 0 {
      AbsorbAllGrows(st.table, o.syms, c);
      BackedOutDone(st.table, o.syms, c, r.name, st.next);
    } else {
      AbsorbAllSettles(st.table, o.syms, c);
      SettledDone(AbsorbAll(st.table, o.syms, c).0, o.syms, r.name);
    }
  }

  // ---- What a search does ------------------------------------------------

  /** A run so far, the members of the archive being searched that it recorded, and whether ld stopped. */
  datatype Trip = Trip(steps: seq<Item>, log: seq<Pick>, stopped: bool)

  function TableOf(t: Trip): seq<Sym> {
    Run(t.steps).table
  }

  ghost predicate InToc(toc: seq<Ran>, members: Archive) {
    forall r :: r in toc ==> r.off in members
  }

  /** step: load1 on the member at an offset, recorded when it is kept. */
  function LookAt(t: Trip, off: int, members: Archive): Trip
    requires off in members
  {
    match Load(Run(t.steps), members[off], true).1
    case Fatal => t.(stopped := true)
    case Dropped => t.(steps := t.steps + [Item(members[off], true)])
    case Kept => t.(steps := t.steps + [Item(members[off], true)], log := t.log + [Pick(off, |t.steps|)])
  }

  /** The first entry from k on that is for another member than entry i. */
  function Beyond(toc: seq<Ran>, i: nat, k: nat): (n: nat)
    requires i < k <= |toc|
    ensures k <= n <= |toc| && forall j :: k <= j < n ==> toc[j].off == toc[i].off
    decreases |toc| - k
  {
    if k < |toc| && toc[k].off == toc[i].off then Beyond(toc, i, k + 1) else k
  }

  /** ldrand's loop from entry i on. */
  ghost function Pass(t: Trip, toc: seq<Ran>, i: nat, members: Archive): Trip
    requires i <= |toc| && InToc(toc, members)
    decreases |toc| - i
  {
    if t.stopped || i == |toc| then t
    else if Undefined(TableOf(t), toc[i].name) then
      Pass(LookAt(t, toc[i].off, members), toc, Beyond(toc, i, i + 1), members)
    else Pass(t, toc, i + 1, members)
  }

  /** ldrand: symx fails at once on a stale nextsym. */
  ghost function OnePass(t: Trip, toc: seq<Ran>, members: Archive): Trip
    requires InToc(toc, members)
  {
    if Stale(Run(t.steps)) then t.(stopped := true) else Pass(t, toc, 0, members)
  }

  /** Passes until one nets no symbol. */
  ghost function Search(t: Trip, toc: seq<Ran>, members: Archive): Trip
    requires InToc(toc, members) && !t.stopped
    decreases Unnamed(t, members)
  {
    OnePassGoes(t, toc, members);
    var p := OnePass(t, toc, members);
    if p.stopped || |TableOf(p)| == |TableOf(t)| then p else Search(p, toc, members)
  }

  /** An archive without a usable table of contents, member by member from number i on. */
  ghost function Scan(t: Trip, offs: seq<int>, i: nat, members: Archive): Trip
    requires i <= |offs| && forall k :: 0 <= k < |offs| ==> offs[k] in members
    decreases |offs| - i
  {
    if t.stopped || i == |offs| then t else Scan(LookAt(t, offs[i], members), offs, i + 1, members)
  }

  // ---- From one look to the whole search ---------------------------------

  ghost predicate Goes(t: Trip, u: Trip, members: Archive) {
    && t.steps <= u.steps && t.log <= u.log
    && Grows(TableOf(t), TableOf(u))
    && Names(TableOf(u)) <= Names(TableOf(t)) + MemberNames(members)
    && (Smooth(t.steps) && TableOf(t) != [] ==> Smooth(u.steps))
  }

  lemma GoesSelf(t: Trip, members: Archive)
    ensures Goes(t, t, members)
  {
  }

  lemma GoesTrans(t: Trip, u: Trip, v: Trip, members: Archive)
    requires Goes(t, u, members) && Goes(u, v, members)
    ensures Goes(t, v, members)
  {
    GrowsTrans(TableOf(t), TableOf(u), TableOf(v));
  }

  lemma LookGoes(t: Trip, off: int, members: Archive)
    requires off in members
    ensures Goes(t, LookAt(t, off, members), members)
    ensures !Stale(Run(t.steps)) && TableOf(t) != [] ==> !Stale(Run(LookAt(t, off, members).steps))
  {
    var s := Item(members[off], true);
    RunGood(t.steps);
    if Load(Run(t.steps), s.o, true).1.Fatal? {
      GoesSelf(t, members);
    } else {
      RunMore(t.steps, s);
      LoadStaysGood(Run(t.steps), s.o, true);
      LoadNames(Run(t.steps), off, members);
      if !Stale(Run(t.steps)) {
        GoesStaleIff(Run(t.steps), s.o, true);
      }
      if Smooth(t.steps) && TableOf(t) != [] {
        StaysSmooth(t.steps, s);
      }
    }
  }

  lemma {:induction false} PassGoes(t: Trip, toc: seq<Ran>, i: nat, members: Archive)
    requires i <= |toc| && InToc(toc, members) && !Stale(Run(t.steps))
    ensures var p := Pass(t, toc, i, members); Goes(t, p, members) && !Stale(Run(p.steps))
    decreases |toc| - i
  {
    GoesSelf(t, members);
    if !t.stopped && i < |toc| {
      if Undefined(TableOf(t), toc[i].name) {
        var u := LookAt(t, toc[i].off, members);
        LookGoes(t, toc[i].off, members);
        PassGoes(u, toc, Beyond(toc, i, i + 1), members);
        GoesTrans(t, u, Pass(t, toc, i, members), members);
      } else {
        PassGoes(t, toc, i + 1, members);
      }
    }
  }

  /** How many names of the archive are not in the table. */
  ghost function Unnamed(t: Trip, members: Archive): nat {
    |MemberNames(members) - Names(TableOf(t))|
  }

  lemma OnePassGoes(t: Trip, toc: seq<Ran>, members: Archive)
    requires InToc(toc, members)
    ensures var p := OnePass(t, toc, members);
      && Goes(t, p, members)
      && (|TableOf(p)| != |TableOf(t)| ==> Unnamed(p, members) < Unnamed(t, members))
      && (!p.stopped ==> !Stale(Run(p.steps)))
  {
    var p := OnePass(t, toc, members);
    GoesSelf(t, members);
    if !Stale(Run(t.steps)) {
      PassGoes(t, toc, 0, members);
      if |TableOf(p)| != |TableOf(t)| {
        RunGood(p.steps);
        FewerLeft(TableOf(t), TableOf(p), MemberNames(members));
      }
    }
  }

  /** A table that got longer has taken up some of the names. */
  lemma FewerLeft(t: seq<Sym>, u: seq<Sym>, all: set<string>)
    requires Grows(t, u) && |t| < |u| && DistinctNames(u) && Names(u) <= Names(t) + all
    ensures |all - Names(u)| < |all - Names(t)|
  {
    var name := u[|t|].name;
    forall i | 0 <= i < |t| ensures t[i].name != name { assert StepsTo(t, u, i); }
    forall n | n in Names(t) ensures n in Names(u) {
      var i :| 0 <= i < |t| && t[i].name == n;
      assert StepsTo(t, u, i);
    }
    assert name in Names(u) && name !in Names(t);
    Smaller(all - Names(u), all - Names(t), name);
  }

  lemma Smaller<T>(a: set<T>, b: set<T>, x: T)
    requires a <= b && x in b && x !in a
    ensures |a| < |b|
  {
    assert b == a + (b - a) && x in b - a;
  }

  lemma {:induction false} SearchGoes(t: Trip, toc: seq<Ran>, members: Archive)
    requires InToc(toc, members) && !t.stopped
    ensures var p := Search(t, toc, members); Goes(t, p, members) && (!p.stopped ==> !Stale(Run(p.steps)))
    decreases Unnamed(t, members)
  {
    OnePassGoes(t, toc, members);
    var p := OnePass(t, toc, members);
    if !p.stopped && |TableOf(p)| != |TableOf(t)| {
      SearchGoes(p, toc, members);
      GoesTrans(t, p, Search(p, toc, members), members);
    }
  }

  lemma {:induction false} ScanGoes(t: Trip, offs: seq<int>, i: nat, members: Archive)
    requires i <= |offs| && forall k :: 0 <= k < |offs| ==> offs[k] in members
    ensures Goes(t, Scan(t, offs, i, members), members)
    decreases |offs| - i
  {
    GoesSelf(t, members);
    if !t.stopped && i < |offs| {
      LookGoes(t, offs[i], members);
      ScanGoes(LookAt(t, offs[i], members), offs, i + 1, members);
      GoesTrans(t, LookAt(t, offs[i], members), Scan(t, offs, i, members), members);
    }
  }

  // ---- Nothing listed is left undefined ----------------------------------

  /** What an entry of the table of contents promises of the table. */
  ghost predicate EntryDone(r: Ran, t: seq<Sym>, members: Archive) {
    Truthful(r, members) ==> Done(t, r.name)
  }

  /** A pass that nets no symbol has seen to every entry. */
  lemma {:induction false} PassDone(t: Trip, toc: seq<Ran>, i: nat, members: Archive, j: nat)
    requires i <= j < |toc| && InToc(toc, members) && !Stale(Run(t.steps))
    requires var p := Pass(t, toc, i, members); !p.stopped && |TableOf(p)| == |TableOf(t)|
    ensures EntryDone(toc[j], TableOf(Pass(t, toc, i, members)), members)
    decreases |toc| - i
  {
    var p := Pass(t, toc, i, members);
    PassGoes(t, toc, i, members);
    if Undefined(TableOf(t), toc[i].name) {
      var u, n := LookAt(t, toc[i].off, members), Beyond(toc, i, i + 1);
      LookGoes(t, toc[i].off, members);
      PassGoes(u, toc, n, members);
      if j < n {
        LookDone(t, p, toc[j], members);
      } else {
        PassDone(u, toc, n, members, j);
      }
    } else if j == i {
      StillDone(t, p, toc[i], members);
    } else {
      PassDone(t, toc, i + 1, members, j);
    }
  }

  lemma LookDone(t: Trip, p: Trip, r: Ran, members: Archive)
    requires r.off in members && !LookAt(t, r.off, members).stopped
    requires Goes(LookAt(t, r.off, members), p, members) && |TableOf(p)| == |TableOf(LookAt(t, r.off, members))|
    ensures EntryDone(r, TableOf(p), members)
  {
    if Truthful(r, members) {
      RunGood(t.steps);
      RunMore(t.steps, Item(members[r.off], true));
      LookedAt(Run(t.steps), r, members);
      StillDone(LookAt(t, r.off, members), p, r, members);
    }
  }

  lemma StillDone(t: Trip, p: Trip, r: Ran, members: Archive)
    requires Goes(t, p, members) && |TableOf(p)| == |TableOf(t)| && Done(TableOf(t), r.name)
    ensures EntryDone(r, TableOf(p), members)
  {
    RunGood(t.steps);
    RunGood(p.steps);
    DoneStays(TableOf(t), TableOf(p), r.name);
  }

  /** After the search no name that the table of contents truly lists is undefined without a size. */
  lemma {:induction false} SearchCloses(t: Trip, toc: seq<Ran>, members: Archive)
    requires InToc(toc, members) && !t.stopped && !Search(t, toc, members).stopped
    ensures forall j :: 0 <= j < |toc| ==> EntryDone(toc[j], TableOf(Search(t, toc, members)), members)
    decreases Unnamed(t, members)
  {
    OnePassGoes(t, toc, members);
    var p := OnePass(t, toc, members);
    if |TableOf(p)| == |TableOf(t)| {
      forall j | 0 <= j < |toc| ensures EntryDone(toc[j], TableOf(p), members) {
        PassDone(t, toc, 0, members, j);
      }
    } else {
      SearchCloses(p, toc, members);
    }
  }

  // ---- When a search stops -----------------------------------------------

  /** The entry's name is still undefined, and load1 would refuse its member. */
  ghost predicate Refused(r: Ran, t: seq<Sym>, members: Archive)
    requires r.off in members
  {
    Undefined(t, r.name) && !Loads(members[r.off])
  }

  ghost predicate SomeRefused(toc: seq<Ran>, t: seq<Sym>, members: Archive)
    requires InToc(toc, members)
  {
    exists j :: 0 <= j < |toc| && toc[j].off in members && Refused(toc[j], t, members)
  }

  lemma LookStopsIff(t: Trip, off: int, members: Archive)
    requires off in members && !t.stopped && !Stale(Run(t.steps))
    ensures LookAt(t, off, members).stopped <==> !Loads(members[off])
  {
    RunGood(t.steps);
    OutcomeIs(Run(t.steps), members[off], true);
  }

  lemma {:induction false} PassStops(t: Trip, toc: seq<Ran>, i: nat, members: Archive)
    requires i <= |toc| && InToc(toc, members) && !Stale(Run(t.steps)) && !t.stopped
    requires Pass(t, toc, i, members).stopped
    ensures SomeRefused(toc, TableOf(Pass(t, toc, i, members)), members)
    decreases |toc| - i
  {
    if Undefined(TableOf(t), toc[i].name) {
      var u := LookAt(t, toc[i].off, members);
      LookStopsIff(t, toc[i].off, members);
      LookGoes(t, toc[i].off, members);
      if u.stopped {
        assert Refused(toc[i], TableOf(t), members);
      } else {
        PassStops(u, toc, Beyond(toc, i, i + 1), members);
      }
    } else {
      PassStops(t, toc, i + 1, members);
    }
  }

  /** A pass that nets no symbol has been refused nothing that is still undefined. */
  lemma {:induction false} PassUnrefused(t: Trip, toc: seq<Ran>, i: nat, members: Archive, j: nat)
    requires i <= j < |toc| && InToc(toc, members) && !Stale(Run(t.steps))
    requires var p := Pass(t, toc, i, members); !p.stopped && |TableOf(p)| == |TableOf(t)|
    ensures !Refused(toc[j], TableOf(Pass(t, toc, i, members)), members)
    decreases |toc| - i
  {
    var p := Pass(t, toc, i, members);
    PassGoes(t, toc, i, members);
    if Undefined(TableOf(t), toc[i].name) {
      var u, n := LookAt(t, toc[i].off, members), Beyond(toc, i, i + 1);
      LookGoes(t, toc[i].off, members);
      PassGoes(u, toc, n, members);
      if j < n {
        LookStopsIff(t, toc[j].off, members);
      } else {
        PassUnrefused(u, toc, n, members, j);
      }
    } else if j == i {
      StillDefined(t, p, toc[i].name, members);
    } else {
      PassUnrefused(t, toc, i + 1, members, j);
    }
  }

  lemma StillDefined(t: Trip, p: Trip, name: string, members: Archive)
    requires Goes(t, p, members) && |TableOf(p)| == |TableOf(t)| && !Undefined(TableOf(t), name)
    ensures !Undefined(TableOf(p), name)
  {
    RunGood(t.steps);
    RunGood(p.steps);
    NotUndefinedStays(TableOf(t), TableOf(p), name);
  }

  lemma NotUndefinedStays(t: seq<Sym>, u: seq<Sym>, name: string)
    requires GoodTable(t) && GoodTable(u) && Grows(t, u) && |t| == |u| && !Undefined(t, name)
    ensures !Undefined(u, name)
  {
    var i := Find(u, name);
    if i >= 0 {
      assert StepsTo(t, u, i);
      FindIs(t, i);
    }
  }

  /**
   A search stops ld exactly when nextsym was stale before it, or when in the end a
   name is undefined that is listed for a member load1 refuses.
   */
  lemma {:induction false} SearchStopsIff(t: Trip, toc: seq<Ran>, members: Archive)
    requires InToc(toc, members) && !t.stopped
    ensures var p := Search(t, toc, members); p.stopped <==>
      Stale(Run(t.steps)) || SomeRefused(toc, TableOf(p), members)
    decreases Unnamed(t, members)
  {
    OnePassGoes(t, toc, members);
    var p := OnePass(t, toc, members);
    if p.stopped {
      if !Stale(Run(t.steps)) {
        PassStops(t, toc, 0, members);
      }
    } else if |TableOf(p)| == |TableOf(t)| {
      forall j | 0 <= j < |toc| ensures !Refused(toc[j], TableOf(p), members) {
        PassUnrefused(t, toc, 0, members, j);
      }
    } else {
      SearchStopsIff(p, toc, members);
    }
  }

  /** The members of an archive, one after the other. */
  function Members(offs: seq<int>, members: Archive): (all: seq<Item>)
    requires forall k :: 0 <= k < |offs| ==> offs[k] in members
    ensures |all| == |offs| && forall k :: 0 <= k < |offs| ==> all[k] == Item(members[offs[k]], true)
  {
    seq(|offs|, k requires 0 <= k < |offs| => Item(members[offs[k]], true))
  }

  /** Stepping through an archive goes to the first member that load1 refuses, or to its end. */
  lemma {:induction false} ScanIs(t: Trip, offs: seq<int>, i: nat, members: Archive)
    requires i <= |offs| && (forall k :: 0 <= k < |offs| ==> offs[k] in members) && !t.stopped
    ensures ScanEnds(t.steps, t.steps + Members(offs, members)[i..], Scan(t, offs, i, members))
    decreases |offs| - i
  {
    if i < |offs| {
      var u := LookAt(t, offs[i], members);
      NextMember(t.steps, offs, i, members);
      if !u.stopped {
        ScanIs(u, offs, i + 1, members);
      }
    }
  }

  /** The steps done are those of all up to the first that stops ld, or all of them. */
  ghost predicate ScanEnds(steps: seq<Item>, all: seq<Item>, p: Trip) {
    && steps <= p.steps <= all
    && (forall j :: |steps| <= j < |p.steps| ==> !OutcomeOf(all, j).Fatal?)
    && (p.stopped <==> p.steps != all)
    && (p.stopped ==> OutcomeOf(all, |p.steps|).Fatal?)
  }

  lemma NextMember(steps: seq<Item>, offs: seq<int>, i: nat, members: Archive)
    requires i < |offs| && forall k :: 0 <= k < |offs| ==> offs[k] in members
    ensures var all, s := steps + Members(offs, members)[i..], Item(members[offs[i]], true);
      && all == steps + [s] + Members(offs, members)[i + 1..]
      && OutcomeOf(all, |steps|) == Load(Run(steps), s.o, true).1
  {
    NextOf(steps, Members(offs, members), i);
  }

  // ---- Members recorded --------------------------------------------------

  /** A name was undefined in the table of that step, or made so by the member itself, and the member resolved it. */
  ghost predicate Needed(steps: seq<Item>, j: nat)
    requires j < |steps|
  {
    SomeResolves(Run(steps[..j]).table, steps[j].o.syms, |steps[j].o.syms|)
  }

  /** The member was loaded at its step of the run, was needed there, and all its symbols are settled since. */
  ghost predicate PickOk(p: Pick, steps: seq<Item>, members: Archive) {
    && p.off in members && p.at < |steps| && steps[p.at] == Item(members[p.off], true)
    && OutcomeOf(steps, p.at).Kept? && Needed(steps, p.at) && AllSettled(Run(steps).table, members[p.off].syms)
  }

  ghost predicate LogOk(log: seq<Pick>, steps: seq<Item>, members: Archive) {
    Distinct(log) && forall i :: 0 <= i < |log| ==> PickOk(log[i], steps, members)
  }

  /** No member is recorded twice. */
  ghost predicate Distinct(log: seq<Pick>) {
    forall i, j :: 0 <= i < j < |log| ==> log[i].off != log[j].off
  }

  function Offsets(log: seq<Pick>): (offs: seq<int>)
    ensures |offs| == |log| && forall i :: 0 <= i < |log| ==> offs[i] == log[i].off
  {
    seq(|log|, i requires 0 <= i < |log| => log[i].off)
  }

  /** The members recorded. */
  function Picked(log: seq<Pick>, members: Archive): (picked: seq<Object>)
    requires forall i :: 0 <= i < |log| ==> log[i].off in members
    ensures |picked| == |log| && forall i :: 0 <= i < |log| ==> picked[i] == members[log[i].off]
  {
    seq(|log|, i requires 0 <= i < |log| => members[log[i].off])
  }

  /** The modules visited since v are the members recorded. */
  ghost predicate Recorded(t: Trip, v: seq<Object>, members: Archive) {
    LogOk(t.log, t.steps, members) && InArchive(t.log, members) && Run(t.steps).visited == v + Picked(t.log, members)
  }

  ghost predicate InArchive(log: seq<Pick>, members: Archive) {
    forall i :: 0 <= i < |log| ==> log[i].off in members
  }

  lemma PickStays(p: Pick, steps: seq<Item>, s: Item, members: Archive)
    requires PickOk(p, steps, members)
    ensures PickOk(p, steps + [s], members)
  {
    RunMore(steps, s);
    RunGood(steps);
    RunGood(steps + [s]);
    LoadStaysGood(Run(steps), s.o, s.lib);
    assert (steps + [s])[..p.at] == steps[..p.at];
    AllSettledStays(Run(steps).table, Run(steps + [s]).table, members[p.off].syms);
  }

  lemma LogStays(log: seq<Pick>, steps: seq<Item>, s: Item, members: Archive)
    requires LogOk(log, steps, members)
    ensures LogOk(log, steps + [s], members)
  {
    forall i | 0 <= i < |log| ensures PickOk(log[i], steps + [s], members) {
      PickStays(log[i], steps, s, members);
    }
  }

  /** A member kept now has not been recorded before. */
  lemma KeptNow(t: Trip, off: int, members: Archive)
    requires off in members && LogOk(t.log, t.steps, members)
    requires Load(Run(t.steps), members[off], true).1.Kept?
    ensures LogOk(t.log + [Pick(off, |t.steps|)], t.steps + [Item(members[off], true)], members)
  {
    var s, st := Item(members[off], true), Run(t.steps);
    var c := PassRel(st, s.o);
    RunGood(t.steps);
    RunMore(t.steps, s);
    LogStays(t.log, t.steps, s, members);
    forall i | 0 <= i < |t.log| ensures t.log[i].off != off {
      assert PickOk(t.log[i], t.steps, members);
      if t.log[i].off == off {
        SettledDefinesNothing(st.table, s.o.syms, c);
      }
    }
    AbsorbAllSettles(st.table, s.o.syms, c);
    PickedIff(t.steps + [s], |t.steps|);
    assert PickOk(Pick(off, |t.steps|), t.steps + [s], members);
  }

  lemma PickedMore(log: seq<Pick>, p: Pick, members: Archive)
    requires InArchive(log, members) && p.off in members
    ensures InArchive(log + [p], members)
    ensures Picked(log + [p], members) == Picked(log, members) + [members[p.off]]
  {
  }

  lemma OffsetsMore(log: seq<Pick>, p: Pick)
    ensures Offsets(log + [p]) == Offsets(log) + [p.off]
  {
  }

  lemma LookRecords(t: Trip, off: int, v: seq<Object>, members: Archive)
    requires off in members && Recorded(t, v, members)
    ensures Recorded(LookAt(t, off, members), v, members)
  {
    var s, r := Item(members[off], true), Load(Run(t.steps), members[off], true).1;
    RunMore(t.steps, s);
    VisitedNext(Run(t.steps), s.o);
    if r.Kept? {
      KeptNow(t, off, members);
      PickedMore(t.log, Pick(off, |t.steps|), members);
      Assoc(v, Picked(t.log, members), [s.o]);
    } else if r.Dropped? {
      LogStays(t.log, t.steps, s, members);
    }
  }

  lemma {:induction false} PassRecords(t: Trip, toc: seq<Ran>, i: nat, v: seq<Object>, members: Archive)
    requires i <= |toc| && InToc(toc, members) && Recorded(t, v, members)
    ensures Recorded(Pass(t, toc, i, members), v, members)
    decreases |toc| - i
  {
    if !t.stopped && i < |toc| {
      if Undefined(TableOf(t), toc[i].name) {
        LookRecords(t, toc[i].off, v, members);
        PassRecords(LookAt(t, toc[i].off, members), toc, Beyond(toc, i, i + 1), v, members);
      } else {
        PassRecords(t, toc, i + 1, v, members);
      }
    }
  }

  /** A search records each member it loads, and no other, once. */
  lemma {:induction false} SearchRecords(t: Trip, toc: seq<Ran>, v: seq<Object>, members: Archive)
    requires InToc(toc, members) && !t.stopped && Recorded(t, v, members)
    ensures Recorded(Search(t, toc, members), v, members)
    decreases Unnamed(t, members)
  {
    OnePassGoes(t, toc, members);
    var p := OnePass(t, toc, members);
    PassRecords(t, toc, 0, v, members);
    if !p.stopped && |TableOf(p)| != |TableOf(t)| {
      SearchRecords(p, toc, v, members);
    }
  }

  lemma {:induction false} ScanRecords(t: Trip, offs: seq<int>, i: nat, v: seq<Object>, members: Archive)
    requires i <= |offs| && (forall k :: 0 <= k < |offs| ==> offs[k] in members) && Recorded(t, v, members)
    ensures Recorded(Scan(t, offs, i, members), v, members)
    decreases |offs| - i
  {
    if !t.stopped && i < |offs| {
      LookRecords(t, offs[i], v, members);
      ScanRecords(LookAt(t, offs[i], members), offs, i + 1, v, members);
    }
  }

  /**
   A member is loaded at some step exactly when load1 accepts it there and it resolves
   a name awaited at that step.
   */
  lemma PickedIff(steps: seq<Item>, j: nat)
    requires j < |steps| && steps[j].lib && !OutcomeOf(steps, j).Fatal?
    ensures OutcomeOf(steps, j).Kept? <==> Needed(steps, j)
  {
    RunGood(steps[..j]);
    OutcomeIs(Run(steps[..j]), steps[j].o, true);
  }

  // ---- Termination -------------------------------------------------------

  lemma {:induction false} NoNewNames(t: seq<Sym>, syms: seq<Nlist>, c: Rel)
    ensures Names(AbsorbAll(t, syms, c).0) <= Names(t) + ExtNames(syms)
  {
    if syms != [] {
      var n := |syms| - 1;
      var u, v := AbsorbAll(t, syms[..n], c).0, AbsorbAll(t, syms, c).0;
      NoNewNames(t, syms[..n], c);
      forall name | name in Names(v) ensures name in Names(t) + ExtNames(syms) {
        var i :| 0 <= i < |v| && v[i].name == name;
        if i < |u| && u[i].name == name {
          assert name in Names(u);
        } else {
          assert syms[n].name == name && syms[n].ext;
        }
      }
    }
  }

  ghost function MemberNames(members: Archive): set<string> {
    set off, name | off in members && name in ExtNames(members[off].syms) :: name
  }

  lemma LoadNames(st: State, off: int, members: Archive)
    requires off in members
    ensures Names(Load(st, members[off], true).0.table) <= Names(st.table) + MemberNames(members)
  {
    var o := members[off];
    var u, v := AbsorbAll(st.table, o.syms, PassRel(st, o)).0, Load(st, o, true).0.table;
    NoNewNames(st.table, o.syms, PassRel(st, o));
    forall name | name in Names(v) ensures name in Names(st.table) + MemberNames(members) {
      if v != st.table {
        assert name in Names(u);
      }
      if name in ExtNames(o.syms) {
        assert off in members;
      }
    }
  }

  // ---- The linker's state ------------------------------------------------

  class Linker {
    var table: seq<Sym>
    /** nextsym, as the number of symbols in front of the place it points to. */
    var nextsym: nat
    var tsize: nat
    var dsize: nat
    var bsize: nat
    /** Offsets of recorded members, with -1 after each archive. */
    var liblist: seq<int>
    ghost var visited: seq<Object>
    ghost var log: seq<Pick>
    ghost var steps: seq<Item>

    ghost function St(): State
      reads this
    {
      State(table, visited, tsize, dsize, bsize, nextsym)
    }

    ghost function Here(): Trip
      reads this
    {
      Trip(steps, log, false)
    }

    /** The state is what the steps so far make it. */
    ghost predicate Traced()
      reads this
    {
      Good(St()) && St() == Run(steps)
    }

    constructor ()
      ensures St() == START && Traced() && steps == [] && liblist == [] && log == []
    {
      table, nextsym, tsize, dsize, bsize, liblist, visited, log, steps := [], 0, 0, 0, 0, [], [], [], [];
    }

    /** Examines one plain file or archive member. */
    method Load1(o: Object, lib: bool) returns (r: Outcome)
      modifies this`table, this`nextsym, this`tsize, this`dsize, this`bsize, this`visited
      ensures r == Load(old(St()), o, lib).1
      ensures !r.Fatal? ==> St() == Load(old(St()), o, lib).0
    {
      if o.text % 2 != 0 || o.data % 2 != 0 {
        return Fatal;
      }
      if o.syms == [] {
        if o.text + o.data != 0 {
          return Fatal;
        }
        visited := if lib then visited else visited + [o];
        return Dropped;
      }
      var c := Sum(HeaderRel(o), Rel(tsize, dsize, bsize));
      var savnext, before := nextsym, |table|;
      var ndef := AbsorbSymbols(o.syms, c);
      if !lib || ndef > 0 {
        tsize, dsize, bsize := tsize + o.text, dsize + Long(o.data), bsize + Long(o.bss);
        if SymxBotch(savnext, before, |table|) {
          return Fatal;
        }
        visited := visited + [o];
        return Kept;
      }
      r := SymFree(savnext);
    }

    /** symfree: takes the newest symbols out until nextsym is back where it was, or all of them. */
    method SymFree(saved: nat) returns (r: Outcome)
      modifies this`table, this`nextsym
      ensures r == if saved > |old(table)| then Fatal else Dropped
      ensures r.Dropped? ==> table == old(table)[..saved] && nextsym == if saved == 0 then old(nextsym) else saved
    {
      while |table| > 0 && |table| != saved
        invariant table == old(table)[..|table|] && |table| <= |old(table)|
        invariant nextsym == old(nextsym) && (saved <= |old(table)| ==> saved <= |table|)
        decreases |table|
      {
        table := table[..|table| - 1];
      }
      if |table| == saved {
        nextsym := if saved == 0 then nextsym else saved;
        return Dropped;
      }
      r := Fatal;
    }

    method AbsorbSymbols(syms: seq<Nlist>, c: Rel) returns (ndef: nat)
      modifies this`table, this`nextsym
      ensures (table, ndef) == AbsorbAll(old(table), syms, c)
      ensures nextsym == if |table| > |old(table)| then |table| else old(nextsym)
    {
      var k := 0;
      ndef := 0;
      while k < |syms|
        invariant 0 <= k <= |syms| && |table| >= |old(table)|
        invariant (table, ndef) == AbsorbAll(old(table), syms[..k], c)
        invariant nextsym == if |table| > |old(table)| then |table| else old(nextsym)
      {
        assert syms[..k + 1][..k] == syms[..k];
        if syms[k].ext {
          var d := Enter(Symreloc(syms[k], c));
          ndef := if d then ndef + 1 else ndef;
        }
        k := k + 1;
      }
      assert syms[..k] == syms;
    }

    /** lookup and enter for one external symbol; tells whether it resolved an undefined one. */
    method Enter(s: Sym) returns (d: bool)
      modifies this`table, this`nextsym
      ensures (table, d) == Absorb(old(table), s) && |table| >= |old(table)|
      ensures nextsym == if |table| > |old(table)| then |table| else old(nextsym)
    {
      var i := Find(table, s.name);
      if i < 0 {
        table := table + [s];
        nextsym := |table|;
        return false;
      }
      var sp := table[i];
      assert table[i := sp] == table;
      if !sp.kind.Undf? {
        return false;
      }
      if s.kind.Undf? {
        if s.value > sp.value {
          table := table[i := sp.(value := s.value)];
        }
        return false;
      }
      if sp.value != 0 && s.kind.Text? {
        return false;
      }
      table := table[i := sp.(kind := s.kind, value := s.value)];
      return true;
    }

    /** One more step of the run. */
    ghost method Record(s: Item)
      requires St() == Load(Run(steps), s.o, s.lib).0
      modifies this`steps
      ensures steps == old(steps) + [s] && Traced()
    {
      RunMore(steps, s);
      RunGood(steps + [s]);
      steps := steps + [s];
    }

    /** Looks at one member and records it when it is useful. */
    method Step(off: int, members: Archive, ghost lib: seq<int>) returns (r: Outcome)
      requires off in members && Traced() && liblist == lib + Offsets(log)
      modifies this
      ensures var t := LookAt(old(Here()), off, members); r.Fatal? == t.stopped && steps == t.steps && log == t.log
      ensures !r.Fatal? ==> Traced() && liblist == lib + Offsets(log)
    {
      r := Load1(members[off], true);
      if r.Kept? {
        OffsetsMore(log, Pick(off, |steps|));
        Assoc(lib, Offsets(log), [off]);
        log := log + [Pick(off, |steps|)];
        liblist := liblist + [off];
      }
      if !r.Fatal? {
        Record(Item(members[off], true));
      }
    }

    /**
     One pass over the table of contents: looks at every member listed for a symbol
     now undefined, and tells whether the symbol table grew.
     */
    method Ldrand(toc: seq<Ran>, members: Archive, ghost lib: seq<int>) returns (more: bool, fatal: bool)
      requires Traced() && InToc(toc, members) && liblist == lib + Offsets(log)
      modifies this
      ensures var p := OnePass(old(Here()), toc, members); fatal == p.stopped && steps == p.steps && log == p.log
      ensures !fatal ==> Traced() && liblist == lib + Offsets(log) && !Stale(St())
      ensures !fatal ==> more == (|table| != |old(table)|)
    {
      if nextsym != |table| {
        return false, true;
      }
      var nsymt, i := nextsym, 0;
      ghost var all := Pass(Here(), toc, 0, members);
      while i < |toc|
        invariant 0 <= i <= |toc| && Traced() && liblist == lib + Offsets(log) && !Stale(St())
        invariant Pass(Here(), toc, i, members) == all
      {
        var k := Find(table, toc[i].name);
        if k >= 0 && table[k].kind.Undf? {
          i, fatal := Visit(toc, i, members, lib);
          if fatal {
            return false, true;
          }
        } else {
          i := i + 1;
        }
      }
      return nextsym != nsymt, false;
    }

    /** Steps to the member of entry i and passes over the other entries for it. */
    method Visit(toc: seq<Ran>, i: nat, members: Archive, ghost lib: seq<int>) returns (next: nat, fatal: bool)
      requires i < |toc| && Traced() && InToc(toc, members) && liblist == lib + Offsets(log)
      requires !Stale(St()) && Undefined(table, toc[i].name)
      modifies this
      ensures i < next <= |toc| && next == Beyond(toc, i, i + 1)
      ensures var t := LookAt(old(Here()), toc[i].off, members); fatal == t.stopped && steps == t.steps && log == t.log
      ensures !fatal ==> Traced() && liblist == lib + Offsets(log) && !Stale(St())
    {
      var loc := toc[i].off;
      LookGoes(Here(), loc, members);
      var r := Step(loc, members, lib);
      next, fatal := i + 1, r.Fatal?;
      while next < |toc| && toc[next].off == loc
        invariant i < next <= |toc| && Beyond(toc, i, i + 1) == Beyond(toc, i, next)
      {
        next := next + 1;
      }
    }

    /**
     Searches an archive with a table of contents until a pass nets no symbol. No name
     truly listed is then left undefined without a size, and the members recorded are
     those loaded, each once. It fails exactly when nextsym was stale, or a name is
     left undefined that is listed for a member load1 refuses.
     */
    method SearchArchive(toc: seq<Ran>, members: Archive) returns (fatal: bool)
      requires Traced() && InToc(toc, members)
      modifies this
      ensures var p := Search(Trip(old(steps), [], false), toc, members);
        fatal == p.stopped && steps == p.steps && log == p.log
      ensures fatal <==> old(Stale(St())) || SomeRefused(toc, Run(steps).table, members)
      ensures !fatal ==> Traced() && !Stale(St()) && forall j :: 0 <= j < |toc| ==> EntryDone(toc[j], table, members)
      ensures Recorded(Here(), old(visited), members)
      ensures !fatal ==> liblist == old(liblist) + Offsets(log) + [-1]
    {
      log := [];
      ghost var lib := liblist;
      SearchFacts(Here(), toc, members);
      assert liblist == lib + Offsets(log);
      fatal := SearchOn(toc, members, lib);
      if !fatal {
        liblist := liblist + [-1];
      }
    }

    /** The passes. */
    method SearchOn(toc: seq<Ran>, members: Archive, ghost lib: seq<int>) returns (fatal: bool)
      requires Traced() && InToc(toc, members) && liblist == lib + Offsets(log)
      modifies this
      ensures var p := Search(old(Here()), toc, members); fatal == p.stopped && steps == p.steps && log == p.log
      ensures !fatal ==> Traced() && liblist == lib + Offsets(log)
    {
      ghost var start := Here();
      var more := true;
      fatal := false;
      while more
        invariant Traced() && liblist == lib + Offsets(log)
        invariant if more then Search(Here(), toc, members) == Search(start, toc, members)
                  else Here() == Search(start, toc, members)
        decreases more, Unnamed(Here(), members)
      {
        OnePassGoes(Here(), toc, members);
        more, fatal := Ldrand(toc, members, lib);
        if fatal {
          return;
        }
      }
    }

    /** Steps through the members of an archive without a usable table of contents, in file order. */
    method ScanArchive(offs: seq<int>, members: Archive) returns (fatal: bool)
      requires Traced() && forall k :: 0 <= k < |offs| ==> offs[k] in members
      modifies this
      ensures var p := Scan(Trip(old(steps), [], false), offs, 0, members);
        fatal == p.stopped && steps == p.steps && log == p.log
      ensures ScanEnds(old(steps), old(steps) + Members(offs, members), Trip(steps, log, fatal))
      ensures Recorded(Here(), old(visited), members)
      ensures !fatal ==> Traced() && liblist == old(liblist) + Offsets(log) + [-1]
    {
      log := [];
      ghost var lib := liblist;
      ScanFacts(Here(), offs, members);
      assert liblist == lib + Offsets(log);
      fatal := ScanOn(offs, members, lib);
      if !fatal {
        liblist := liblist + [-1];
      }
    }

    /** The steps. */
    method ScanOn(offs: seq<int>, members: Archive, ghost lib: seq<int>) returns (fatal: bool)
      requires Traced() && (forall k :: 0 <= k < |offs| ==> offs[k] in members) && liblist == lib + Offsets(log)
      modifies this
      ensures var p := Scan(old(Here()), offs, 0, members); fatal == p.stopped && steps == p.steps && log == p.log
      ensures !fatal ==> Traced() && liblist == lib + Offsets(log)
    {
      fatal := false;
      var i := 0;
      while i < |offs|
        invariant 0 <= i <= |offs| && Traced() && liblist == lib + Offsets(log)
        invariant Scan(Here(), offs, i, members) == Scan(old(Here()), offs, 0, members)
      {
        var r := Step(offs[i], members, lib);
        i := i + 1;
        if r.Fatal? {
          return true;
        }
      }
    }
  }

  /** What a search comes to. */
  lemma SearchFacts(t: Trip, toc: seq<Ran>, members: Archive)
    requires InToc(toc, members) && !t.stopped && t.log == []
    ensures var p := Search(t, toc, members);
      && (p.stopped <==> Stale(Run(t.steps)) || SomeRefused(toc, TableOf(p), members))
      && (!p.stopped ==> !Stale(Run(p.steps)) && forall j :: 0 <= j < |toc| ==> EntryDone(toc[j], TableOf(p), members))
      && Recorded(Trip(p.steps, p.log, false), Run(t.steps).visited, members)
  {
    var p := Search(t, toc, members);
    SearchGoes(t, toc, members);
    SearchStopsIff(t, toc, members);
    if !p.stopped {
      SearchCloses(t, toc, members);
    }
    SearchRecords(t, toc, Run(t.steps).visited, members);
  }

  lemma ScanFacts(t: Trip, offs: seq<int>, members: Archive)
    requires (forall k :: 0 <= k < |offs| ==> offs[k] in members) && !t.stopped && t.log == []
    ensures var p := Scan(t, offs, 0, members);
      && ScanEnds(t.steps, t.steps + Members(offs, members), p)
      && Recorded(Trip(p.steps, p.log, false), Run(t.steps).visited, members)
  {
    assert Members(offs, members)[0..] == Members(offs, members);
    ScanIs(t, offs, 0, members);
    ScanRecords(t, offs, 0, Run(t.steps).visited, members);
  }

  // ---- What a dropped member leaves behind -------------------------------

  /** The module's reference to a common symbol is no bigger than the size already known. */
  predicate NotBigger(t: seq<Sym>, syms: seq<Nlist>, k: nat)
    requires k < |syms|
  {
    var i := Find(t, syms[k].name);
    syms[k].ext && syms[k].kind.Undf? && i >= 0 && t[i].kind.Undf? ==> syms[k].value <= t[i].value
  }

  ghost predicate NoneBigger(t: seq<Sym>, syms: seq<Nlist>) {
    forall k :: 0 <= k < |syms| ==> NotBigger(t, syms, k)
  }

  lemma {:induction false} NothingRaised(t: seq<Sym>, syms: seq<Nlist>, c: Rel)
    requires GoodTable(t) && AbsorbAll(t, syms, c).1 == 0 && NoneBigger(t, syms)
    ensures t <= AbsorbAll(t, syms, c).0
  {
    if syms != [] {
      var n := |syms| - 1;
      var rest, s, u, v := syms[..n], syms[n], AbsorbAll(t, syms[..n], c).0, AbsorbAll(t, syms, c).0;
      forall k | 0 <= k < n ensures NotBigger(t, rest, k) {
        assert NotBigger(t, syms, k);
      }
      NothingRaised(t, rest, c);
      AbsorbAllGrows(t, rest, c);
      if s.ext {
        assert NotBigger(t, syms, n);
        var i := Find(u, s.name);
        if 0 <= i < |t| {
          FindIs(t, i);
        }
      }
    }
  }

  /** An undefined symbol's size is at least every size the module asked for. */
  lemma {:induction false} SizeReached(t: seq<Sym>, syms: seq<Nlist>, c: Rel, k: nat)
    requires GoodTable(t) && k < |syms| && syms[k].ext && syms[k].kind.Undf?
    ensures var u := AbsorbAll(t, syms, c).0; var i := Find(u, syms[k].name);
      i >= 0 && (u[i].kind.Undf? ==> syms[k].value <= u[i].value)
  {
    var n := |syms| - 1;
    var rest, s, u, v := syms[..n], syms[n], AbsorbAll(t, syms[..n], c).0, AbsorbAll(t, syms, c).0;
    AbsorbAllGrows(t, rest, c);
    AbsorbAllGrows(t, syms, c);
    if k < n {
      SizeReached(t, rest, c, k);
      if s.ext {
        AbsorbGrows(u, Symreloc(s, c));
        NameStays(u, v, syms[k].name);
        assert StepsTo(u, v, Find(u, syms[k].name));
      }
    } else {
      FindIs(v, if Find(u, s.name) < 0 then |u| else Find(u, s.name));
    }
  }

  /**
   Backing a member out restores the table exactly when nextsym was behind its newest
   symbol and the member asked for no common symbol bigger than an undefined
   symbol's size so far; nextsym itself comes back unless it pointed nowhere and the
   member entered a symbol.
   */
  lemma BackOutRestoresIff(st: State, o: Object)
    requires Good(st) && o.syms != [] && Load(st, o, true).1.Dropped?
    ensures Load(st, o, true).0.table == st.table <==> !Stale(st) && NoneBigger(st.table, o.syms)
    ensures !Stale(st) ==> (Load(st, o, true).0.next == st.next <==> st.table != [] || ExtNames(o.syms) == {})
  {
    var t, c := st.table, PassRel(st, o);
    var u := AbsorbAll(t, o.syms, c).0;
    AbsorbAllGrows(t, o.syms, c);
    EmptyAfterIff(t, o.syms, c);
    if !Stale(st) {
      FreshBackOut(st, o);
    }
  }

  lemma FreshBackOut(st: State, o: Object)
    requires Good(st) && o.syms != [] && Load(st, o, true).1.Dropped? && !Stale(st)
    ensures Load(st, o, true).0.table == st.table <==> NoneBigger(st.table, o.syms)
  {
    var t, c := st.table, PassRel(st, o);
    var u := AbsorbAll(t, o.syms, c).0;
    AbsorbAllGrows(t, o.syms, c);
    BackedOut(t, o.syms, c, |t|);
    if NoneBigger(t, o.syms) {
      NothingRaised(t, o.syms, c);
      assert u[..|t|] == t;
    } else {
      var k :| 0 <= k < |o.syms| && !NotBigger(t, o.syms, k);
      var i := Find(t, o.syms[k].name);
      SizeReached(t, o.syms, c, k);
      NameStays(t, u, o.syms[k].name);
      assert RaisedAt(t, u[..|t|], i);
      assert u[..|t|][i] != t[i];
    }
  }

  /**
   So a member that is not loaded can turn an undefined symbol into a common one:
   no module kept gives the name a size, yet it has one.
   */
  lemma PhantomCommon(user: Object, name: string, size: nat) returns (st: State, o: Object)
    requires !OddSizes(user) && user.syms == [Nlist(name, true, Undf, 0)] && size > 0
    ensures Good(st) && !Stale(st) && Load(st, o, true).1.Dropped?
    ensures Undefined(st.table, name) && !Done(st.table, name)
    ensures Done(Load(st, o, true).0.table, name) && Load(st, o, true).0.visited == st.visited
  {
    StartsGood();
    st := OneSymbolFile(START, user);
    o := user.(syms := [Nlist(name, true, Undf, size)]);
    OneSymbol(st.table, o.syms[0], PassRel(st, o));
    assert st.table[0 := Sym(name, Undf, size)] == [Sym(name, Undf, size)];
    assert [Sym(name, Undf, size)][..1] == [Sym(name, Undf, size)];
  }

  /**
   And when two members in a row are dropped before any symbol is in the table, the
   second one's definition stays, though the module that made it is never loaded.
   */
  lemma PhantomDefinition(first: Object, second: Object) returns (st: State)
    requires !OddSizes(first) && |first.syms| == 1 && first.syms[0].ext
    requires !OddSizes(second) && |second.syms| == 1 && second.syms[0].ext && !second.syms[0].kind.Undf?
    ensures st == Load(START, first, true).0 && Load(START, first, true).1.Dropped? && Stale(st) && Clean(st)
    ensures Load(st, second, true).1.Dropped?
    ensures var st' := Load(st, second, true).0;
      !Clean(st') && st'.visited == [] && st'.table == [Symreloc(second.syms[0], PassRel(st, second))]
  {
    StartsGood();
    st := Load(START, first, true).0;
    assert first.syms == [first.syms[0]] && second.syms == [second.syms[0]];
    OneSymbol([], first.syms[0], PassRel(START, first));
    OneSymbol([], second.syms[0], PassRel(st, second));
    LoadStaysGood(START, first, true);
    LoadStaysCleanIff(st, second, true);
    assert !Load(st, second, true).0.table[0].kind.Undf?;
  }

  // ---- Members kept though nothing wanted them ---------------------------

  /** The module defines a name that is undefined in the table. */
  ghost predicate Answers(t: seq<Sym>, syms: seq<Nlist>) {
    exists k :: 0 <= k < |syms| && AnswersAt(t, syms, k)
  }

  predicate AnswersAt(t: seq<Sym>, syms: seq<Nlist>, k: nat)
    requires k < |syms|
  {
    Defines(syms, syms[k].name, k) && Undefined(t, syms[k].name)
  }

  /**
   The module first lists a name as undefined and then defines it itself; if in text,
   without having asked for it as a common in between.
   */
  ghost predicate SelfWanted(syms: seq<Nlist>) {
    SomeResolves([], syms, |syms|)
  }

  /** What resolves a name absent from the table resolves it in an empty one. */
  lemma AbsentAsEmpty(t: seq<Sym>, syms: seq<Nlist>, k: nat)
    requires k < |syms| && Find(t, syms[k].name) < 0
    ensures Resolves(t, syms, k) <==> Resolves([], syms, k)
  {
  }

  /** A member none of whose definitions is wanted is kept only if it wants one itself. */
  lemma KeptThough(st: State, o: Object)
    requires Good(st) && !Stale(st) && !Answers(st.table, o.syms) && Load(st, o, true).1.Kept?
    ensures SelfWanted(o.syms)
  {
    OutcomeIs(st, o, true);
    var k :| 0 <= k < |o.syms| && Resolves(st.table, o.syms, k);
    assert !AnswersAt(st.table, o.syms, k);
    AbsentAsEmpty(st.table, o.syms, k);
  }

  /**
   The exact members that break the promise to load a member only for a name some
   other module left undefined.
   */
  lemma SelfWantedIff(o: Object)
    requires Loads(o)
    ensures SelfWanted(o.syms) <==>
      exists st :: Good(st) && !Stale(st) && !Answers(st.table, o.syms) && Load(st, o, true).1.Kept?
  {
    if SelfWanted(o.syms) {
      StartsGood();
      OutcomeIs(START, o, true);
      assert !Answers(START.table, o.syms);
    }
    if st :| Good(st) && !Stale(st) && !Answers(st.table, o.syms) && Load(st, o, true).1.Kept? {
      KeptThough(st, o);
    }
  }

  /** The other promise: what is wanted gets loaded, unless a size overrules the definition. */
  lemma AnswersIsKept(st: State, o: Object, k: nat)
    requires Good(st) && !Stale(st) && Loads(o) && k < |o.syms| && AnswersAt(st.table, o.syms, k)
    requires o.syms[k].kind.Text? ==> !HasSize(st.table, o.syms[k].name) && !Asks(o.syms, o.syms[k].name, k)
    ensures Load(st, o, true).1.Kept?
    ensures var t := Load(st, o, true).0.table; Find(t, o.syms[k].name) >= 0 && !Undefined(t, o.syms[k].name)
  {
    OutcomeIs(st, o, true);
    assert Resolves(st.table, o.syms, k);
    ResolvedIsDefined(st.table, o.syms, PassRel(st, o), k);
  }

  /** A first plain file with one external symbol. */
  lemma OneSymbolFile(start: State, o: Object) returns (st: State)
    requires start == START && !OddSizes(o) && |o.syms| == 1 && o.syms[0].ext
    ensures st == Load(start, o, false).0 && Load(start, o, false).1.Kept? && Good(st) && Clean(st) && !Stale(st)
    ensures st.table == [Symreloc(o.syms[0], PassRel(start, o))] && st.visited == [o]
  {
    StartsGood();
    st := Load(start, o, false).0;
    assert o.syms == [o.syms[0]];
    OneSymbol([], o.syms[0], PassRel(start, o));
    LoadKept(start, o, false);
  }

  lemma OneSymbol(t: seq<Sym>, s: Nlist, c: Rel)
    requires s.ext
    ensures AbsorbAll(t, [s], c) == (Absorb(t, Symreloc(s, c)).0, if Absorb(t, Symreloc(s, c)).1 then 1 else 0)
  {
    assert [s][..0] == [];
  }
}
