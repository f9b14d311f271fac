/**
 ld68 from its arguments to the relocated segments: the first pass over files and
 archives, and the second pass, which finds the members again by the list of offsets
 the first one left.
 */
module LinkerDriver {
  import opened BufferedOutput
  import opened LinkerModel
  import opened LinkerPassOne
  import opened LinkerArchive
  import opened LinkerLayout
  import opened LinkerReloc
  import opened LinkerPassTwo
  import opened LinkerAddresses

  /** A plain file; an archive with a table of contents; an archive to be stepped through. */
  datatype Arg =
    | File(mod: Module)
    | Indexed(toc: seq<Ran>, mods: map<int, Module>)
    | Plain(offs: seq<int>, mods: map<int, Module>)

  /** What the archive's own headers say: members lie at offsets, and the lists point to members. */
  ghost predicate GoodArg(a: Arg) {
    match a
    case File(mod) => WellSized(mod)
    case Indexed(toc, mods) => GoodMembers(mods) && forall r :: r in toc ==> r.off in mods
    case Plain(offs, mods) => GoodMembers(mods) && forall i :: 0 <= i < |offs| ==> offs[i] in mods
  }

  ghost predicate GoodMembers(mods: map<int, Module>) {
    -1 !in mods && forall off :: off in mods ==> WellSized(mods[off])
  }

  function Objects(mods: map<int, Module>): Archive {
    map off | off in mods :: mods[off].o
  }

  function Objs(ms: seq<Module>): (v: seq<Object>)
    ensures |v| == |ms| && forall m :: 0 <= m < |ms| ==> v[m] == ms[m].o
  {
    seq(|ms|, m requires 0 <= m < |ms| => ms[m].o)
  }

  // ---- The list of offsets, written and read -----------------------------

  /** The members at some offsets. */
  function At(offs: seq<int>, mods: map<int, Module>): (ms: seq<Module>)
    requires forall i :: 0 <= i < |offs| ==> offs[i] in mods
    ensures |ms| == |offs| && forall i :: 0 <= i < |offs| ==> ms[i] == mods[offs[i]]
  {
    seq(|offs|, i requires 0 <= i < |offs| => mods[offs[i]])
  }

  /** A choice of offsets for every archive. */
  ghost predicate Choice(args: seq<Arg>, picks: seq<seq<int>>) {
    |picks| == |args| && forall i :: 0 <= i < |args| ==> ChoiceAt(args[i], picks[i])
  }

  ghost predicate ChoiceAt(a: Arg, offs: seq<int>) {
    !a.File? ==> -1 !in a.mods && forall i :: 0 <= i < |offs| ==> offs[i] in a.mods
  }

  /** liblist: the offsets of every archive, each list closed by -1. */
  ghost function Listed(args: seq<Arg>, picks: seq<seq<int>>): seq<int>
    requires Choice(args, picks)
  {
    if args == [] then []
    else Listed(args[..|args| - 1], picks[..|args| - 1]) + ListedFor(args[|args| - 1], picks[|args| - 1])
  }

  ghost function ListedFor(a: Arg, offs: seq<int>): seq<int> {
    if a.File? then [] else offs + [-1]
  }

  /** The modules so chosen. */
  ghost function Chosen(args: seq<Arg>, picks: seq<seq<int>>): seq<Module>
    requires Choice(args, picks)
  {
    if args == [] then []
    else Chosen(args[..|args| - 1], picks[..|args| - 1]) + ChosenFor(args[|args| - 1], picks[|args| - 1])
  }

  ghost function ChosenFor(a: Arg, offs: seq<int>): seq<Module>
    requires ChoiceAt(a, offs)
  {
    if a.File? then [a.mod] else At(offs, a.mods)
  }

  /**
   load2arg on one argument: the modules it loads and how far it gets in the list. It
   never runs past the end, so "libseg botch" cannot be reached.
   */
  method Load2Arg(a: Arg, lib: seq<int>, used2: nat, ghost offs: seq<int>) returns (ms: seq<Module>, used: nat)
    requires ChoiceAt(a, offs) && used2 <= |lib| && ListedFor(a, offs) <= lib[used2..]
    ensures ms == ChosenFor(a, offs) && used == used2 + |ListedFor(a, offs)|
  {
    if a.File? {
      return [a.mod], used2;
    }
    ms, used := [], used2;
    ghost var rest := lib[used2..];
    while true
      invariant used2 <= used <= used2 + |offs| && ms == At(offs[..used - used2], a.mods)
      decreases used2 + |offs| - used
    {
      ghost var k := used - used2;
      assert rest[k] == (offs + [-1])[k] && lib[used] == rest[k];
      var loc := lib[used];
      used := used + 1;
      if loc == -1 {
        assert k == |offs| && offs[..k] == offs;
        return ms, used;
      }
      assert offs[..k + 1] == offs[..k] + [offs[k]];
      ms := ms + [a.mods[loc]];
    }
  }

  lemma ListedPrefix(args: seq<Arg>, picks: seq<seq<int>>, i: nat)
    requires Choice(args, picks) && i < |args|
    ensures Choice(args[..i], picks[..i]) && Choice(args[..i + 1], picks[..i + 1]) && ChoiceAt(args[i], picks[i])
    ensures Listed(args[..i + 1], picks[..i + 1]) == Listed(args[..i], picks[..i]) + ListedFor(args[i], picks[i])
    ensures Chosen(args[..i + 1], picks[..i + 1]) == Chosen(args[..i], picks[..i]) + ChosenFor(args[i], picks[i])
  {
    assert args[..i + 1][..i] == args[..i] && picks[..i + 1][..i] == picks[..i];
  }

  lemma {:induction false} ListedGrows(args: seq<Arg>, picks: seq<seq<int>>, i: nat)
    requires Choice(args, picks) && i <= |args|
    ensures Choice(args[..i], picks[..i]) && Listed(args[..i], picks[..i]) <= Listed(args, picks)
    decreases |args|
  {
    if i == |args| {
      assert args[..i] == args && picks[..i] == picks;
    } else {
      var n := |args| - 1;
      assert args[..n][..i] == args[..i] && picks[..n][..i] == picks[..i];
      ListedGrows(args[..n], picks[..n], i);
    }
  }

  /** The next stretch of the list belongs to argument i. */
  lemma ListedHere(args: seq<Arg>, picks: seq<seq<int>>, i: nat)
    requires Choice(args, picks) && i < |args|
    ensures Choice(args[..i], picks[..i]) && |Listed(args[..i], picks[..i])| <= |Listed(args, picks)|
    ensures ListedFor(args[i], picks[i]) <= Listed(args, picks)[|Listed(args[..i], picks[..i])|..]
  {
    ListedPrefix(args, picks, i);
    ListedGrows(args, picks, i + 1);
    var a, b, all := Listed(args[..i], picks[..i]), ListedFor(args[i], picks[i]), Listed(args, picks);
    assert a + b <= all;
    forall k | 0 <= k < |b| ensures all[|a|..][k] == b[k] {
      assert all[|a| + k] == (a + b)[|a| + k];
    }
  }

  /** The second pass over all arguments meets the modules the first one chose. */
  method Replay(args: seq<Arg>, lib: seq<int>, ghost picks: seq<seq<int>>) returns (ms: seq<Module>)
    requires Choice(args, picks) && lib == Listed(args, picks)
    ensures ms == Chosen(args, picks)
  {
    ms := [];
    var i, used := 0, 0;
    while i < |args|
      invariant 0 <= i <= |args| && Choice(args[..i], picks[..i])
      invariant ms == Chosen(args[..i], picks[..i]) && used == |Listed(args[..i], picks[..i])|
    {
      ListedHere(args, picks, i);
      ListedPrefix(args, picks, i);
      var more;
      more, used := Load2Arg(args[i], lib, used, picks[i]);
      ms := ms + more;
      i := i + 1;
    }
    assert args[..i] == args && picks[..i] == picks;
  }

  // ---- What the first pass does ------------------------------------------

  lemma ObjsAppend(a: seq<Module>, b: seq<Module>)
    ensures Objs(a + b) == Objs(a) + Objs(b)
  {
  }

  /** load1arg on one argument, after some steps of the run. */
  ghost function ArgRun(steps: seq<Item>, a: Arg): (t: Trip)
    requires GoodArg(a)
  {
    var start := Trip(steps, [], false);
    match a
    case File(mod) =>
      var s := Item(mod.o, false);
      if Load(Run(steps), s.o, false).1.Fatal? then start.(stopped := true) else start.(steps := steps + [s])
    case Indexed(toc, mods) => Search(start, toc, Objects(mods))
    case Plain(offs, mods) => Scan(start, offs, 0, Objects(mods))
  }

  /** The steps of the run, the offsets recorded for every argument, and whether ld stopped. */
  datatype Whole = Whole(steps: seq<Item>, picks: seq<seq<int>>, stopped: bool)

  ghost predicate GoodArgs(args: seq<Arg>) {
    forall i :: 0 <= i < |args| ==> GoodArg(args[i])
  }

  /** The first pass over the arguments. */
  ghost function FirstRun(args: seq<Arg>): Whole
    requires GoodArgs(args)
  {
    if args == [] then Whole([], [], false)
    else
      var n := |args| - 1;
      var w := FirstRun(args[..n]);
      if w.stopped then w
      else
        var t := ArgRun(w.steps, args[n]);
        Whole(t.steps, w.picks + [Offsets(t.log)], t.stopped)
  }

  /** The run after the first i arguments. */
  ghost function After(args: seq<Arg>, i: nat): Whole
    requires GoodArgs(args) && i <= |args|
  {
    FirstRun(args[..i])
  }

  lemma NextRun(args: seq<Arg>, i: nat)
    requires GoodArgs(args) && i < |args|
    ensures var w := After(args, i); var t := ArgRun(w.steps, args[i]);
      After(args, i + 1) == if w.stopped then w else Whole(t.steps, w.picks + [Offsets(t.log)], t.stopped)
  {
    assert args[..i + 1][..i] == args[..i];
  }

  /** Once ld has stopped, the arguments left are not looked at. */
  lemma {:induction false} StoppedStays(args: seq<Arg>, i: nat)
    requires GoodArgs(args) && i <= |args| && After(args, i).stopped
    ensures FirstRun(args) == After(args, i)
    decreases |args| - i
  {
    if i == |args| {
      assert args[..i] == args;
    } else {
      NextRun(args, i);
      StoppedStays(args, i + 1);
    }
  }

  // ---- What one argument does to the run ---------------------------------

  /** The members recorded for an archive, each loaded once, are the modules its steps added to those visited. */
  ghost predicate ArgRecorded(a: Arg, before: seq<Item>, t: Trip) {
    if a.File? then t.log == [] && Run(t.steps).visited == Run(before).visited + if t.stopped then [] else [a.mod.o]
    else Recorded(Trip(t.steps, t.log, false), Run(before).visited, Objects(a.mods))
  }

  /** What was done for an argument that did not stop ld. */
  ghost predicate ArgSeen(a: Arg, before: seq<Item>, t: Trip)
    requires GoodArg(a)
  {
    match a
    case File(mod) => t.steps == before + [Item(mod.o, false)]
    case Indexed(toc, mods) =>
      !Stale(Run(t.steps)) && forall j :: 0 <= j < |toc| ==> EntryDone(toc[j], TableOf(t), Objects(mods))
    case Plain(offs, mods) => t.steps == before + Members(offs, Objects(mods))
  }

  /** Why an argument stops ld. */
  ghost predicate ArgStops(a: Arg, before: seq<Item>, t: Trip)
    requires GoodArg(a)
  {
    match a
    case File(mod) => Load(Run(before), mod.o, false).1.Fatal?
    case Indexed(toc, mods) => Stale(Run(before)) || SomeRefused(toc, TableOf(t), Objects(mods))
    case Plain(offs, mods) => SomeFatal(before + Members(offs, Objects(mods)), |before|)
  }

  /** Some step from n on would stop ld. */
  ghost predicate SomeFatal(steps: seq<Item>, n: nat) {
    exists j :: n <= j < |steps| && OutcomeOf(steps, j).Fatal?
  }

  lemma ArgFacts(before: seq<Item>, a: Arg)
    requires GoodArg(a)
    ensures var t := ArgRun(before, a);
      && before <= t.steps && ArgRecorded(a, before, t)
      && (t.stopped <==> ArgStops(a, before, t)) && (!t.stopped ==> ArgSeen(a, before, t))
  {
    var start := Trip(before, [], false);
    match a {
      case File(mod) =>
        RunMore(before, Item(mod.o, false));
        RunGood(before);
        if !Load(Run(before), mod.o, false).1.Fatal? {
          FileVisited(Run(before), mod.o);
        }
      case Indexed(toc, mods) =>
        SearchFacts(start, toc, Objects(mods));
        SearchGoes(start, toc, Objects(mods));
      case Plain(offs, mods) =>
        ScanFacts(start, offs, Objects(mods));
        ScanGoes(start, offs, 0, Objects(mods));
        PlainStops(before, offs, Objects(mods));
    }
  }

  lemma PlainStops(before: seq<Item>, offs: seq<int>, members: Archive)
    requires forall k :: 0 <= k < |offs| ==> offs[k] in members
    ensures Scan(Trip(before, [], false), offs, 0, members).stopped <==>
      SomeFatal(before + Members(offs, members), |before|)
  {
    var start := Trip(before, [], false);
    ScanFacts(start, offs, members);
    ScanGoes(start, offs, 0, members);
    var p := Scan(start, offs, 0, members);
    if p.stopped {
      assert OutcomeOf(before + Members(offs, members), |p.steps|).Fatal?;
    }
  }

  lemma FileVisited(st: State, o: Object)
    requires Good(st) && !Load(st, o, false).1.Fatal?
    ensures Load(st, o, false).0.visited == st.visited + [o]
    ensures ExtNames(o.syms) != {} ==> Load(st, o, false).1.Kept? && Load(st, o, false).0.table != []
  {
    EmptyAfterIff(st.table, o.syms, PassRel(st, o));
  }

  // ---- What the whole pass does ------------------------------------------

  /**
   Argument i added its steps to the run, recorded exactly the members it loaded, and
   was done unless it stopped ld.
   */
  ghost predicate ArgOk(args: seq<Arg>, i: nat)
    requires GoodArgs(args) && i < |args|
  {
    var before := After(args, i).steps;
    var t := ArgRun(before, args[i]);
    && before <= t.steps && ArgRecorded(args[i], before, t)
    && After(args, i + 1).steps == t.steps && After(args, i + 1).stopped == t.stopped
    && (!t.stopped ==>
      ArgSeen(args[i], before, t) && After(args, i + 1).picks == After(args, i).picks + [Offsets(t.log)])
  }

  lemma EveryArg(args: seq<Arg>, i: nat)
    requires GoodArgs(args) && i < |args| && !After(args, i).stopped
    ensures ArgOk(args, i)
  {
    NextRun(args, i);
    ArgFacts(After(args, i).steps, args[i]);
  }

  ghost predicate StopsAt(args: seq<Arg>, i: nat)
    requires GoodArgs(args) && i < |args|
  {
    !After(args, i).stopped && ArgStops(args[i], After(args, i).steps, ArgRun(After(args, i).steps, args[i]))
  }

  lemma StopsFront(args: seq<Arg>, n: nat, i: nat)
    requires GoodArgs(args) && i < n <= |args|
    ensures StopsAt(args[..n], i) <==> StopsAt(args, i)
  {
    assert args[..n][..i] == args[..i] && args[..n][i] == args[i];
  }

  lemma StopsLast(args: seq<Arg>, n: nat)
    requires GoodArgs(args) && n + 1 == |args|
    ensures FirstRun(args).stopped <==> FirstRun(args[..n]).stopped || StopsAt(args, n)
  {
    ArgFacts(After(args, n).steps, args[n]);
  }

  ghost predicate SomeStops(args: seq<Arg>, n: nat)
    requires GoodArgs(args) && n <= |args|
  {
    exists i :: 0 <= i < n && StopsAt(args, i)
  }

  lemma SomeStopsMore(args: seq<Arg>, n: nat)
    requires GoodArgs(args) && n + 1 == |args|
    ensures SomeStops(args, n + 1) <==> SomeStops(args[..n], n) || StopsAt(args, n)
  {
    if SomeStops(args, n + 1) && !StopsAt(args, n) {
      var i :| 0 <= i < n + 1 && StopsAt(args, i);
      StopsFront(args, n, i);
    }
    if SomeStops(args[..n], n) {
      var i :| 0 <= i < n && StopsAt(args[..n], i);
      StopsFront(args, n, i);
    }
  }

  /**
   The first pass stops exactly at an argument that is reached and is a file load1
   refuses, an archive to be stepped through with such a member, or an archive to be
   searched when nextsym is stale or a name is left undefined that it lists for a
   member load1 refuses.
   */
  lemma {:induction false} StopsIff(args: seq<Arg>)
    requires GoodArgs(args)
    ensures FirstRun(args).stopped <==> SomeStops(args, |args|)
  {
    if args != [] {
      var n := |args| - 1;
      StopsIff(args[..n]);
      StopsLast(args, n);
      SomeStopsMore(args, n);
    }
  }

  /** The arguments start with a file that has an external symbol, so nextsym never goes stale. */
  predicate Safe(args: seq<Arg>) {
    args != [] && args[0].File? && ExtNames(args[0].mod.o.syms) != {}
  }

  lemma FileSmooth(before: seq<Item>, o: Object)
    requires Smooth(before) && !Load(Run(before), o, false).1.Fatal?
    requires Run(before).table != [] || ExtNames(o.syms) != {}
    ensures Smooth(before + [Item(o, false)]) && Run(before + [Item(o, false)]).table != []
  {
    RunGood(before);
    FileVisited(Run(before), o);
    StaysSmooth(before, Item(o, false));
    RunMore(before, Item(o, false));
    LoadStaysGood(Run(before), o, false);
  }

  lemma ArgSmooth(before: seq<Item>, a: Arg)
    requires GoodArg(a) && Smooth(before) && Run(before).table != []
    ensures var t := ArgRun(before, a); Smooth(t.steps) && TableOf(t) != []
  {
    var start := Trip(before, [], false);
    match a {
      case File(mod) =>
        if !Load(Run(before), mod.o, false).1.Fatal? {
          FileSmooth(before, mod.o);
        }
      case Indexed(toc, mods) => SearchGoes(start, toc, Objects(mods));
      case Plain(offs, mods) => ScanGoes(start, offs, 0, Objects(mods));
    }
  }

  lemma {:induction false} SafeSmooth(args: seq<Arg>, i: nat)
    requires GoodArgs(args) && Safe(args) && i <= |args|
    ensures Smooth(After(args, i).steps)
    ensures i > 0 && !After(args, i).stopped ==> Run(After(args, i).steps).table != []
  {
    if i == 0 {
      StartsGood();
    } else {
      SafeSmooth(args, i - 1);
      NextRun(args, i - 1);
      if !After(args, i - 1).stopped {
        if i == 1 {
          if !Load(START, args[0].mod.o, false).1.Fatal? {
            FileSmooth([], args[0].mod.o);
          }
        } else {
          ArgSmooth(After(args, i - 1).steps, args[i - 1]);
        }
      }
    }
  }

  /** The modules of argument i that load1 refuses and that the pass gets to. */
  ghost predicate RefusedAt(args: seq<Arg>, i: nat)
    requires GoodArgs(args) && i < |args|
  {
    && !After(args, i).stopped
    && match args[i]
       case File(mod) => !Loads(mod.o)
       case Indexed(toc, mods) => SomeRefused(toc, TableOf(ArgRun(After(args, i).steps, args[i])), Objects(mods))
       case Plain(offs, mods) => exists k :: 0 <= k < |offs| && !Loads(mods[offs[k]].o)
  }

  lemma PlainRefused(before: seq<Item>, offs: seq<int>, members: Archive)
    requires (forall k :: 0 <= k < |offs| ==> offs[k] in members) && Smooth(before) && Run(before).table != []
    ensures Scan(Trip(before, [], false), offs, 0, members).stopped <==>
      exists k :: 0 <= k < |offs| && !Loads(members[offs[k]])
  {
    var start, all := Trip(before, [], false), before + Members(offs, members);
    ScanFacts(start, offs, members);
    ScanGoes(start, offs, 0, members);
    var p := Scan(start, offs, 0, members);
    if p.stopped {
      SmoothFatal(p.steps, all);
      assert !Loads(members[offs[|p.steps| - |before|]]);
    }
    forall k | 0 <= k < |offs| && !Loads(members[offs[k]]) ensures OutcomeOf(all, |before| + k).Fatal? {
      RefusedIsFatal(before, offs, members, k);
    }
  }

  lemma RefusedIsFatal(before: seq<Item>, offs: seq<int>, members: Archive, k: nat)
    requires (forall i :: 0 <= i < |offs| ==> offs[i] in members) && k < |offs| && !Loads(members[offs[k]])
    ensures OutcomeOf(before + Members(offs, members), |before| + k).Fatal?
  {
    assert (before + Members(offs, members))[|before| + k] == Item(members[offs[k]], true);
  }

  /** After a smooth run load1 fails on modules it refuses only. */
  lemma SmoothFatal(steps: seq<Item>, all: seq<Item>)
    requires steps <= all && |steps| < |all| && Smooth(steps) && OutcomeOf(all, |steps|).Fatal?
    ensures !Loads(all[|steps|].o)
  {
    RunGood(steps);
    SmoothPrefix(steps, |steps|);
    assert all[..|steps|] == steps && steps[..|steps|] == steps;
    OutcomeIs(Run(steps), all[|steps|].o, all[|steps|].lib);
  }

  lemma RefusedIff(args: seq<Arg>, i: nat)
    requires GoodArgs(args) && Safe(args) && i < |args|
    ensures StopsAt(args, i) <==> RefusedAt(args, i)
  {
    var before, a := After(args, i).steps, args[i];
    SafeSmooth(args, i);
    SmoothPrefix(before, |before|);
    assert before[..|before|] == before;
    RunGood(before);
    if !After(args, i).stopped {
      ArgFacts(before, a);
      match a {
        case File(mod) => OutcomeIs(Run(before), mod.o, false);
        case Indexed(toc, mods) =>
        case Plain(offs, mods) =>
          PlainRefused(before, offs, Objects(mods));
          assert forall k :: 0 <= k < |offs| ==> Objects(mods)[offs[k]] == mods[offs[k]].o;
      }
    }
  }

  /** With such arguments only a module load1 refuses stops the first pass, and it ends with a sound nextsym. */
  lemma SafeStopsIff(args: seq<Arg>)
    requires GoodArgs(args) && Safe(args)
    ensures FirstRun(args).stopped <==> exists i :: 0 <= i < |args| && RefusedAt(args, i)
    ensures !Stale(Run(FirstRun(args).steps)) && Smooth(FirstRun(args).steps)
  {
    StopsIff(args);
    forall i | 0 <= i < |args| ensures StopsAt(args, i) <==> RefusedAt(args, i) {
      RefusedIff(args, i);
    }
    if i :| 0 <= i < |args| && RefusedAt(args, i) {
      assert StopsAt(args, i);
    }
    SafeSmooth(args, |args|);
    assert args[..|args|] == args;
    var steps := FirstRun(args).steps;
    SmoothPrefix(steps, |steps|);
    assert steps[..|steps|] == steps;
  }

  // ---- The modules the first pass leaves to the second -------------------

  lemma RecordedHere(a: Arg, before: seq<Item>, t: Trip)
    requires GoodArg(a) && ArgRecorded(a, before, t) && !t.stopped
    ensures ChoiceAt(a, Offsets(t.log))
    ensures Run(t.steps).visited == Run(before).visited + Objs(ChosenFor(a, Offsets(t.log)))
  {
    if a.File? {
      assert Objs([a.mod]) == [a.mod.o];
    } else {
      assert GoodMembers(a.mods) && InArchive(t.log, Objects(a.mods));
      assert Picked(t.log, Objects(a.mods)) == Objs(At(Offsets(t.log), a.mods));
    }
  }

  /** The offsets recorded lead to the modules visited. */
  lemma {:induction false} ChosenIs(args: seq<Arg>)
    requires GoodArgs(args) && !FirstRun(args).stopped
    ensures var w := FirstRun(args); Choice(args, w.picks) && Run(w.steps).visited == Objs(Chosen(args, w.picks))
  {
    if args != [] {
      var n := |args| - 1;
      var w := FirstRun(args[..n]);
      var t := ArgRun(w.steps, args[n]);
      ChosenIs(args[..n]);
      ArgFacts(w.steps, args[n]);
      RecordedHere(args[n], w.steps, t);
      assert args[..n + 1] == args;
      OneMoreChoice(args, w.picks, n, Offsets(t.log));
    }
  }

  lemma OneMoreChoice(args: seq<Arg>, picks: seq<seq<int>>, i: nat, offs: seq<int>)
    requires i < |args| && Choice(args[..i], picks) && ChoiceAt(args[i], offs)
    ensures Choice(args[..i + 1], picks + [offs])
    ensures Listed(args[..i + 1], picks + [offs]) == Listed(args[..i], picks) + ListedFor(args[i], offs)
    ensures Objs(Chosen(args[..i + 1], picks + [offs])) == Objs(Chosen(args[..i], picks)) +
      Objs(ChosenFor(args[i], offs))
  {
    var a, p := args[..i + 1], picks + [offs];
    assert a[..i] == args[..i] && p[..i] == picks;
    ObjsAppend(Chosen(args[..i], picks), ChosenFor(args[i], offs));
  }

  // ---- The first pass over the arguments ---------------------------------

  /** load1arg: makes the steps of the argument and adds the offsets recorded to the list. */
  method Load1Arg(linker: Linker, a: Arg) returns (fatal: bool)
    requires GoodArg(a) && linker.Traced()
    modifies linker
    ensures var t := ArgRun(old(linker.steps), a);
      && fatal == t.stopped && linker.steps == t.steps
      && (!fatal ==> linker.Traced() && linker.liblist == old(linker.liblist) + ListedFor(a, Offsets(t.log)))
  {
    match a {
      case File(mod) =>
        var r := linker.Load1(mod.o, false);
        fatal := r.Fatal?;
        if !fatal {
          linker.Record(Item(mod.o, false));
        }
      case Indexed(toc, mods) => fatal := linker.SearchArchive(toc, Objects(mods));
      case Plain(offs, mods) => fatal := linker.ScanArchive(offs, Objects(mods));
    }
  }

  method FirstPass(linker: Linker, args: seq<Arg>) returns (fatal: bool)
    requires GoodArgs(args) && linker.Traced() && linker.steps == [] && linker.liblist == []
    modifies linker
    ensures var w := FirstRun(args);
      && fatal == w.stopped && linker.steps == w.steps
      && (!fatal ==> linker.Traced() && Choice(args, w.picks) && linker.liblist == Listed(args, w.picks))
  {
    fatal := false;
    var i := 0;
    while i < |args|
      invariant 0 <= i <= |args| && linker.Traced()
      invariant var w := After(args, i);
        && !w.stopped && linker.steps == w.steps && Choice(args[..i], w.picks) &&
          linker.liblist == Listed(args[..i], w.picks)
    {
      NextRun(args, i);
      ghost var w := After(args, i);
      ghost var t := ArgRun(w.steps, args[i]);
      fatal := Load1Arg(linker, args[i]);
      if fatal {
        StoppedStays(args, i + 1);
        return;
      }
      ArgFacts(w.steps, args[i]);
      RecordedHere(args[i], w.steps, t);
      OneMoreChoice(args, w.picks, i, Offsets(t.log));
      i := i + 1;
    }
    assert args[..i] == args;
  }

  // ---- ld ----------------------------------------------------------------

  /** DeadSymbols is a link without symbols whose nextsym counts some that were backed out. */
  datatype Result =
    | Stopped
    | DeadSymbols
    | Linked(ok: bool, table: seq<Sym>, tout: seq<Byte>, dout: seq<Byte>, dups: seq<seq<nat>>)

  /**
   Both passes: what is put out is every module the first pass loads for the arguments,
   in their order, relocated to the addresses of the layout.
   */
  method Link(args: seq<Arg>, o: Opts, nsym: nat) returns (r: Result, ghost steps: seq<Item>, ghost mods: seq<Module>)
    requires GoodArgs(args)
    ensures steps == FirstRun(args).steps && (r.Stopped? <==> SomeStops(args, |args|))
    ensures r.DeadSymbols? <==> !r.Stopped? && Stale(Run(steps))
    ensures forall i :: 0 <= i < |args| && !After(args, i).stopped ==> ArgOk(args, i)
    ensures !r.Stopped? ==> Choice(args, FirstRun(args).picks)
    ensures r.Linked? ==>
      mods == Chosen(args, FirstRun(args).picks) && Good(Run(steps)) && Matches(mods, Run(steps).visited)
    ensures r.Linked? ==>
      IsFinal(r.table, Run(steps), o) && (r.ok <==> forall m :: 0 <= m < |mods| ==> Loadable(r.table, mods[m]))
    ensures r.Linked? && r.ok ==> forall m :: 0 <= m < |mods| ==>
      InOutput(r.table, mods, Run(steps).visited, LayoutOf(Run(steps), o), m, r.tout, r.dout)
    ensures r.Linked? && r.ok ==> |r.dups| == |mods| && forall m :: 0 <= m < |mods| ==>
      DupsOf(r.table, Run(steps).visited, LayoutOf(Run(steps), o), m, r.dups[m])
  {
    var linker := new Linker();
    var fatal := FirstPass(linker, args);
    steps, mods := linker.steps, [];
    StopsIff(args);
    forall i | 0 <= i < |args| && !After(args, i).stopped ensures ArgOk(args, i) {
      EveryArg(args, i);
    }
    if fatal {
      r := Stopped;
      return;
    }
    if linker.nextsym != |linker.table| {
      r := DeadSymbols;
      return;
    }
    ghost var picks := FirstRun(args).picks;
    ChosenIs(args);
    var found := Replay(args, linker.liblist, picks);
    mods := found;
    ChosenSized(args, picks);
    var final := State(linker.table, Objs(found), linker.tsize, linker.dsize, linker.bsize, linker.nextsym);
    var ok, table, tout, dout, dups := LinkerAddresses.Finish(final, o, found, nsym);
    r := Linked(ok, table, tout, dout, dups);
  }

  lemma SizedFor(a: Arg, offs: seq<int>)
    requires GoodArg(a) && ChoiceAt(a, offs)
    ensures forall m :: 0 <= m < |ChosenFor(a, offs)| ==> WellSized(ChosenFor(a, offs)[m])
  {
    var ms := ChosenFor(a, offs);
    forall m | 0 <= m < |ms| ensures WellSized(ms[m]) {
      if a.File? {
        assert ms == [a.mod] && WellSized(a.mod);
      } else {
        var mods, off := a.mods, offs[m];
        assert GoodMembers(mods) && off in mods;
        assert off in mods ==> WellSized(mods[off]);
      }
    }
  }

  lemma {:induction false} ChosenSized(args: seq<Arg>, picks: seq<seq<int>>)
    requires Choice(args, picks) && GoodArgs(args)
    ensures forall m :: 0 <= m < |Chosen(args, picks)| ==> WellSized(Chosen(args, picks)[m])
  {
    if args != [] {
      var n := |args| - 1;
      ChosenSized(args[..n], picks[..n]);
      SizedFor(args[n], picks[n]);
    }
  }
}
