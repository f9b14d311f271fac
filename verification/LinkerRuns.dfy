/**
 Whole runs of the first pass: what the order of the modules decides about a symbol,
 and runs in which the two passes disagree.
 */
module LinkerRuns {
  import opened LinkerModel
  import opened LinkerNeeds
  import opened LinkerPassOne
  import opened LinkerArchive
  import opened LinkerLayout
  import opened LinkerAddresses

  // ---- What the order of the modules says --------------------------------

  /** A module kept among the first n mentions the name. */
  ghost predicate Mentioned(steps: seq<Item>, n: nat, name: string)
    requires n <= |steps|
  {
    exists j :: 0 <= j < n && MentionedAt(steps, j, name)
  }

  predicate MentionedAt(steps: seq<Item>, j: nat, name: string)
    requires j < |steps|
  {
    OutcomeOf(steps, j).Kept? && name in ExtNames(steps[j].o.syms)
  }

  /** Step j asks for the name as a common, and is kept or comes when the name is already mentioned. */
  ghost predicate SizedAt(steps: seq<Item>, j: nat, name: string)
    requires j < |steps|
  {
    var syms := steps[j].o.syms;
    Asks(syms, name, |syms|) && (OutcomeOf(steps, j).Kept? || Mentioned(steps, j, name))
  }

  /** One of the first n modules gives the name a size that lasts, be it kept or not. */
  ghost predicate Sized(steps: seq<Item>, n: nat, name: string)
    requires n <= |steps|
  {
    exists j :: 0 <= j < n && SizedAt(steps, j, name)
  }

  lemma PrefixSays(steps: seq<Item>, n: nat, j: nat, name: string)
    requires j < n <= |steps|
    ensures OutcomeOf(steps[..n], j) == OutcomeOf(steps, j)
    ensures MentionedAt(steps[..n], j, name) <==> MentionedAt(steps, j, name)
    ensures SizedAt(steps[..n], j, name) <==> SizedAt(steps, j, name)
  {
    assert steps[..n][..j] == steps[..j];
    forall i | 0 <= i < j ensures MentionedAt(steps[..n], i, name) <==> MentionedAt(steps, i, name) {
      assert steps[..n][..i] == steps[..i];
    }
    assert Mentioned(steps[..n], j, name) <==> Mentioned(steps, j, name) by {
      if Mentioned(steps, j, name) {
        var i :| 0 <= i < j && MentionedAt(steps, i, name);
        assert MentionedAt(steps[..n], i, name);
      }
      if Mentioned(steps[..n], j, name) {
        var i :| 0 <= i < j && MentionedAt(steps[..n], i, name);
        assert MentionedAt(steps, i, name);
      }
    }
  }

  lemma SaysMore(steps: seq<Item>, n: nat, name: string)
    requires n + 1 == |steps|
    ensures Mentioned(steps, n, name) <==> Mentioned(steps[..n], n, name)
    ensures Mentioned(steps, n + 1, name) <==> Mentioned(steps, n, name) || MentionedAt(steps, n, name)
    ensures Sized(steps, n + 1, name) <==> Sized(steps[..n], n, name) || SizedAt(steps, n, name)
  {
    forall j | 0 <= j < n
      ensures MentionedAt(steps[..n], j, name) <==> MentionedAt(steps, j, name)
      ensures SizedAt(steps[..n], j, name) <==> SizedAt(steps, j, name)
    {
      PrefixSays(steps, n, j, name);
    }
    MentionedMore(steps, n, name);
    if Sized(steps, n + 1, name) {
      var j :| 0 <= j < n + 1 && SizedAt(steps, j, name);
      assert j < n ==> SizedAt(steps[..n], j, name);
    }
    if Sized(steps[..n], n, name) {
      var j :| 0 <= j < n && SizedAt(steps[..n], j, name);
      assert SizedAt(steps, j, name);
    }
  }

  lemma MentionedMore(steps: seq<Item>, n: nat, name: string)
    requires n + 1 == |steps|
    requires forall j :: 0 <= j < n ==> (MentionedAt(steps[..n], j, name) <==> MentionedAt(steps, j, name))
    ensures Mentioned(steps, n, name) <==> Mentioned(steps[..n], n, name)
    ensures Mentioned(steps, n + 1, name) <==> Mentioned(steps, n, name) || MentionedAt(steps, n, name)
  {
    if Mentioned(steps, n + 1, name) {
      var j :| 0 <= j < n + 1 && MentionedAt(steps, j, name);
    }
    if Mentioned(steps, n, name) {
      var j :| 0 <= j < n && MentionedAt(steps, j, name);
      assert MentionedAt(steps[..n], j, name);
    }
    if Mentioned(steps[..n], n, name) {
      var j :| 0 <= j < n && MentionedAt(steps[..n], j, name);
      assert MentionedAt(steps, j, name);
    }
  }

  /** The table after a smooth step that drops its module: same names, sizes as the module left them. */
  lemma DroppedSizes(st: State, o: Object, name: string)
    requires Good(st) && !Stale(st) && Load(st, o, true).1.Dropped? && o.syms != []
    ensures var t, t' := st.table, Load(st, o, true).0.table;
      && (Find(t', name) >= 0 <==> Find(t, name) >= 0)
      && (Undefined(t', name) <==> Undefined(t, name))
      && (Undefined(t', name) ==> (HasSize(t', name) <==> HasSize(t, name) || Asks(o.syms, name, |o.syms|)))
  {
    var t, c := st.table, PassRel(st, o);
    var u := AbsorbAll(t, o.syms, c).0;
    var t' := u[..|t|];
    AbsorbAllGrows(t, o.syms, c);
    BackedOut(t, o.syms, c, |t|);
    forall i | 0 <= i < |t| ensures t[i].name == t'[i].name { assert RaisedAt(t, t', i); }
    SameFind(t, t', name);
    var i := Find(t', name);
    if i >= 0 {
      assert RaisedAt(t, t', i);
      FindIs(u, i);
    }
    if Undefined(t', name) {
      SizeAfter(t, o.syms, c, name);
    }
  }

  lemma SizedIsMentioned(steps: seq<Item>, n: nat, name: string)
    requires n <= |steps| && Sized(steps, n, name)
    ensures Mentioned(steps, n, name)
  {
    var j :| 0 <= j < n && SizedAt(steps, j, name);
    if OutcomeOf(steps, j).Kept? {
      AskedIsNamed(steps[j].o.syms, name);
      assert MentionedAt(steps, j, name);
    } else {
      var i :| 0 <= i < j && MentionedAt(steps, i, name);
    }
  }

  /** Whether a name is in the table, and whether an undefined one has a size, as the order of the modules says. */
  ghost predicate SizesSaid(steps: seq<Item>, t: seq<Sym>, name: string) {
    && (Find(t, name) >= 0 <==> Mentioned(steps, |steps|, name))
    && (Undefined(t, name) ==> (HasSize(t, name) <==> Sized(steps, |steps|, name)))
  }

  lemma KeptSaid(steps: seq<Item>, n: nat, name: string, t: seq<Sym>, c: Rel)
    requires n + 1 == |steps| && OutcomeOf(steps, n).Kept? && GoodTable(t) && SizesSaid(steps[..n], t, name)
    ensures SizesSaid(steps, AbsorbAll(t, steps[n].o.syms, c).0, name)
  {
    SaysMore(steps, n, name);
    if Sized(steps[..n], n, name) {
      SizedIsMentioned(steps[..n], n, name);
    }
    KeptSizes(t, steps[n].o.syms, c, name);
  }

  lemma DroppedSaid(steps: seq<Item>, n: nat, name: string, st: State)
    requires n + 1 == |steps| && OutcomeOf(steps, n).Dropped? && Good(st) && !Stale(st) &&
      SizesSaid(steps[..n], st.table, name)
    requires steps[n].o.syms == [] || Load(st, steps[n].o, true).1.Dropped?
    ensures SizesSaid(steps, if steps[n].o.syms == [] then st.table else Load(st, steps[n].o, true).0.table, name)
  {
    SaysMore(steps, n, name);
    if steps[n].o.syms != [] {
      DroppedSizes(st, steps[n].o, name);
    }
  }

  /** The order of the modules decides. */
  lemma {:induction false} SizedIs(steps: seq<Item>, name: string)
    requires Smooth(steps)
    ensures SizesSaid(steps, Run(steps).table, name)
  {
    if steps != [] {
      var n := |steps| - 1;
      SmoothPrefix(steps, n);
      SizedIs(steps[..n], name);
      RunGood(steps[..n]);
      assert !OutcomeOf(steps, n).Fatal?;
      if OutcomeOf(steps, n).Kept? {
        KeptSaid(steps, n, name, Run(steps[..n]).table, PassRel(Run(steps[..n]), steps[n].o));
      } else {
        DroppedSaid(steps, n, name, Run(steps[..n]));
      }
    }
  }

  // ---- A symbol defined once ---------------------------------------------

  /** Without a definition of the name a module leaves it undefined. */
  lemma {:induction false} NoDefinition(t: seq<Sym>, syms: seq<Nlist>, c: Rel, name: string, k: nat)
    requires GoodTable(t) && k <= |syms| && Undefined(AbsorbAll(t, syms[..k], c).0, name)
    requires forall j :: k <= j < |syms| ==> !Defines(syms, name, j)
    ensures Undefined(AbsorbAll(t, syms, c).0, name)
    decreases |syms|
  {
    if k == |syms| {
      assert syms[..k] == syms;
    } else {
      var n := |syms| - 1;
      var rest, s, u, v := syms[..n], syms[n], AbsorbAll(t, syms[..n], c).0, AbsorbAll(t, syms, c).0;
      assert rest[..k] == syms[..k];
      forall j | k <= j < n ensures !Defines(rest, name, j) { assert !Defines(syms, name, j); }
      NoDefinition(t, rest, c, name, k);
      AbsorbAllGrows(t, rest, c);
      if s.ext {
        AbsorbGrows(u, Symreloc(s, c));
        NameStays(u, v, name);
        assert !Defines(syms, name, n);
        FindIs(u, Find(u, name));
      }
    }
  }

  /** One step keeps an undefined name undefined unless its module is kept and defines it. */
  lemma StepLeaves(st: State, o: Object, lib: bool, name: string)
    requires Good(st) && Undefined(st.table, name) && !Load(st, o, lib).1.Fatal?
    requires Load(st, o, lib).1.Kept? ==> forall j :: 0 <= j < |o.syms| ==> !Defines(o.syms, name, j)
    ensures Undefined(Load(st, o, lib).0.table, name)
  {
    var t, c, t' := st.table, PassRel(st, o), Load(st, o, lib).0.table;
    LoadStaysGood(st, o, lib);
    if Load(st, o, lib).1.Kept? {
      assert AbsorbAll(t, o.syms[..0], c).0 == t;
      NoDefinition(t, o.syms, c, name, 0);
    } else if o.syms != [] {
      AbsorbAllGrows(t, o.syms, c);
      BackedOut(t, o.syms, c, st.next);
      NameStays(t, t', name);
      assert RaisedAt(t, t', Find(t, name));
    }
  }

  /** Nothing visited defines the name. */
  ghost predicate NobodyDefines(v: seq<Object>, from: nat, name: string) {
    forall m, j :: from <= m < |v| && 0 <= j < |v[m].syms| ==> !Defines(v[m].syms, name, j)
  }

  lemma {:induction false} VisitedGrows(pre: seq<Item>, post: seq<Item>)
    ensures Run(pre).visited <= Run(pre + post).visited
  {
    if post == [] {
      assert pre + post == pre;
    } else {
      var n := |post| - 1;
      assert (pre + post)[..|pre + post| - 1] == pre + post[..n];
      VisitedGrows(pre, post[..n]);
    }
  }

  lemma OneMoreLeaves(most: seq<Item>, s: Item, name: string)
    requires Undefined(Run(most).table, name) && !Load(Run(most), s.o, s.lib).1.Fatal?
    requires NobodyDefines(Run(most + [s]).visited, |Run(most).visited|, name)
    ensures Undefined(Run(most + [s]).table, name)
  {
    RunMore(most, s);
    RunGood(most);
    var st := Run(most);
    if Load(st, s.o, s.lib).1.Kept? {
      assert Run(most + [s]).visited[|st.visited|] == s.o;
    }
    StepLeaves(st, s.o, s.lib, name);
  }

  /** A name undefined at some point of a run stays so if no module kept from there on defines it. */
  lemma {:induction false} RunLeaves(pre: seq<Item>, post: seq<Item>, name: string)
    requires Smooth(pre + post) && Undefined(Run(pre).table, name)
    requires NobodyDefines(Run(pre + post).visited, |Run(pre).visited|, name)
    ensures Undefined(Run(pre + post).table, name)
  {
    if post == [] {
      assert pre + post == pre;
    } else {
      var n := |post| - 1;
      var most, s := pre + post[..n], post[n];
      assert pre + post == most + [s];
      RunMore(most, s);
      SmoothPrefix(pre + post, |most|);
      assert !OutcomeOf(pre + post, |most|).Fatal?;
      VisitedGrows(pre, post[..n]);
      VisitedGrows(most, [s]);
      RunLeaves(pre, post[..n], name);
      OneMoreLeaves(most, s, name);
    }
  }

  lemma {:induction false} RunGrows(pre: seq<Item>, post: seq<Item>)
    ensures Grows(Run(pre).table, Run(pre + post).table)
  {
    if post == [] {
      assert pre + post == pre;
    } else {
      var n := |post| - 1;
      assert (pre + post)[..|pre + post| - 1] == pre + post[..n];
      RunGrows(pre, post[..n]);
      RunGood(pre + post[..n]);
      LoadStaysGood(Run(pre + post[..n]), post[n].o, post[n].lib);
      GrowsTrans(Run(pre).table, Run(pre + post[..n]).table, Run(pre + post).table);
    }
  }

  /** Symbol k of a module is a text definition that comes when its name already has a size. */
  ghost predicate Overruled(pre: seq<Item>, s: Item, k: nat)
    requires k < |s.o.syms|
  {
    var name := s.o.syms[k].name;
    s.o.syms[k].kind.Text? && (Sized(pre, |pre|, name) || Asks(s.o.syms, name, k))
  }

  /** An entry nobody has defined is undefined. */
  lemma NotDefinedYet(st: State, syms: seq<Nlist>, c: Rel, name: string)
    requires Good(st) && Clean(st) && NobodyDefines(st.visited, 0, name)
    requires forall j :: 0 <= j < |syms| ==> !Defines(syms, name, j)
    ensures var u := AbsorbAll(st.table, syms, c).0; Find(u, name) >= 0 ==> Undefined(u, name)
  {
    var t, u := st.table, AbsorbAll(st.table, syms, c).0;
    AllAccounted(t, syms, c);
    AbsorbAllGrows(t, syms, c);
    var i := Find(u, name);
    if i >= 0 && !u[i].kind.Undf? {
      assert Accounted(t, u, syms, c, i);
      if i < |t| && u[i] == t[i] {
        assert HasOrigin(t[i], st.visited);
        var m, k :| 0 <= m < |st.visited| && 0 <= k < |st.visited[m].syms| && ComesFrom(t[i], st.visited, m, k);
        assert Defines(st.visited[m].syms, name, k);
      } else {
        var k :| 0 <= k < |syms| && MadeBy(u[i], syms, c, k);
        assert Defines(syms, name, k);
      }
    }
  }

  /** Right after its module's symbol k, the name is undefined exactly when a size overruled the definition. */
  lemma AtItsModule(pre: seq<Item>, s: Item, c: Rel, k: nat)
    requires Smooth(pre) && k < |s.o.syms| && Defines(s.o.syms, s.o.syms[k].name, k)
    requires NobodyDefines(Run(pre).visited, 0, s.o.syms[k].name)
    requires forall j :: 0 <= j < k ==> !Defines(s.o.syms, s.o.syms[k].name, j)
    ensures var w := AbsorbAll(Run(pre).table, s.o.syms[..k + 1], c).0;
      Find(w, s.o.syms[k].name) >= 0 && (Undefined(w, s.o.syms[k].name) <==> Overruled(pre, s, k))
  {
    var t, syms, name := Run(pre).table, s.o.syms, s.o.syms[k].name;
    var front := syms[..k];
    var v := AbsorbAll(t, front, c).0;
    assert syms[..k + 1][..k] == front;
    RunGood(pre);
    SmoothClean(pre);
    SizedIs(pre, name);
    AbsorbAllGrows(t, front, c);
    forall j | 0 <= j < k ensures !Defines(front, name, j) { assert !Defines(syms, name, j); }
    NotDefinedYet(Run(pre), front, c, name);
    AsksFront(syms, name, k);
    if Sized(pre, |pre|, name) {
      SizedIsMentioned(pre, |pre|, name);
    }
    KeptSizes(t, front, c, name);
    if Find(v, name) < 0 {
      NotThere(t, front, c, name);
    }
    AbsorbGrows(v, Symreloc(syms[k], c));
    AbsorbedAt(v, Symreloc(syms[k], c));
  }

  lemma AsksFront(syms: seq<Nlist>, name: string, k: nat)
    requires k <= |syms|
    ensures Asks(syms[..k], name, k) <==> Asks(syms, name, k)
  {
    if Asks(syms, name, k) {
      var j :| 0 <= j < k && AsksAt(syms, name, j);
      assert AsksAt(syms[..k], name, j);
    }
    if Asks(syms[..k], name, k) {
      var j :| 0 <= j < k && AsksAt(syms[..k], name, j);
      assert AsksAt(syms, name, j);
    }
  }

  /** A definition leaves the name undefined only if it is in text and the name has a size. */
  lemma AbsorbedAt(t: seq<Sym>, e: Sym)
    requires GoodTable(t) && GoodSym(e) && !e.kind.Undf?
    ensures var u := Absorb(t, e).0;
      && Find(u, e.name) >= 0
      && (Undefined(u, e.name) <==> Undefined(t, e.name) && e.kind.Text? && HasSize(t, e.name))
  {
    var u := Absorb(t, e).0;
    AbsorbGrows(t, e);
    FindIs(u, if Find(t, e.name) < 0 then |t| else Find(t, e.name));
  }

  /** No module but m, and it only in symbol k, defines the name. */
  ghost predicate OnlyAt(v: seq<Object>, name: string, m: nat, k: nat) {
    forall n, j :: 0 <= n < |v| && 0 <= j < |v[n].syms| && Defines(v[n].syms, name, j) ==> n == m && j == k
  }

  /** The symbols after the only definition of a name leave it as it is. */
  lemma RestOfModule(t: seq<Sym>, syms: seq<Nlist>, c: Rel, name: string, k: nat)
    requires GoodTable(t) && k <= |syms| && Find(AbsorbAll(t, syms[..k], c).0, name) >= 0
    requires forall j :: k <= j < |syms| ==> !Defines(syms, name, j)
    ensures var w, u := AbsorbAll(t, syms[..k], c).0, AbsorbAll(t, syms, c).0;
      Find(u, name) >= 0 && (Undefined(u, name) <==> Undefined(w, name))
  {
    var w, u := AbsorbAll(t, syms[..k], c).0, AbsorbAll(t, syms, c).0;
    PrefixGrows(t, syms, c, k);
    AbsorbAllGrows(t, syms, c);
    NameStays(w, u, name);
    if Undefined(w, name) {
      NoDefinition(t, syms, c, name, k);
    } else {
      DefinedStays(w, u, name);
    }
  }

  /** The same after the whole module. */
  lemma AfterItsModule(pre: seq<Item>, s: Item, k: nat)
    requires Smooth(pre) && Load(Run(pre), s.o, s.lib).1.Kept?
    requires k < |s.o.syms| && Defines(s.o.syms, s.o.syms[k].name, k)
    requires NobodyDefines(Run(pre).visited, 0, s.o.syms[k].name)
    requires forall j :: 0 <= j < |s.o.syms| && j != k ==> !Defines(s.o.syms, s.o.syms[k].name, j)
    ensures var u := Load(Run(pre), s.o, s.lib).0.table;
      Find(u, s.o.syms[k].name) >= 0 && (Undefined(u, s.o.syms[k].name) <==> Overruled(pre, s, k))
  {
    var st, syms, name := Run(pre), s.o.syms, s.o.syms[k].name;
    var c := PassRel(st, s.o);
    RunGood(pre);
    AtItsModule(pre, s, c, k);
    RestOfModule(st.table, syms, c, name, k + 1);
  }

  /** At the end of the run its entry is undefined exactly when its definition was overruled. */
  lemma AtTheEnd(pre: seq<Item>, s: Item, post: seq<Item>, k: nat)
    requires Smooth(pre + ([s] + post)) && Load(Run(pre), s.o, s.lib).1.Kept?
    requires k < |s.o.syms| && Defines(s.o.syms, s.o.syms[k].name, k)
    requires OnlyAt(Run(pre + ([s] + post)).visited, s.o.syms[k].name, |Run(pre).visited|, k)
    ensures var v := Run(pre + ([s] + post)).visited; |v| > |Run(pre).visited| && v[|Run(pre).visited|] == s.o
    ensures var t := Run(pre + ([s] + post)).table;
      Find(t, s.o.syms[k].name) >= 0 && (Undefined(t, s.o.syms[k].name) <==> Overruled(pre, s, k))
  {
    var mid, all, name := pre + [s], pre + ([s] + post), s.o.syms[k].name;
    assert all == mid + post;
    RunMore(pre, s);
    VisitedGrows(mid, post);
    SmoothPrefix(all, |pre|);
    assert all[..|pre|] == pre;
    OnlyHere(Run(all).visited, Run(pre).visited, s.o, name, k);
    AfterItsModule(pre, s, k);
    RestOfRun(mid, post, name);
  }

  lemma RestOfRun(mid: seq<Item>, post: seq<Item>, name: string)
    requires Smooth(mid + post) && Find(Run(mid).table, name) >= 0
    requires NobodyDefines(Run(mid + post).visited, |Run(mid).visited|, name)
    ensures var t := Run(mid + post).table;
      Find(t, name) >= 0 && (Undefined(t, name) <==> Undefined(Run(mid).table, name))
  {
    RunGood(mid);
    RunGood(mid + post);
    RunGrows(mid, post);
    NameStays(Run(mid).table, Run(mid + post).table, name);
    if Undefined(Run(mid).table, name) {
      RunLeaves(mid, post, name);
    } else {
      DefinedStays(Run(mid).table, Run(mid + post).table, name);
    }
  }

  lemma OnlyHere(all: seq<Object>, before: seq<Object>, o: Object, name: string, k: nat)
    requires before + [o] <= all && k < |o.syms| && OnlyAt(all, name, |before|, k)
    ensures NobodyDefines(before, 0, name) && NobodyDefines(all, |before| + 1, name)
    ensures forall j :: 0 <= j < |o.syms| && j != k ==> !Defines(o.syms, name, j)
  {
    forall m, j | 0 <= m < |before| && 0 <= j < |before[m].syms| ensures !Defines(before[m].syms, name, j) {
      assert all[m] == before[m];
    }
    assert all[|before|] == o;
  }

  /**
   A symbol no other module defines is reported as multiply defined exactly when
   some module before it, kept or not, or its own module had given the name a size
   and it is in text, or when it lies in bss behind a plain file with bss but no
   symbols.
   */
  lemma SoleDefinitionAccepted(pre: seq<Item>, s: Item, post: seq<Item>, o: Opts, k: nat)
    requires Smooth(pre + ([s] + post)) && Load(Run(pre), s.o, s.lib).1.Kept?
    requires k < |s.o.syms| && Defines(s.o.syms, s.o.syms[k].name, k)
    requires OnlyAt(Run(pre + ([s] + post)).visited, s.o.syms[k].name, |Run(pre).visited|, k)
    ensures var st, m := Run(pre + ([s] + post)), |Run(pre).visited|;
      && m < |st.visited| && st.visited[m] == s.o
      && (Check(st, o, m, k).MultiplyDefined? <==>
           Overruled(pre, s, k) || (s.o.syms[k].kind.Bss? && !BssCounted(st.visited, m)))
  {
    var all, m := pre + ([s] + post), |Run(pre).visited|;
    AtTheEnd(pre, s, post, k);
    RunGood(all);
    SmoothClean(all);
    SoleDefinition(Run(all), o, m, k);
  }

  // ---- Runs in which the passes disagree ---------------------------------

  lemma NoSteps() returns (none: seq<Item>)
    ensures none == [] && Smooth(none) && Run(none) == START
  {
    none := [];
  }

  /** One plain file. */
  lemma OneFile(a: Object) returns (pre: seq<Item>)
    requires !OddSizes(a) && (a.syms == [] ==> a.text == a.data == 0)
    ensures |pre| == 1 && pre[0] == Item(a, false) && Run(pre) == Load(START, a, false).0
    ensures OutcomeOf(pre, 0) == Load(START, a, false).1 && Smooth(pre) && Run(pre).visited == [a]
  {
    var s := Item(a, false);
    var none := NoSteps();
    pre := none + [s];
    FirstFile(a);
    StaysSmooth(none, s);
    RunMore(none, s);
  }

  /** Two plain files in a row. */
  lemma TwoFiles(a: Object, b: Object) returns (pre: seq<Item>, steps: seq<Item>)
    requires !OddSizes(a) && (a.syms == [] ==> a.text == a.data == 0) && !OddSizes(b) && b.syms != []
    ensures |pre| == 1 && pre[0] == Item(a, false) && Run(pre) == Load(START, a, false).0
    ensures OutcomeOf(pre, 0) == Load(START, a, false).1
    ensures steps == pre + [Item(b, false)] && Smooth(pre) && Smooth(steps)
    ensures Load(Run(pre), b, false).1.Kept? && Run(steps) == Load(Run(pre), b, false).0 && Run(steps).visited == [a, b]
  {
    pre := OneFile(a);
    steps := OneFileMore(pre, b);
    assert Run(steps).visited == [a] + [b];
  }

  lemma OneFileMore(pre: seq<Item>, b: Object) returns (steps: seq<Item>)
    requires Smooth(pre) && !OddSizes(b) && b.syms != []
    ensures steps == pre + [Item(b, false)] && Smooth(steps) && Load(Run(pre), b, false).1.Kept?
    ensures Run(steps) == Load(Run(pre), b, false).0 && Run(steps).visited == Run(pre).visited + [b]
  {
    var s := Item(b, false);
    SmoothClean(pre);
    NextFile(Run(pre), b);
    StaysSmooth(pre, s);
    RunMore(pre, s);
    steps := pre + [s];
  }

  lemma FirstFile(a: Object)
    requires !OddSizes(a) && (a.syms == [] ==> a.text == a.data == 0)
    ensures var (st, r) := Load(START, a, false);
      !r.Fatal? && st.visited == [a] && (r.Dropped? ==> ExtNames(a.syms) == {})
  {
  }

  lemma NextFile(st: State, b: Object)
    requires !Stale(st) && !OddSizes(b) && b.syms != []
    ensures var (st', r) := Load(st, b, false); r.Kept? && st'.visited == st.visited + [b]
  {
  }

  /**
   A plain file with bss and nothing else in front of a symbol in bss: the program's bss
   is declared too small, and the symbol, which the passes give different addresses, is
   reported as multiply defined though nothing else defines it.
   */
  lemma BssFirst(a: Object, b: Object, name: string, value: nat, o: Opts) returns (steps: seq<Item>)
    requires a.syms == [] && a.text == a.data == 0 && a.bss > 0
    requires !OddSizes(b) && b.syms == [Nlist(name, true, Bss, value)]
    ensures Smooth(steps) && Run(steps).visited == [a, b] && OnlyAt(Run(steps).visited, name, 1, 0)
    ensures Check(Run(steps), o, 1, 0).MultiplyDefined?
    ensures var st := Run(steps); var l := LayoutOf(st, o);
      l.corigin + (st.bsize + l.csize) < l.borigin + BssAll(st.visited)
  {
    var pre;
    pre, steps := TwoFiles(a, b);
    RunGood(steps);
    var st := Run(steps);
    assert !BssCounted(st.visited, 1) && !BssCounted(st.visited, 2) by {
      assert st.visited[0].syms == [];
    }
    assert pre + ([Item(b, false)] + []) == steps;
    SoleDefinitionAccepted(pre, Item(b, false), [], o, 0);
    BssFitsIff(st, o);
  }

  /** A file that asks for a name as a common in front of the file that defines it in text. */
  lemma CommonFirst(a: Object, b: Object, name: string, size: nat, value: nat, o: Opts) returns (steps: seq<Item>)
    requires !OddSizes(a) && a.syms == [Nlist(name, true, Undf, size)] && size > 0
    requires !OddSizes(b) && b.syms == [Nlist(name, true, Text, value)]
    ensures Smooth(steps) && Run(steps).visited == [a, b] && OnlyAt(Run(steps).visited, name, 1, 0)
    ensures Check(Run(steps), o, 1, 0).MultiplyDefined?
  {
    var pre;
    pre, steps := TwoFiles(a, b);
    var s := Item(b, false);
    assert pre + ([s] + []) == steps;
    var st := OneSymbolFile(START, a);
    assert Sized(pre, 1, name) by {
      assert AsksAt(a.syms, name, 0);
      assert SizedAt(pre, 0, name);
    }
    SoleDefinitionAccepted(pre, s, [], o, 0);
  }

  /**
   Two members dropped before the first symbol: the second one's definition stays, and
   the only real definition of the name is then reported as multiply defined.
   */
  lemma PhantomFirst(a: Object, b: Object, d: Object, name: string, o: Opts) returns (steps: seq<Item>)
    requires !OddSizes(a) && |a.syms| == 1 && a.syms[0].ext
    requires !OddSizes(b) && b.syms == [Nlist(name, true, Data, 0)]
    requires !OddSizes(d) && d.syms == [Nlist(name, true, Text, 0)]
    ensures steps == [Item(a, true), Item(b, true), Item(d, false)] && Good(Run(steps)) && Run(steps).visited == [d]
    ensures Check(Run(steps), o, 0, 0).MultiplyDefined?
  {
    var none := NoSteps();
    var one := none + [Item(a, true)];
    var two := one + [Item(b, true)];
    steps := two + [Item(d, false)];
    RunMore(none, Item(a, true));
    RunMore(one, Item(b, true));
    RunMore(two, Item(d, false));
    var st := PhantomDefinition(a, b);
    RunGood(steps);
    KeepsDefinition(Run(two), d, name);
    FindIs(Run(steps).table, 0);
  }

  /** A plain file that defines a name the table holds as data changes nothing there. */
  lemma KeepsDefinition(st: State, d: Object, name: string)
    requires !OddSizes(d) && d.syms == [Nlist(name, true, Text, 0)] && |st.table| == 1 && !Stale(st)
    requires st.table[0].name == name && st.table[0].kind == Data
    ensures Load(st, d, false).1.Kept? && Load(st, d, false).0.table == st.table
    ensures Load(st, d, false).0.visited == st.visited + [d]
  {
    OneSymbol(st.table, d.syms[0], PassRel(st, d));
    assert st.table[0 := st.table[0]] == st.table;
  }
}
