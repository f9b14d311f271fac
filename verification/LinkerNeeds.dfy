/**
 What a module's symbols find in the table and leave there: sizes of undefined
 symbols, and when the module counts as defining something.
 */
module LinkerNeeds {
  import opened LinkerModel

  // ---- Sizes of undefined symbols ----------------------------------------

  /** One of the first n symbols asks for the name as a common. */
  ghost predicate Asks(syms: seq<Nlist>, name: string, n: nat)
    requires n <= |syms|
  {
    exists j :: 0 <= j < n && AsksAt(syms, name, j)
  }

  predicate AsksAt(syms: seq<Nlist>, name: string, j: nat)
    requires j < |syms|
  {
    syms[j].ext && syms[j].kind.Undf? && syms[j].name == name && syms[j].value > 0
  }

  predicate HasSize(t: seq<Sym>, name: string) {
    var i := Find(t, name);
    i >= 0 && t[i].kind.Undf? && t[i].value > 0
  }

  /** A module's symbols give an undefined name a size exactly when one of them asks for it. */
  lemma {:induction false} SizeAfter(t: seq<Sym>, syms: seq<Nlist>, c: Rel, name: string)
    requires GoodTable(t) && Undefined(AbsorbAll(t, syms, c).0, name)
    ensures HasSize(AbsorbAll(t, syms, c).0, name) <==> HasSize(t, name) || Asks(syms, name, |syms|)
  {
    if syms != [] {
      var n := |syms| - 1;
      var rest, s, u, v := syms[..n], syms[n], AbsorbAll(t, syms[..n], c).0, AbsorbAll(t, syms, c).0;
      AbsorbAllGrows(t, rest, c);
      AbsorbAllGrows(t, syms, c);
      AsksMore(syms, name, n);
      if s.ext {
        AbsorbGrows(u, Symreloc(s, c));
      }
      if Find(u, name) >= 0 {
        NameStays(u, v, name);
        if s.ext {
          assert StepsTo(u, v, Find(u, name));
        }
        SizeAfter(t, rest, c, name);
      } else {
        NotThere(t, rest, c, name);
      }
    }
  }

  lemma AsksMore(syms: seq<Nlist>, name: string, n: nat)
    requires n + 1 == |syms|
    ensures Asks(syms, name, n + 1) <==> Asks(syms[..n], name, n) || AsksAt(syms, name, n)
  {
    if Asks(syms, name, n + 1) {
      var j :| 0 <= j < n + 1 && AsksAt(syms, name, j);
      assert j < n ==> AsksAt(syms[..n], name, j);
    }
    if Asks(syms[..n], name, n) {
      var j :| 0 <= j < n && AsksAt(syms[..n], name, j);
      assert AsksAt(syms, name, j);
    }
  }

  /** A name not in the table afterwards was not asked for, and not there before. */
  lemma NotThere(t: seq<Sym>, syms: seq<Nlist>, c: Rel, name: string)
    requires GoodTable(t) && Find(AbsorbAll(t, syms, c).0, name) < 0
    ensures Find(t, name) < 0 && !Asks(syms, name, |syms|) && name !in ExtNames(syms)
  {
    var u := AbsorbAll(t, syms, c).0;
    AbsorbAllGrows(t, syms, c);
    AbsorbAllSettles(t, syms, c);
    if Find(t, name) >= 0 {
      NameStays(t, u, name);
    }
    forall j | 0 <= j < |syms| && syms[j].ext ensures syms[j].name != name {
      assert SettledAt(u, syms, j);
    }
  }

  lemma ThereIff(t: seq<Sym>, syms: seq<Nlist>, c: Rel, name: string)
    requires GoodTable(t)
    ensures Find(AbsorbAll(t, syms, c).0, name) >= 0 <==> Find(t, name) >= 0 || name in ExtNames(syms)
  {
    if Find(AbsorbAll(t, syms, c).0, name) < 0 {
      NotThere(t, syms, c, name);
    } else if name !in ExtNames(syms) {
      OthersKept(t, syms, c, name);
    }
  }

  /** What a module's symbols make of a name. */
  lemma KeptSizes(t: seq<Sym>, syms: seq<Nlist>, c: Rel, name: string)
    requires GoodTable(t)
    ensures var u := AbsorbAll(t, syms, c).0;
      && (Find(u, name) >= 0 <==> Find(t, name) >= 0 || name in ExtNames(syms))
      && (Undefined(u, name) && Find(t, name) >= 0 ==> Undefined(t, name))
      && (Undefined(u, name) ==> (HasSize(u, name) <==> HasSize(t, name) || Asks(syms, name, |syms|)))
  {
    var u := AbsorbAll(t, syms, c).0;
    ThereIff(t, syms, c, name);
    AbsorbAllGrows(t, syms, c);
    if Undefined(u, name) {
      SizeAfter(t, syms, c, name);
      if Find(t, name) >= 0 {
        NameStays(t, u, name);
        assert StepsTo(t, u, Find(t, name));
      }
    }
  }

  /** A module that asks for a name mentions it. */
  lemma AskedIsNamed(syms: seq<Nlist>, name: string)
    requires Asks(syms, name, |syms|)
    ensures name in ExtNames(syms)
  {
    var j :| 0 <= j < |syms| && AsksAt(syms, name, j);
    assert syms[j].name in ExtNames(syms);
  }

  lemma {:induction false} PrefixGrows(t: seq<Sym>, syms: seq<Nlist>, c: Rel, k: nat)
    requires GoodTable(t) && k <= |syms|
    ensures GoodTable(AbsorbAll(t, syms[..k], c).0) && Grows(AbsorbAll(t, syms[..k], c).0, AbsorbAll(t, syms, c).0)
    decreases |syms|
  {
    AbsorbAllGrows(t, syms[..k], c);
    if k == |syms| {
      assert syms[..k] == syms;
    } else {
      var n := |syms| - 1;
      assert syms[..n][..k] == syms[..k];
      PrefixGrows(t, syms[..n], c, k);
      AbsorbAllGrows(t, syms[..n], c);
      if syms[n].ext {
        AbsorbGrows(AbsorbAll(t, syms[..n], c).0, Symreloc(syms[n], c));
        GrowsTrans(AbsorbAll(t, syms[..k], c).0, AbsorbAll(t, syms[..n], c).0, AbsorbAll(t, syms, c).0);
      }
    }
  }

  // ---- When a module defines something -----------------------------------

  /** Symbol k is the module's first external one of its name. */
  ghost predicate FirstMention(syms: seq<Nlist>, k: nat)
    requires k < |syms|
  {
    syms[k].ext && forall i :: 0 <= i < k && syms[i].ext ==> syms[i].name != syms[k].name
  }

  /** The first of symbols 0 to k-1 that mentions the name lists it as undefined. */
  ghost predicate OpenedBefore(syms: seq<Nlist>, name: string, k: nat)
    requires k <= |syms|
  {
    exists j :: 0 <= j < k && Opens(syms, name, j)
  }

  ghost predicate Opens(syms: seq<Nlist>, name: string, j: nat)
    requires j < |syms|
  {
    FirstMention(syms, j) && syms[j].name == name && syms[j].kind.Undf?
  }

  /** The name is undefined in the table, or the module itself makes it so before symbol k. */
  ghost predicate Awaited(t: seq<Sym>, syms: seq<Nlist>, name: string, k: nat)
    requires k <= |syms|
  {
    if Find(t, name) >= 0 then Undefined(t, name) else OpenedBefore(syms, name, k)
  }

  /** Symbol k defines a name awaited by then, which for a symbol in text has no size by then. */
  ghost predicate Resolves(t: seq<Sym>, syms: seq<Nlist>, k: nat)
    requires k < |syms|
  {
    var name := syms[k].name;
    && Defines(syms, name, k) && Awaited(t, syms, name, k)
    && (syms[k].kind.Text? ==> !HasSize(t, name) && !Asks(syms, name, k))
  }

  ghost predicate SomeResolves(t: seq<Sym>, syms: seq<Nlist>, n: nat)
    requires n <= |syms|
  {
    exists k :: 0 <= k < n && Resolves(t, syms, k)
  }

  lemma AsksFront(syms: seq<Nlist>, name: string, k: nat)
    requires k <= |syms|
    ensures Asks(syms[..k], name, k) <==> Asks(syms, name, k)
  {
    if Asks(syms, name, k) {
      var j :| 0 <= j < k && AsksAt(syms, name, j);
      assert AsksAt(syms[..k], name, j);
    }
    if Asks(syms[..k], name, k) {
      var j :| 0 <= j < k && AsksAt(syms[..k], name, j);
      assert AsksAt(syms, name, j);
    }
  }

  lemma OpenedFront(syms: seq<Nlist>, name: string, k: nat, n: nat)
    requires k <= n <= |syms|
    ensures OpenedBefore(syms[..n], name, k) <==> OpenedBefore(syms, name, k)
  {
    if OpenedBefore(syms, name, k) {
      var j :| 0 <= j < k && Opens(syms, name, j);
      assert Opens(syms[..n], name, j);
    }
    if OpenedBefore(syms[..n], name, k) {
      var j :| 0 <= j < k && Opens(syms[..n], name, j);
      assert Opens(syms, name, j);
    }
  }

  lemma ResolvesFront(t: seq<Sym>, syms: seq<Nlist>, k: nat, n: nat)
    requires k < n <= |syms|
    ensures Resolves(t, syms[..n], k) <==> Resolves(t, syms, k)
  {
    var name := syms[k].name;
    OpenedFront(syms, name, k, n);
    AsksFront(syms, name, k);
    AsksFront(syms[..n], name, k);
    assert syms[..n][..k] == syms[..k];
  }

  /** As long as nothing has been defined, the entries are those of the table before and the first mentions. */
  lemma {:induction false} AwaitedIs(t: seq<Sym>, syms: seq<Nlist>, c: Rel, name: string)
    requires GoodTable(t) && AbsorbAll(t, syms, c).1 == 0
    ensures Undefined(AbsorbAll(t, syms, c).0, name) <==> Awaited(t, syms, name, |syms|)
  {
    if syms != [] {
      var n := |syms| - 1;
      var rest, s, u, v := syms[..n], syms[n], AbsorbAll(t, syms[..n], c).0, AbsorbAll(t, syms, c).0;
      AwaitedIs(t, rest, c, name);
      OpenedFront(syms, name, n, n);
      AbsorbAllGrows(t, rest, c);
      ThereIff(t, rest, c, name);
      if s.ext && s.name == name {
        AbsorbGrows(u, Symreloc(s, c));
        FindIs(v, if Find(u, name) < 0 then |u| else Find(u, name));
        FirstIff(syms, n);
        assert Opens(syms, name, n) <==> FirstMention(syms, n) && s.kind.Undf?;
      } else {
        if s.ext {
          AbsorbOther(u, Symreloc(s, c), name);
        }
        assert !Opens(syms, name, n);
      }
      assert OpenedBefore(syms, name, n + 1) <==> OpenedBefore(syms, name, n) || Opens(syms, name, n);
    }
  }

  lemma FirstIff(syms: seq<Nlist>, k: nat)
    requires k < |syms| && syms[k].ext
    ensures FirstMention(syms, k) <==> syms[k].name !in ExtNames(syms[..k])
  {
    var rest := syms[..k];
    forall i | 0 <= i < k && syms[i].ext ensures syms[i].name in ExtNames(rest) {
      assert rest[i].name in ExtNames(rest);
    }
  }

  /** ndef: a module defines something exactly when one of its symbols resolves an awaited name. */
  lemma {:induction false} DefinesIff(t: seq<Sym>, syms: seq<Nlist>, c: Rel)
    requires GoodTable(t)
    ensures AbsorbAll(t, syms, c).1 > 0 <==> SomeResolves(t, syms, |syms|)
  {
    if syms != [] {
      var n := |syms| - 1;
      var rest, s := syms[..n], syms[n];
      var (u, m) := AbsorbAll(t, rest, c);
      DefinesIff(t, rest, c);
      forall k | 0 <= k < n ensures Resolves(t, rest, k) <==> Resolves(t, syms, k) {
        ResolvesFront(t, syms, k, n);
      }
      assert SomeResolves(t, syms, n + 1) <==> SomeResolves(t, rest, n) || Resolves(t, syms, n);
      if m == 0 && s.ext {
        AbsorbAllGrows(t, rest, c);
        AwaitedIs(t, rest, c, s.name);
        OpenedFront(syms, s.name, n, n);
        KeptSizes(t, rest, c, s.name);
        AsksFront(syms, s.name, n);
      }
    }
  }

  /** And a name so resolved is defined afterwards. */
  lemma ResolvedIsDefined(t: seq<Sym>, syms: seq<Nlist>, c: Rel, k: nat)
    requires GoodTable(t) && k < |syms| && Resolves(t, syms, k)
    ensures var u := AbsorbAll(t, syms, c).0; Find(u, syms[k].name) >= 0 && !Undefined(u, syms[k].name)
  {
    var front, name := syms[..k + 1], syms[k].name;
    var w := AbsorbAll(t, front, c).0;
    AbsorbAllSettles(t, front, c);
    assert SettledAt(w, front, k);
    KeptSizes(t, front, c, name);
    AsksMore(front, name, k);
    assert front[..k] == syms[..k];
    AsksFront(syms, name, k);
    PrefixGrows(t, syms, c, k + 1);
    AbsorbAllGrows(t, syms, c);
    DefinedStays(w, AbsorbAll(t, syms, c).0, name);
  }

  // ---- What a module makes of an empty table -----------------------------

  /** The place in the table of the module's first mention of a name, when the table was empty. */
  ghost function PlaceOf(syms: seq<Nlist>, k: nat): nat
    requires k <= |syms|
  {
    |ExtNames(syms[..k])|
  }

  lemma {:induction false} NamesCount(t: seq<Sym>)
    requires DistinctNames(t)
    ensures |Names(t)| == |t|
  {
    if t != [] {
      var n := |t| - 1;
      NamesCount(t[..n]);
      assert Names(t) == Names(t[..n]) + {t[n].name};
    }
  }

  /** The table then has as many entries as the module has external names. */
  lemma FilledBy(syms: seq<Nlist>, c: Rel)
    ensures var u := AbsorbAll([], syms, c).0; GoodTable(u) && |u| == |ExtNames(syms)|
  {
    var u := AbsorbAll([], syms, c).0;
    AbsorbAllGrows([], syms, c);
    NamesCount(u);
    forall name ensures name in Names(u) <==> name in ExtNames(syms) {
      ThereIff([], syms, c, name);
      if Find(u, name) >= 0 {
        assert u[Find(u, name)].name in Names(u);
      }
    }
    assert Names(u) == ExtNames(syms);
  }

  /** Entry i is what the module's symbol k made, and still undefined exactly if it was. */
  ghost predicate Made(u: seq<Sym>, syms: seq<Nlist>, i: nat, k: nat)
    requires i < |u| && k < |syms|
  {
    && FirstMention(syms, k) && PlaceOf(syms, k) == i
    && u[i].name == syms[k].name && (u[i].kind.Undf? <==> syms[k].kind.Undf?)
  }

  /** One more symbol that defines nothing leaves older entries what they were. */
  lemma MadeStays(u: seq<Sym>, syms: seq<Nlist>, n: nat, c: Rel, i: nat, k: nat)
    requires n + 1 == |syms| && GoodTable(u) && i < |u| && k < n && Made(u, syms[..n], i, k)
    requires syms[n].ext ==> !Absorb(u, Symreloc(syms[n], c)).1
    ensures var v := if syms[n].ext then Absorb(u, Symreloc(syms[n], c)).0 else u; i < |v| && Made(v, syms, i, k)
  {
    assert syms[..n][..k] == syms[..k];
  }

  /** Before anything is defined the first mentions make the entries, each at its place. */
  lemma {:induction false} EntryMade(syms: seq<Nlist>, c: Rel, i: nat) returns (k: nat)
    requires AbsorbAll([], syms, c).1 == 0 && i < |AbsorbAll([], syms, c).0|
    ensures k < |syms| && Made(AbsorbAll([], syms, c).0, syms, i, k)
  {
    var n := |syms| - 1;
    var u := AbsorbAll([], syms[..n], c).0;
    FilledBy(syms[..n], c);
    if i < |u| {
      k := EntryMade(syms[..n], c, i);
      MadeStays(u, syms, n, c, i, k);
    } else {
      k := n;
      FirstIff(syms, n);
      ThereIff([], syms[..n], c, syms[n].name);
    }
  }

  lemma {:induction false} FirstMade(syms: seq<Nlist>, c: Rel, k: nat)
    requires AbsorbAll([], syms, c).1 == 0 && k < |syms| && FirstMention(syms, k)
    ensures var u := AbsorbAll([], syms, c).0; PlaceOf(syms, k) < |u| && Made(u, syms, PlaceOf(syms, k), k)
  {
    var n := |syms| - 1;
    var u := AbsorbAll([], syms[..n], c).0;
    FilledBy(syms[..n], c);
    assert syms[..n][..k] == syms[..k];
    if k < n {
      FirstMade(syms[..n], c, k);
      MadeStays(u, syms, n, c, PlaceOf(syms, k), k);
    } else {
      FirstIff(syms, n);
      ThereIff([], syms[..n], c, syms[n].name);
    }
  }

  /** Among the first n names of the module is one whose first mention defines it. */
  ghost predicate DefinesEarly(syms: seq<Nlist>, n: nat) {
    exists k :: 0 <= k < |syms| && FirstMention(syms, k) && !syms[k].kind.Undf? && PlaceOf(syms, k) < n
  }

  lemma DefinesEarlyIff(syms: seq<Nlist>, c: Rel, n: nat)
    requires AbsorbAll([], syms, c).1 == 0 && n <= |AbsorbAll([], syms, c).0|
    ensures DefinesEarly(syms, n) <==> exists i :: 0 <= i < n && !AbsorbAll([], syms, c).0[i].kind.Undf?
  {
    var u := AbsorbAll([], syms, c).0;
    if DefinesEarly(syms, n) {
      var k :| 0 <= k < |syms| && FirstMention(syms, k) && !syms[k].kind.Undf? && PlaceOf(syms, k) < n;
      FirstMade(syms, c, k);
      assert !u[PlaceOf(syms, k)].kind.Undf?;
    }
    if i :| 0 <= i < n && !u[i].kind.Undf? {
      var k := EntryMade(syms, c, i);
    }
  }
}
