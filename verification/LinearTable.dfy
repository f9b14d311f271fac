/**
 The symbol table of ld11: linear probing in one table with two buckets to spare,
 and the two places that back the newest symbols out of it.
 */
module LinearTable {
  import opened Arithmetic
  import SymbolHash

  const NSYM: nat := 1103
  const BUCKETS: nat := 1105

  datatype Entry = Entry(name: string, hash: nat)

  /** Symbols in order of entry, and the index (or -1) in every bucket. */
  datatype Tab = Tab(syms: seq<Entry>, buckets: seq<int>)

  /** The shift-and-add hash, cut to 15 bits. */
  function Hash(name: string): nat {
    SymbolHash.HashSum(name) % 0x8000
  }

  /** The k-th bucket inspected for a name. */
  function Slot(name: string, k: nat): (b: nat)
    ensures b < BUCKETS
  {
    (Hash(name) % NSYM + 2 + k) % BUCKETS
  }

  lemma SlotStep(name: string, k: nat)
    ensures Slot(name, k + 1) == if Slot(name, k) + 1 >= BUCKETS then 0 else Slot(name, k) + 1
  {
  }

  /** One round of probing meets every bucket. */
  lemma Reaches(name: string, b: nat) returns (k: nat)
    requires b < BUCKETS
    ensures k < BUCKETS && Slot(name, k) == b
  {
    var h := Hash(name) % NSYM + 2;
    k := if b >= h then b - h else b + BUCKETS - h;
  }

  predicate BucketOk(t: Tab, b: nat)
    requires b < |t.buckets|
  {
    -1 <= t.buckets[b] < |t.syms| && (t.buckets[b] >= 0 ==> t.syms[t.buckets[b]].hash == b)
  }

  /** The first k buckets for a name hold symbols older than s with other names. */
  ghost predicate OthersBefore(t: Tab, name: string, k: nat, s: nat)
    requires |t.buckets| == BUCKETS && s <= |t.syms|
  {
    forall i :: 0 <= i < k ==> 0 <= t.buckets[Slot(name, i)] < s && t.syms[t.buckets[Slot(name, i)]].name != name
  }

  ghost predicate SymOk(t: Tab, s: nat)
    requires s < |t.syms| && |t.buckets| == BUCKETS
  {
    var e := t.syms[s];
    && e.hash < BUCKETS && t.buckets[e.hash] == s
    && exists k :: 0 <= k < BUCKETS && e.hash == Slot(e.name, k) && OthersBefore(t, e.name, k, s)
  }

  ghost predicate Well(t: Tab) {
    && |t.buckets| == BUCKETS && |t.syms| <= NSYM
    && (forall b :: 0 <= b < BUCKETS ==> BucketOk(t, b))
    && (forall s :: 0 <= s < |t.syms| ==> SymOk(t, s))
  }

  // ---- lookup ------------------------------------------------------------

  /** Probing stops here for the name. */
  predicate Stops(t: Tab, name: string, k: nat)
    requires Well(t)
  {
    var i := t.buckets[Slot(name, k)];
    assert BucketOk(t, Slot(name, k));
    i < 0 || t.syms[i].name == name
  }

  /** The bucket lookup returns, from probe k on. */
  function Look(t: Tab, name: string, k: nat): (b: nat)
    requires Well(t)
    ensures b < BUCKETS
    decreases BUCKETS - k
  {
    if k >= BUCKETS || Stops(t, name, k) then Slot(name, k) else Look(t, name, k + 1)
  }

  lemma {:induction false} LookSkips(t: Tab, name: string, k: nat, n: nat)
    requires Well(t) && k <= n < BUCKETS && forall i :: k <= i < n ==> !Stops(t, name, i)
    ensures Look(t, name, k) == Look(t, name, n)
    decreases n - k
  {
    if k < n {
      LookSkips(t, name, k + 1, n);
    }
  }

  /** Every symbol in the table is found in its own bucket. */
  lemma LookFinds(t: Tab, s: nat)
    requires Well(t) && s < |t.syms|
    ensures Look(t, t.syms[s].name, 0) == t.syms[s].hash
  {
    var e := t.syms[s];
    assert SymOk(t, s);
    var k :| 0 <= k < BUCKETS && e.hash == Slot(e.name, k) && OthersBefore(t, e.name, k, s);
    LookSkips(t, e.name, 0, k);
  }

  /** With two buckets more than symbols, some bucket is always empty. */
  lemma SomeEmpty(t: Tab) returns (b: nat)
    requires Well(t)
    ensures b < BUCKETS && t.buckets[b] < 0
  {
    b := 0;
    if forall c :: 0 <= c < BUCKETS ==> t.buckets[c] >= 0 {
      var held := HeldIn(t, BUCKETS);
      SymbolHash.SetBound(held, |t.syms|);
    } else {
      b :| 0 <= b < BUCKETS && t.buckets[b] < 0;
    }
  }

  lemma {:induction false} HeldIn(t: Tab, n: nat) returns (held: set<int>)
    requires Well(t) && n <= BUCKETS && forall b :: 0 <= b < n ==> t.buckets[b] >= 0
    ensures |held| == n && forall s :: s in held ==> 0 <= s < |t.syms| && t.syms[s].hash < n
  {
    if n == 0 {
      held := {};
    } else {
      var before := HeldIn(t, n - 1);
      assert BucketOk(t, n - 1);
      held := before + {t.buckets[n - 1]};
    }
  }

  /** So lookup always stops, at the symbol or at an empty bucket. */
  lemma LookStops(t: Tab, name: string) returns (k: nat)
    requires Well(t)
    ensures k < BUCKETS && Stops(t, name, k) && (forall i :: 0 <= i < k ==> !Stops(t, name, i))
    ensures Look(t, name, 0) == Slot(name, k)
  {
    var b := SomeEmpty(t);
    var far := Reaches(name, b);
    k := 0;
    while !Stops(t, name, k)
      invariant k <= far && forall i :: 0 <= i < k ==> !Stops(t, name, i)
      decreases far - k
    {
      k := k + 1;
    }
    LookSkips(t, name, 0, k);
  }

  // ---- enter and back out ------------------------------------------------

  function Entered(t: Tab, e: Entry): Tab
    requires e.hash < |t.buckets|
  {
    Tab(t.syms + [e], t.buckets[e.hash := |t.syms|])
  }

  lemma StaysOk(t: Tab, e: Entry, s: nat)
    requires Well(t) && s < |t.syms| && e.hash < BUCKETS && t.buckets[e.hash] < 0
    ensures SymOk(Entered(t, e), s)
  {
    var x, u := t.syms[s], Entered(t, e);
    assert SymOk(t, s);
    var k :| 0 <= k < BUCKETS && x.hash == Slot(x.name, k) && OthersBefore(t, x.name, k, s);
    assert OthersBefore(u, x.name, k, s);
  }

  lemma NewOk(t: Tab, name: string)
    requires Well(t) && t.buckets[Look(t, name, 0)] < 0
    ensures SymOk(Entered(t, Entry(name, Look(t, name, 0))), |t.syms|)
  {
    var u := Entered(t, Entry(name, Look(t, name, 0)));
    var k := LookStops(t, name);
    forall i | 0 <= i < k
      ensures 0 <= u.buckets[Slot(name, i)] < |t.syms| && u.syms[u.buckets[Slot(name, i)]].name != name {
      assert BucketOk(t, Slot(name, i)) && !Stops(t, name, i);
    }
    assert OthersBefore(u, name, k, |t.syms|);
  }

  /** Entering an absent name where lookup stopped keeps every symbol findable. */
  lemma EnterWell(t: Tab, name: string)
    requires Well(t) && |t.syms| < NSYM && t.buckets[Look(t, name, 0)] < 0
    ensures Well(Entered(t, Entry(name, Look(t, name, 0))))
  {
    var e := Entry(name, Look(t, name, 0));
    var u := Entered(t, e);
    forall b | 0 <= b < BUCKETS ensures BucketOk(u, b) {
      assert BucketOk(t, b);
    }
    NewOk(t, name);
    forall s | 0 <= s < |u.syms| ensures SymOk(u, s) {
      if s < |t.syms| {
        StaysOk(t, e, s);
      }
    }
  }

  /** The table with only its first m symbols. */
  function Truncated(t: Tab, m: nat): Tab
    requires m <= |t.syms|
  {
    Tab(t.syms[..m],
      seq(|t.buckets|, b requires 0 <= b < |t.buckets| => if t.buckets[b] >= m then -1 else t.buckets[b]))
  }

  /** Backing out the newest symbols keeps every other one findable. */
  lemma TruncateWell(t: Tab, m: nat)
    requires Well(t) && m <= |t.syms|
    ensures Well(Truncated(t, m))
  {
    var u := Truncated(t, m);
    forall b | 0 <= b < BUCKETS ensures BucketOk(u, b) {
      assert BucketOk(t, b);
    }
    forall s | 0 <= s < m ensures SymOk(u, s) {
      assert SymOk(t, s);
      var e := t.syms[s];
      var k :| 0 <= k < BUCKETS && e.hash == Slot(e.name, k) && OthersBefore(t, e.name, k, s);
      assert OthersBefore(u, e.name, k, s);
    }
  }

  /** Entering then backing out to an older mark is backing out to that mark. */
  lemma TruncateEntered(t: Tab, e: Entry, m: nat)
    requires Well(t) && e.hash < BUCKETS && t.buckets[e.hash] < 0 && m <= |t.syms|
    ensures Truncated(Entered(t, e), m) == Truncated(t, m)
    ensures Truncated(t, |t.syms|) == t
  {
    forall b | 0 <= b < BUCKETS ensures t.buckets[b] < |t.syms| {
      assert BucketOk(t, b);
    }
    assert BucketOk(t, e.hash);
    assert Truncated(Entered(t, e), m).buckets == Truncated(t, m).buckets;
    assert Truncated(t, |t.syms|).buckets == t.buckets;
  }

  class ShortTable {
    const symtab: array<Entry>
    const hshtab: array<int>
    var next: nat

    ghost predicate Valid()
      reads this, symtab, hshtab
    {
      symtab.Length == NSYM && hshtab.Length == BUCKETS && next <= NSYM && Well(Contents())
    }

    ghost function Contents(): Tab
      reads this, symtab, hshtab
    {
      Tab(symtab[..if next <= symtab.Length then next else 0], hshtab[..])
    }

    constructor ()
      ensures Valid() && Contents() == Tab([], seq(BUCKETS, _ => -1)) && fresh(symtab) && fresh(hshtab)
    {
      symtab := new Entry[NSYM](_ => Entry("", 0));
      hshtab := new int[BUCKETS](_ => -1);
      next := 0;
      new;
      assert hshtab[..] == seq(BUCKETS, _ => -1);
    }

    /** Always comes to the symbol or to an empty bucket. */
    method Lookup(name: string) returns (hp: nat)
      requires Valid()
      ensures hp == Look(Contents(), name, 0) < BUCKETS
      ensures hshtab[hp] >= 0 <==> exists s :: 0 <= s < next && symtab[s].name == name
      ensures hshtab[hp] >= 0 ==> hshtab[hp] < next && symtab[hshtab[hp]].name == name
    {
      ghost var t := Contents();
      ghost var last := LookStops(t, name);
      ghost var k := 0;
      hp := SymbolHash.HashSum(name) % 0x8000 % NSYM + 2;
      assert hp == Slot(name, 0) by { assert (hp + 0) % BUCKETS == hp; }
      while hshtab[hp] >= 0 && symtab[hshtab[hp]].name != name
        invariant k <= last && hp == Slot(name, k)
        invariant hp < BUCKETS && BucketOk(t, hp)
        decreases last - k
      {
        assert !Stops(t, name, k);
        SlotStep(name, k);
        hp := hp + 1;
        if hp >= BUCKETS {
          hp := 0;
        }
        k := k + 1;
        assert BucketOk(t, Slot(name, k));
      }
      assert Stops(t, name, k);
      if s :| 0 <= s < next && symtab[s].name == name {
        LookFinds(t, s);
        assert SymOk(t, s);
      }
    }

    /** Adds the symbol where lookup stopped; a full table is an error. */
    method Enter(name: string, hp: nat) returns (entered: bool, overflow: bool)
      requires Valid() && hp == Look(Contents(), name, 0)
      modifies this`next, symtab, hshtab
      ensures Valid()
      ensures overflow == (old(Contents()).buckets[hp] < 0 && old(next) == NSYM)
      ensures entered == (old(Contents()).buckets[hp] < 0 && old(next) < NSYM)
      ensures Contents() == if entered then Entered(old(Contents()), Entry(name, hp)) else old(Contents())
    {
      if hshtab[hp] >= 0 {
        return false, false;
      }
      if next >= NSYM {
        return false, true;
      }
      EnterWell(Contents(), name);
      Put(Entry(name, hp));
      return true, false;
    }

    method Put(e: Entry)
      requires symtab.Length == NSYM && hshtab.Length == BUCKETS && next < NSYM && e.hash < BUCKETS
      modifies this`next, symtab, hshtab
      ensures next == old(next) + 1 && Contents() == Entered(old(Contents()), e)
    {
      ghost var t := Contents();
      hshtab[e.hash] := next;
      symtab[next] := e;
      next := next + 1;
      assert Contents().syms == t.syms + [e];
    }

    /** Takes the newest symbols out of their buckets, down to a mark. */
    method BackOut(saved: nat)
      requires Valid() && saved <= next
      modifies this`next, hshtab
      ensures Valid() && next == saved && Contents() == Truncated(old(Contents()), saved)
    {
      ghost var t := Contents();
      TruncateEntered0(t);
      while next > saved
        invariant saved <= next <= |t.syms| && symtab[..] == old(symtab[..])
        invariant Contents() == Truncated(t, next)
      {
        next := next - 1;
        assert symtab[next] == t.syms[next] && SymOk(t, next);
        OneLess(t, next);
        hshtab[symtab[next].hash] := -1;
      }
      TruncateWell(t, saved);
    }

    /** lookup and enter for one name, t being the table an overlay started from. */
    method Note(name: string, ghost t: Tab) returns (overflow: bool)
      requires Valid() && |t.syms| <= next && Truncated(Contents(), |t.syms|) == t
      modifies this`next, symtab, hshtab
      ensures Valid() && |t.syms| <= next && Truncated(Contents(), |t.syms|) == t
      ensures overflow <==> name !in NamesIn(old(Contents())) && old(next) == NSYM
      ensures NamesIn(Contents()) == NamesIn(old(Contents())) + if overflow then {} else {name}
      ensures next == old(next) + if overflow || name in NamesIn(old(Contents())) then 0 else 1
    {
      var hp := Lookup(name);
      ghost var u, e := Contents(), Entry(name, hp);
      InNames(u, name);
      if u.buckets[hp] < 0 {
        TruncateEntered(u, e, |t.syms|);
        NamesEntered(u, e);
      }
      var entered;
      entered, overflow := Enter(name, hp);
    }

    /**
     An overlay, or a library member that defines nothing: whatever it entered is gone
     again. u is the table in between, which holds every name unless there is no room
     for all the new ones.
     */
    method EnterAndBackOut(names: seq<string>) returns (overflow: bool, ghost u: Tab)
      requires Valid()
      modifies this`next, symtab, hshtab
      ensures Valid() && next == old(next) && Contents() == old(Contents())
      ensures overflow <==> |old(Contents()).syms| + |New(old(Contents()), names)| > NSYM
      ensures Well(u) && (!overflow ==> NamesIn(u) == NamesIn(old(Contents())) + Listed(names))
      ensures !overflow ==> |u.syms| == |old(Contents()).syms| + |New(old(Contents()), names)|
    {
      ghost var t := Contents();
      var saved, k := next, 0;
      TruncateEntered0(t);
      overflow := false;
      NothingNoted(t, names);
      while k < |names| && !overflow
        invariant 0 <= k <= |names| && Valid() && saved == |t.syms| <= next && Truncated(Contents(), saved) == t
        invariant NotedTo(t, names, k, NamesIn(Contents()), next, overflow)
      {
        ghost var had, was := NamesIn(Contents()), next;
        overflow := Note(names[k], t);
        NotedNext(t, names, k, had, was, overflow);
        k := k + 1;
      }
      u := Contents();
      AllNoted(t, names, k, NamesIn(u), next, overflow);
      BackOut(saved);
    }
  }

  function NamesIn(t: Tab): set<string> {
    set s | 0 <= s < |t.syms| :: t.syms[s].name
  }

  function Listed(names: seq<string>): set<string> {
    set i | 0 <= i < |names| :: names[i]
  }

  /** The names that are not in the table yet. */
  function New(t: Tab, names: seq<string>): set<string> {
    Listed(names) - NamesIn(t)
  }

  lemma InNames(t: Tab, name: string)
    ensures name in NamesIn(t) <==> exists s :: 0 <= s < |t.syms| && t.syms[s].name == name
  {
  }

  lemma NamesEntered(t: Tab, e: Entry)
    requires e.hash < |t.buckets|
    ensures NamesIn(Entered(t, e)) == NamesIn(t) + {e.name}
  {
    var u := Entered(t, e);
    forall name ensures name in NamesIn(u) <==> name in NamesIn(t) + {e.name} {
      if name in NamesIn(t) {
        var s :| 0 <= s < |t.syms| && t.syms[s].name == name;
        assert u.syms[s].name == name;
      }
      assert u.syms[|t.syms|] == e;
    }
  }

  /** The table once the first k names went in: the names it has and their number, or that there was no room. */
  ghost predicate NotedTo(t: Tab, names: seq<string>, k: nat, had: set<string>, next: nat, overflow: bool)
    requires k <= |names|
  {
    if overflow then |t.syms| + |New(t, names)| > NSYM
    else had == NamesIn(t) + Listed(names[..k]) && next == |t.syms| + |New(t, names[..k])|
  }

  lemma NothingNoted(t: Tab, names: seq<string>)
    ensures NotedTo(t, names, 0, NamesIn(t), |t.syms|, false)
  {
    assert Listed(names[..0]) == {};
  }

  lemma NotedNext(t: Tab, names: seq<string>, k: nat, had: set<string>, next: nat, overflow: bool)
    requires k < |names| && NotedTo(t, names, k, had, next, false)
    requires overflow ==> names[k] !in had && next >= NSYM
    ensures var more := next + if names[k] in had then 0 else 1;
      NotedTo(t, names, k + 1, had + {names[k]}, more, false) &&
        (overflow ==> NotedTo(t, names, k + 1, had, next, true))
  {
    ListedNext(names, k);
    NewNext(t, Listed(names[..k]), names[k]);
    if overflow {
      ListedGrows(names, k + 1);
      Within(New(t, names[..k + 1]), New(t, names));
    }
  }

  lemma AllNoted(t: Tab, names: seq<string>, k: nat, had: set<string>, next: nat, overflow: bool)
    requires k <= |names| && NotedTo(t, names, k, had, next, overflow) && (!overflow ==> k == |names| && next <= NSYM)
    ensures overflow <==> |t.syms| + |New(t, names)| > NSYM
    ensures !overflow ==> had == NamesIn(t) + Listed(names) && next == |t.syms| + |New(t, names)|
  {
    assert names[..|names|] == names;
  }

  lemma ListedNext(names: seq<string>, k: nat)
    requires k < |names|
    ensures Listed(names[..k + 1]) == Listed(names[..k]) + {names[k]}
  {
    var front, more := names[..k], names[..k + 1];
    forall i | 0 <= i < k ensures front[i] in Listed(more) {
      assert more[i] == front[i];
    }
    assert more[k] in Listed(more);
  }

  lemma ListedGrows(names: seq<string>, k: nat)
    requires k <= |names|
    ensures Listed(names[..k]) <= Listed(names)
  {
    forall i | 0 <= i < k ensures names[..k][i] in Listed(names) {
      assert names[i] in Listed(names);
    }
  }

  /** What one more name adds to the new ones. */
  lemma NewNext(t: Tab, listed: set<string>, name: string)
    ensures |(listed + {name}) - NamesIn(t)| == |listed - NamesIn(t)| + if name in NamesIn(t) + listed then 0 else 1
  {
    var all := NamesIn(t);
    if name in all + listed {
      assert (listed + {name}) - all == listed - all;
    } else {
      assert (listed + {name}) - all == (listed - all) + {name};
    }
  }

  lemma Within<T>(a: set<T>, b: set<T>)
    requires a <= b
    ensures |a| <= |b|
  {
    assert b == a + (b - a);
  }

  lemma TruncateEntered0(t: Tab)
    requires Well(t)
    ensures Truncated(t, |t.syms|) == t
  {
    forall b | 0 <= b < BUCKETS ensures t.buckets[b] < |t.syms| {
      assert BucketOk(t, b);
    }
  }

  lemma OneLess(t: Tab, s: nat)
    requires Well(t) && s < |t.syms|
    ensures t.syms[s].hash < BUCKETS
    ensures Truncated(t, s) == Tab(t.syms[..s], Truncated(t, s + 1).buckets[t.syms[s].hash := -1])
  {
    assert SymOk(t, s);
    forall b | 0 <= b < BUCKETS && t.buckets[b] == s ensures b == t.syms[s].hash {
      assert BucketOk(t, b);
    }
    assert Truncated(t, s).buckets == Truncated(t, s + 1).buckets[t.syms[s].hash := -1];
  }
}
