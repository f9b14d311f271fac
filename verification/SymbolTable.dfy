/**
 The symbol table of ld68: up to 40 segments, filled one after the other, with
 lookup, enter and symfree.
 */
module SymbolTable {
  import opened ProbeSequence
  import opened SymbolHash

  // ---- The table as a value ----------------------------------------------

  datatype Where = Found(seg: nat, bucket: nat) | Vacant(seg: nat, bucket: nat) | Botch(seg: nat) | Overflow

  /** A segment not allocated yet counts as empty. */
  function SegAt(t: seq<Seg>, i: nat): Seg {
    if i < |t| then t[i] else EmptySeg()
  }

  predicate Full(g: Seg) {
    |g.syms| == NSYM
  }

  /** Whatever a later segment holds was turned away by every earlier one. */
  ghost predicate TurnedAway(t: seq<Seg>, i: nat, j: nat)
    requires i < j < |t| && WellSeg(t[i])
  {
    t[j].syms != [] ==>
      && Full(t[i])
      && forall s :: 0 <= s < |t[j].syms| ==> Scan(t[i], t[j].syms[s].name, 0).Empty?
  }

  ghost predicate WellTable(t: seq<Seg>) {
    && |t| <= NSEG
    && (forall i :: 0 <= i < |t| ==> WellSeg(t[i]))
    && (forall i, j :: 0 <= i < j < |t| ==> TurnedAway(t, i, j))
  }

  predicate Holds(t: seq<Seg>, name: string) {
    exists i :: 0 <= i < |t| && Names(t[i], name)
  }

  /** lookup from segment i on. */
  function LookupFrom(t: seq<Seg>, name: string, i: nat): Where
    requires WellTable(t) && i <= NSEG
    decreases NSEG - i
  {
    if i == NSEG then Overflow
    else
      var g := SegAt(t, i);
      match Scan(g, name, 0)
      case Hit(b) => Found(i, b)
      case Empty(b) => if Full(g) then LookupFrom(t, name, i + 1) else Vacant(i, b)
      case Exhausted => Botch(i)
  }

  /** Segments before n were full and turned the name away. */
  ghost predicate Passed(t: seq<Seg>, name: string, i: nat, n: nat)
    requires WellTable(t)
  {
    forall j :: i <= j < n ==> WellSeg(SegAt(t, j)) && Full(SegAt(t, j)) && Scan(SegAt(t, j), name, 0).Empty?
  }

  lemma {:induction false} LookupPasses(t: seq<Seg>, name: string, i: nat, n: nat)
    requires WellTable(t) && i <= n <= NSEG && Passed(t, name, i, n)
    ensures LookupFrom(t, name, i) == LookupFrom(t, name, n)
    decreases n - i
  {
    if i < n {
      LookupPasses(t, name, i + 1, n);
    }
  }

  /** Every symbol in the table is found where it sits. */
  lemma LookupFinds(t: seq<Seg>, i: nat, s: nat)
    requires WellTable(t) && i < |t| && s < |t[i].syms|
    ensures LookupFrom(t, t[i].syms[s].name, 0) == Found(i, t[i].syms[s].hash)
  {
    var name := t[i].syms[s].name;
    assert Passed(t, name, 0, i) by {
      forall j | 0 <= j < i ensures WellSeg(SegAt(t, j)) && Full(SegAt(t, j)) && Scan(SegAt(t, j), name, 0).Empty? {
        assert TurnedAway(t, j, i);
      }
    }
    LookupPasses(t, name, 0, i);
    ScanFinds(t[i], s);
  }

  /** How lookup ends. */
  lemma {:induction false} LookupSaw(t: seq<Seg>, name: string, i: nat) returns (n: nat)
    requires WellTable(t) && i <= NSEG
    ensures i <= n <= NSEG && Passed(t, name, i, n)
    ensures match LookupFrom(t, name, i)
      case Found(g, b) => g == n < NSEG && Scan(SegAt(t, n), name, 0) == Hit(b)
      case Vacant(g, b) => g == n < NSEG && Scan(SegAt(t, n), name, 0) == Empty(b) && !Full(SegAt(t, n))
      case Botch(g) => g == n < NSEG && Scan(SegAt(t, n), name, 0) == Exhausted
      case Overflow => n == NSEG
    decreases NSEG - i
  {
    n := i;
    if i < NSEG {
      if Scan(SegAt(t, i), name, 0).Empty? && Full(SegAt(t, i)) {
        n := LookupSaw(t, name, i + 1);
      }
    }
  }

  /** A name found is in the table, in the bucket returned. */
  lemma LookupSound(t: seq<Seg>, name: string)
    requires WellTable(t)
    ensures var r := LookupFrom(t, name, 0);
      && (r.Found? <==> Holds(t, name))
      && (r.Found? ==> r.seg < |t| && r.bucket < HSIZE && 0 <= t[r.seg].buckets[r.bucket] < |t[r.seg].syms|
                       && t[r.seg].syms[t[r.seg].buckets[r.bucket]].name == name)
  {
    var r := LookupFrom(t, name, 0);
    var n := LookupSaw(t, name, 0);
    if r.Found? {
      var k := ScanSaw(SegAt(t, n), name, 0);
      assert n < |t| && Names(t[n], name);
    }
    if Holds(t, name) {
      var i :| 0 <= i < |t| && Names(t[i], name);
      var s :| 0 <= s < |t[i].syms| && t[i].syms[s].name == name;
      LookupFinds(t, i, s);
    }
  }

  /** The symbols of full segment i occupy every bucket the name may probe. */
  ghost predicate Crowded(t: seq<Seg>, name: string, i: nat)
    requires WellTable(t) && i < |t|
  {
    Full(t[i]) && WellSeg(t[i]) && forall k :: 0 <= k < NSYM ==> t[i].buckets[ProbeOf(name, k)] >= 0
  }

  /**
   An absent name fails with "hash table botch" exactly when it gets as far as a
   full segment whose symbols occupy all of its 1103 probes.
   */
  lemma BotchIff(t: seq<Seg>, name: string)
    requires WellTable(t)
    ensures LookupFrom(t, name, 0).Botch? <==>
      (!Holds(t, name) && exists i :: 0 <= i < |t| && Passed(t, name, 0, i) && Crowded(t, name, i))
  {
    LookupSound(t, name);
    var n := LookupSaw(t, name, 0);
    if LookupFrom(t, name, 0).Botch? {
      ExhaustedIff(SegAt(t, n), name);
      assert Crowded(t, name, n);
    }
    if !Holds(t, name) && (exists i :: 0 <= i < |t| && Passed(t, name, 0, i) && Crowded(t, name, i)) {
      var i :| 0 <= i < |t| && Passed(t, name, 0, i) && Crowded(t, name, i);
      LookupPasses(t, name, 0, i);
      assert !Names(t[i], name);
      ExhaustedIff(t[i], name);
    }
  }

  /** Such a table exists, so the promise that probing never fails does not hold of full segments. */
  lemma SameHashBotch() returns (t: seq<Seg>, name: string)
    ensures WellTable(t) && !Holds(t, name) && LookupFrom(t, name, 0) == Botch(0)
  {
    var g := CrowdExists(NSYM);
    CrowdExhausts(g);
    t, name := [g], Pairs(NSYM, PAIRS);
    assert WellSeg(t[0]);
  }

  // ---- Entering ----------------------------------------------------------

  /** The table with segment i allocated. */
  function Padded(t: seq<Seg>, i: nat): (r: seq<Seg>)
    ensures |r| == if i < |t| then |t| else i + 1
    ensures forall j :: 0 <= j < |r| ==> r[j] == SegAt(t, j)
    decreases i + 1 - |t|
  {
    if i < |t| then t else Padded(t + [EmptySeg()], i)
  }

  /** enter, where lookup found an empty bucket. */
  function EnteredAt(t: seq<Seg>, i: nat, e: Entry): seq<Seg>
    requires e.hash < |SegAt(t, i).buckets|
  {
    Padded(t, i)[i := Entered(SegAt(t, i), e)]
  }

  /** enter keeps every name findable. */
  lemma EnteredWellTable(t: seq<Seg>, e: Entry)
    requires WellTable(t)
    requires LookupFrom(t, e.name, 0).Vacant? && LookupFrom(t, e.name, 0).bucket == e.hash
    ensures var i := LookupFrom(t, e.name, 0).seg;
      e.hash < |SegAt(t, i).buckets| && WellTable(EnteredAt(t, i, e)) && Holds(EnteredAt(t, i, e), e.name)
  {
    LookupSound(t, e.name);
    var i := LookupSaw(t, e.name, 0);
    var g := SegAt(t, i);
    var k := ScanSaw(g, e.name, 0);
    assert !Names(g, e.name) by { assert i < |t| ==> !Names(t[i], e.name); }
    EnteredWell(g, e);
    var t' := EnteredAt(t, i, e);
    forall a, b | 0 <= a < b < |t'| ensures WellSeg(t'[a]) && TurnedAway(t', a, b) {
      if b < |t| {
        assert TurnedAway(t, a, b);
      }
      if a != i && b == i {
        assert WellSeg(SegAt(t, a)) && Full(SegAt(t, a)) && Scan(SegAt(t, a), e.name, 0).Empty?;
      }
    }
    assert t'[i].syms[|g.syms|] == e;
  }

  /** lookup and enter for one name. */
  ghost function NotedOne(t: seq<Seg>, name: string): (r: seq<Seg>)
    requires WellTable(t)
    ensures WellTable(r)
  {
    var w := LookupFrom(t, name, 0);
    if w.Vacant? then
      var e := Entry(name, 0, 0, w.bucket);
      EnteredWellTable(t, e);
      EnteredAt(t, w.seg, e)
    else t
  }

  /** lookup and enter for some names in a row. */
  ghost function Noted(t: seq<Seg>, names: seq<string>): (r: seq<Seg>)
    requires WellTable(t)
    ensures WellTable(r)
  {
    if names == [] then t else NotedOne(Noted(t, names[..|names| - 1]), names[|names| - 1])
  }

  /** lookup finds the name or a place for it. */
  ghost predicate FitsOne(t: seq<Seg>, name: string)
    requires WellTable(t)
  {
    LookupFrom(t, name, 0).Found? || LookupFrom(t, name, 0).Vacant?
  }

  ghost predicate Fits(t: seq<Seg>, names: seq<string>)
    requires WellTable(t)
  {
    forall i :: 0 <= i < |names| ==> FitsOne(Noted(t, names[..i]), names[i])
  }

  lemma NotedMore(t: seq<Seg>, names: seq<string>, i: nat)
    requires WellTable(t) && i < |names|
    ensures Noted(t, names[..i + 1]) == NotedOne(Noted(t, names[..i]), names[i])
    ensures Fits(t, names[..i]) && FitsOne(Noted(t, names[..i]), names[i]) ==> Fits(t, names[..i + 1])
  {
    var front, more := names[..i], names[..i + 1];
    assert more[..i] == front;
    if Fits(t, front) && FitsOne(Noted(t, front), names[i]) {
      forall j | 0 <= j < i + 1 ensures FitsOne(Noted(t, more[..j]), more[j]) {
        assert j < i ==> more[..j] == front[..j];
      }
    }
  }

  lemma NotedOneHolds(t: seq<Seg>, name: string, other: string)
    requires WellTable(t) && FitsOne(t, name)
    ensures Holds(NotedOne(t, name), other) <==> Holds(t, other) || other == name
  {
    LookupSound(t, name);
    var w, u := LookupFrom(t, name, 0), NotedOne(t, name);
    if w.Vacant? {
      var e := Entry(name, 0, 0, w.bucket);
      EnteredWellTable(t, e);
      assert u[w.seg].syms == SegAt(t, w.seg).syms + [e];
      forall i | 0 <= i < |u|
        ensures Names(u[i], other) <==> Names(SegAt(t, i), other) || (i == w.seg && other == name) {
        NamesMore(SegAt(t, i), u[i], e, other);
      }
      if Holds(t, other) {
        var i :| 0 <= i < |t| && Names(t[i], other);
        assert Names(u[i], other);
      }
    }
  }

  lemma NamesMore(g: Seg, h: Seg, e: Entry, other: string)
    requires h.syms == g.syms + [e] || h.syms == g.syms
    ensures Names(h, other) <==> Names(g, other) || (h.syms == g.syms + [e] && other == e.name)
  {
    if Names(g, other) {
      var s :| 0 <= s < |g.syms| && g.syms[s].name == other;
      assert h.syms[s].name == other;
    }
    if h.syms == g.syms + [e] {
      assert h.syms[|g.syms|] == e;
    }
  }

  /** What is in the table once all names fitted in. */
  lemma {:induction false} NotedHolds(t: seq<Seg>, names: seq<string>, other: string)
    requires WellTable(t) && Fits(t, names)
    ensures Holds(Noted(t, names), other) <==> Holds(t, other) || other in names
  {
    if names != [] {
      var n := |names| - 1;
      FitsFront(t, names, n);
      NotedHolds(t, names[..n], other);
      NotedOneHolds(Noted(t, names[..n]), names[n], other);
      Endpoint(names, other);
    }
  }

  lemma Endpoint(names: seq<string>, other: string)
    requires names != []
    ensures other in names <==> other in names[..|names| - 1] || other == names[|names| - 1]
  {
    assert names == names[..|names| - 1] + [names[|names| - 1]];
  }

  lemma FitsFront(t: seq<Seg>, names: seq<string>, n: nat)
    requires WellTable(t) && Fits(t, names) && n <= |names|
    ensures Fits(t, names[..n])
  {
    forall i | 0 <= i < n ensures FitsOne(Noted(t, names[..n][..i]), names[..n][i]) {
      assert names[..n][..i] == names[..i];
    }
  }

  // ---- Backing out -------------------------------------------------------

  /** Position just behind the newest symbol; None before the first one. */
  datatype Mark = NoSym | At(seg: nat, off: nat)

  /** What symfree leaves: everything older than the mark. */
  function RestoredSeg(g: Seg, i: nat, mark: Mark): Seg
    requires mark.At? && mark.seg == i ==> mark.off <= |g.syms|
  {
    if mark.At? && i < mark.seg then g
    else if mark.At? && i == mark.seg then Truncated(g, mark.off)
    else Truncated(g, 0)
  }

  /** A mark that names a place behind an existing symbol. */
  predicate GoodMark(t: seq<Seg>, mark: Mark) {
    mark.At? ==> mark.seg < |t| && mark.off <= |t[mark.seg].syms|
  }

  function Restored(t: seq<Seg>, mark: Mark): (r: seq<Seg>)
    requires GoodMark(t, mark)
    ensures |r| == |t|
  {
    seq(|t|, i requires 0 <= i < |t| => RestoredSeg(t[i], i, mark))
  }

  /** Backing out keeps every surviving symbol findable. */
  lemma RestoredWellTable(t: seq<Seg>, mark: Mark)
    requires WellTable(t) && GoodMark(t, mark)
    ensures WellTable(Restored(t, mark))
  {
    var r := Restored(t, mark);
    forall i | 0 <= i < |t| ensures WellSeg(r[i]) {
      if mark.At? && i == mark.seg {
        TruncatedWell(t[i], mark.off);
      } else {
        TruncatedWell(t[i], 0);
      }
    }
    forall i, j | 0 <= i < j < |t| ensures TurnedAway(r, i, j) {
      assert TurnedAway(t, i, j);
    }
  }

  /** Where the next symbol would be marked: behind the last segment in use. */
  ghost predicate MarkOf(t: seq<Seg>, mark: Mark) {
    && GoodMark(t, mark)
    && (mark.At? ==> mark.off == |t[mark.seg].syms| > 0)
    && (forall i :: 0 <= i < |t| && (mark.At? ==> mark.seg < i) ==> t[i].syms == [])
  }

  /** A table grows by entering absent names and allocating segments. */
  ghost predicate Grows(t: seq<Seg>, u: seq<Seg>) {
    && |t| <= |u|
    && forall i :: 0 <= i < |u| ==>
         |SegAt(t, i).syms| <= |u[i].syms| && Truncated(u[i], |SegAt(t, i).syms|) == SegAt(t, i)
  }

  lemma GrowsSelf(t: seq<Seg>)
    requires WellTable(t)
    ensures Grows(t, t)
  {
    forall i | 0 <= i < |t| ensures Truncated(t[i], |t[i].syms|) == t[i] {
      forall b | 0 <= b < HSIZE ensures t[i].buckets[b] < |t[i].syms| { assert BucketOk(t[i], b); }
    }
  }

  /** enter grows the table it is given. */
  lemma EnterGrows(t: seq<Seg>, u: seq<Seg>, e: Entry)
    requires WellTable(t) && WellTable(u) && Grows(t, u)
    requires LookupFrom(u, e.name, 0).Vacant? && LookupFrom(u, e.name, 0).bucket == e.hash
    ensures var i := LookupFrom(u, e.name, 0).seg;
      e.hash < |SegAt(u, i).buckets| && Grows(t, EnteredAt(u, i, e))
  {
    var i := LookupSaw(u, e.name, 0);
    var g := SegAt(u, i);
    var k := ScanSaw(g, e.name, 0);
    var v := EnteredAt(u, i, e);
    TruncateEntered(g, e, |SegAt(t, i).syms|);
    forall j | 0 <= j < |v|
      ensures |SegAt(t, j).syms| <= |v[j].syms| && Truncated(v[j], |SegAt(t, j).syms|) == SegAt(t, j)
    {
      if |u| <= j {
        assert Truncated(EmptySeg(), 0) == EmptySeg();
      }
    }
  }

  /**
   Whatever was entered since the mark was taken, backing out to it returns the
   table to its earlier contents, bucket for bucket.
   */
  lemma BackOutRestores(t: seq<Seg>, u: seq<Seg>, mark: Mark)
    requires WellTable(t) && WellTable(u) && Grows(t, u) && MarkOf(t, mark)
    ensures GoodMark(u, mark)
    ensures forall i :: 0 <= i < |u| ==> Restored(u, mark)[i] == SegAt(t, i)
  {
    forall i | 0 <= i < |u| ensures RestoredSeg(u[i], i, mark) == SegAt(t, i) {
      if mark.At? && i < mark.seg {
        OlderSegFull(t, u, mark, i);
      }
    }
  }

  /**
   Backing out to a place behind some symbol, or to no symbol at all, returns the
   earlier table exactly when that place was behind its newest symbol.
   */
  lemma BackOutRestoresIff(t: seq<Seg>, u: seq<Seg>, mark: Mark)
    requires WellTable(t) && WellTable(u) && Grows(t, u) && GoodMark(u, mark) && (mark.At? ==> mark.off > 0)
    ensures (forall i :: 0 <= i < |u| ==> Restored(u, mark)[i] == SegAt(t, i)) <==> MarkOf(t, mark)
  {
    if MarkOf(t, mark) {
      BackOutRestores(t, u, mark);
    }
    if forall i :: 0 <= i < |u| ==> Restored(u, mark)[i] == SegAt(t, i) {
      if mark.At? {
        assert Restored(u, mark)[mark.seg] == SegAt(t, mark.seg);
      }
      forall i | 0 <= i < |t| && (mark.At? ==> mark.seg < i) ensures t[i].syms == [] {
        assert Restored(u, mark)[i] == SegAt(t, i);
      }
    }
  }

  /** Segments in front of the marked one were full and cannot have changed. */
  lemma OlderSegFull(t: seq<Seg>, u: seq<Seg>, mark: Mark, i: nat)
    requires WellTable(t) && WellTable(u) && Grows(t, u) && MarkOf(t, mark) && mark.At? && i < mark.seg
    requires i < |t| && mark.seg < |t| && t[mark.seg].syms != []
    ensures u[i] == t[i]
  {
    assert TurnedAway(t, i, mark.seg);
    assert |u[i].syms| == NSYM;
    forall b | 0 <= b < HSIZE ensures u[i].buckets[b] < NSYM { assert BucketOk(u[i], b); }
    assert Truncated(u[i], NSYM) == u[i];
  }
}
