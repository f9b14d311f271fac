/**
 The segmented, open-addressed symbol table of ld68 as values: what lookup finds,
 what enter adds, and what backing out the newest symbols leaves.
 */
module SymbolHash {
  import opened Arithmetic
  import opened ProbeSequence

  const NSEG: nat := 40

  datatype Entry = Entry(name: string, ntype: int, value: int, hash: nat)

  /** One segment: its symbols in order of entry, and the index (or -1) in every bucket. */
  datatype Seg = Seg(syms: seq<Entry>, buckets: seq<int>)

  function EmptySeg(): (g: Seg)
    ensures WellSeg(g)
  {
    Seg([], seq(HSIZE, _ => -1))
  }

  /** The shift-and-add hash on 32-bit integers, with the sign bit masked off. */
  function HashSum(name: string): int {
    if name == "" then 0 else 2 * HashSum(name[..|name|-1]) + name[|name|-1] as int
  }

  function Hash(name: string): (h: nat)
    ensures h < HSIZE
  {
    HashSum(name) % 0x8000_0000 % HSIZE
  }

  /** Bucket that probe k of a name inspects. */
  function ProbeOf(name: string, k: nat): nat {
    Probe(Hash(name), k)
  }

  ghost predicate BucketOk(g: Seg, b: nat)
    requires b < |g.buckets|
  {
    -1 <= g.buckets[b] < |g.syms| && (g.buckets[b] >= 0 ==> g.syms[g.buckets[b]].hash == b)
  }

  /** Every probe of the name before the k-th meets a symbol older than s. */
  ghost predicate OlderBefore(g: Seg, name: string, k: nat, s: nat)
    requires |g.buckets| == HSIZE
  {
    forall i :: 0 <= i < k ==> 0 <= g.buckets[ProbeOf(name, i)] < s
  }

  /** Symbol s sits where probing its name first met an empty bucket. */
  ghost predicate SymOk(g: Seg, s: nat)
    requires s < |g.syms| && |g.buckets| == HSIZE
  {
    var e := g.syms[s];
    && e.hash < HSIZE && g.buckets[e.hash] == s
    && exists k :: 0 <= k < NSYM && e.hash == ProbeOf(e.name, k) && OlderBefore(g, e.name, k, s)
  }

  ghost predicate DistinctNames(syms: seq<Entry>) {
    forall i, j :: 0 <= i < j < |syms| ==> syms[i].name != syms[j].name
  }

  ghost predicate WellSeg(g: Seg) {
    && |g.buckets| == HSIZE && |g.syms| <= NSYM
    && (forall b :: 0 <= b < HSIZE ==> BucketOk(g, b))
    && (forall s :: 0 <= s < |g.syms| ==> SymOk(g, s))
    && DistinctNames(g.syms)
  }

  predicate Names(g: Seg, name: string) {
    exists s :: 0 <= s < |g.syms| && g.syms[s].name == name
  }

  // ---- Probing one segment -----------------------------------------------

  datatype ScanResult = Hit(bucket: nat) | Empty(bucket: nat) | Exhausted

  /** The inner loop of lookup, from probe k on. */
  function Scan(g: Seg, name: string, k: nat): (r: ScanResult)
    requires WellSeg(g) && k <= NSYM
    decreases NSYM - k
  {
    if k == NSYM then Exhausted
    else
      var b := ProbeOf(name, k);
      assert BucketOk(g, b);
      if g.buckets[b] < 0 then Empty(b)
      else if g.syms[g.buckets[b]].name == name then Hit(b)
      else Scan(g, name, k + 1)
  }

  /** Probing skips buckets that hold other names. */
  lemma {:induction false} ScanSkips(g: Seg, name: string, k: nat, n: nat)
    requires WellSeg(g) && k <= n <= NSYM
    requires forall i :: k <= i < n ==> g.buckets[ProbeOf(name, i)] >= 0
    requires forall i :: k <= i < n ==>
      BucketOk(g, ProbeOf(name, i)) && g.syms[g.buckets[ProbeOf(name, i)]].name != name
    ensures Scan(g, name, k) == Scan(g, name, n)
    decreases n - k
  {
    if k < n {
      ScanSkips(g, name, k + 1, n);
    }
  }

  /** A symbol of the segment is found. */
  lemma ScanFinds(g: Seg, s: nat)
    requires WellSeg(g) && s < |g.syms|
    ensures Scan(g, g.syms[s].name, 0) == Hit(g.syms[s].hash)
  {
    var e := g.syms[s];
    assert SymOk(g, s);
    var k :| 0 <= k < NSYM && e.hash == ProbeOf(e.name, k) && OlderBefore(g, e.name, k, s);
    forall i | 0 <= i < k
      ensures BucketOk(g, ProbeOf(e.name, i)) && g.syms[g.buckets[ProbeOf(e.name, i)]].name != e.name
    {
      assert BucketOk(g, ProbeOf(e.name, i));
    }
    ScanSkips(g, e.name, 0, k);
  }

  /** What a scan returns tells what it saw. */
  lemma {:induction false} ScanSaw(g: Seg, name: string, k: nat) returns (n: nat)
    requires WellSeg(g) && k <= NSYM
    ensures k <= n <= NSYM
    ensures forall i :: k <= i < n ==> g.buckets[ProbeOf(name, i)] >= 0
    ensures var r := Scan(g, name, k);
      match r
      case Hit(b) => n < NSYM && b == ProbeOf(name, n) && BucketOk(g, b) && g.buckets[b] >= 0 &&
        g.syms[g.buckets[b]].name == name
      case Empty(b) => n < NSYM && b == ProbeOf(name, n) && g.buckets[b] == -1
      case Exhausted => n == NSYM
    decreases NSYM - k
  {
    n := k;
    if k < NSYM {
      var b := ProbeOf(name, k);
      assert BucketOk(g, b);
      if g.buckets[b] >= 0 && g.syms[g.buckets[b]].name != name {
        n := ScanSaw(g, name, k + 1);
      }
    }
  }

  /** An absent name is never hit. */
  lemma ScanMisses(g: Seg, name: string)
    requires WellSeg(g) && !Names(g, name)
    ensures !Scan(g, name, 0).Hit?
  {
    var n := ScanSaw(g, name, 0);
  }

  // ---- Room for an absent name -------------------------------------------

  /** Occupied probes 0..n of a name hold n different symbols. */
  lemma {:induction false} OccupiedCount(g: Seg, name: string, n: nat) returns (held: set<int>)
    requires WellSeg(g) && n <= NSYM
    requires forall i :: 0 <= i < n ==> g.buckets[ProbeOf(name, i)] >= 0
    ensures |held| == n
    ensures forall s :: s in held ==> 0 <= s < |g.syms| && exists i :: 0 <= i < n && g.buckets[ProbeOf(name, i)] == s
  {
    if n == 0 {
      held := {};
    } else {
      var before := OccupiedCount(g, name, n - 1);
      var b := ProbeOf(name, n - 1);
      assert BucketOk(g, b);
      forall i | 0 <= i < n - 1 ensures g.buckets[ProbeOf(name, i)] != g.buckets[b] {
        ProbesDiffer(Hash(name), i, n - 1);
        assert BucketOk(g, ProbeOf(name, i));
      }
      held := before + {g.buckets[b]};
    }
  }

  lemma {:induction false} SetBound(s: set<int>, n: nat)
    requires forall x :: x in s ==> 0 <= x < n
    ensures |s| <= n
  {
    if n == 0 {
      assert forall x :: x !in s;
      assert s == {};
    } else {
      SetBound(s - {n - 1}, n - 1);
      if n - 1 !in s {
        assert s == s - {n - 1};
      }
    }
  }

  /** The promise of the comment on HSIZE: in a segment that is not full, probing never fails. */
  lemma RoomForAbsent(g: Seg, name: string)
    requires WellSeg(g) && |g.syms| < NSYM
    ensures !Scan(g, name, 0).Exhausted?
  {
    if Scan(g, name, 0).Exhausted? {
      var n := ScanSaw(g, name, 0);
      var held := OccupiedCount(g, name, NSYM);
      SetBound(held, |g.syms|);
    }
  }

  /** A full segment fails a name exactly when it is absent and the segment's symbols fill all its probes. */
  lemma ExhaustedIff(g: Seg, name: string)
    requires WellSeg(g)
    ensures Scan(g, name, 0).Exhausted? <==>
      !Names(g, name) && forall i :: 0 <= i < NSYM ==> g.buckets[ProbeOf(name, i)] >= 0
    ensures Scan(g, name, 0).Exhausted? ==> |g.syms| == NSYM
  {
    if |g.syms| < NSYM {
      RoomForAbsent(g, name);
    }
    var n := ScanSaw(g, name, 0);
    if Names(g, name) {
      var s :| 0 <= s < |g.syms| && g.syms[s].name == name;
      ScanFinds(g, s);
    }
  }

  /** Probe number at which symbol s sits. */
  lemma ProbeNumber(g: Seg, s: nat) returns (k: nat)
    requires WellSeg(g) && s < |g.syms|
    ensures k < NSYM && g.syms[s].hash == ProbeOf(g.syms[s].name, k)
  {
    assert SymOk(g, s);
    k :| 0 <= k < NSYM && g.syms[s].hash == ProbeOf(g.syms[s].name, k) && OlderBefore(g, g.syms[s].name, k, s);
  }

  /** Among n symbols of one hash value, n of that value's probes are taken. */
  lemma {:induction false} TakenCount(g: Seg, h: nat, n: nat) returns (taken: set<int>)
    requires WellSeg(g) && n <= |g.syms| && h < HSIZE
    requires forall s :: 0 <= s < n ==> Hash(g.syms[s].name) == h
    ensures |taken| == n
    ensures forall k :: k in taken ==> 0 <= k < NSYM && exists s :: 0 <= s < n && g.syms[s].hash == Probe(h, k)
  {
    if n == 0 {
      taken := {};
    } else {
      var before := TakenCount(g, h, n - 1);
      var k := ProbeNumber(g, n - 1);
      assert SymOk(g, n - 1);
      forall j | j in before ensures j != k {
        var s :| 0 <= s < n - 1 && g.syms[s].hash == Probe(h, j);
        assert SymOk(g, s);
      }
      taken := before + {k};
    }
  }

  lemma {:induction false} FullSet(s: set<int>, n: nat)
    requires |s| == n && forall x :: x in s ==> 0 <= x < n
    ensures forall x :: 0 <= x < n ==> x in s
  {
    if n > 0 {
      if n - 1 in s {
        FullSet(s - {n - 1}, n - 1);
      } else {
        SetBound(s, n - 1);
      }
    }
  }

  /** 1103 symbols of one hash value leave no bucket for another. */
  lemma OneHashExhausts(g: Seg, name: string)
    requires WellSeg(g) && |g.syms| == NSYM && !Names(g, name)
    requires forall s :: 0 <= s < NSYM ==> Hash(g.syms[s].name) == Hash(name)
    ensures Scan(g, name, 0) == Exhausted
  {
    var taken := TakenCount(g, Hash(name), NSYM);
    FullSet(taken, NSYM);
    forall i | 0 <= i < NSYM ensures g.buckets[ProbeOf(name, i)] >= 0 {
      assert i in taken;
      var s :| 0 <= s < NSYM && g.syms[s].hash == Probe(Hash(name), i);
      assert SymOk(g, s);
    }
    ExhaustedIff(g, name);
  }

  // ---- Entering ----------------------------------------------------------

  /** The segment after enter put a symbol into an empty bucket. */
  function Entered(g: Seg, e: Entry): Seg
    requires e.hash < |g.buckets|
  {
    Seg(g.syms + [e], g.buckets[e.hash := |g.syms|])
  }

  lemma EnteredWell(g: Seg, e: Entry)
    requires WellSeg(g) && |g.syms| < NSYM && !Names(g, e.name)
    requires Scan(g, e.name, 0) == Empty(e.hash)
    ensures e.hash < HSIZE && WellSeg(Entered(g, e))
  {
    var k := ScanSaw(g, e.name, 0);
    var g' := Entered(g, e);
    var n := |g.syms|;
    forall b | 0 <= b < HSIZE ensures BucketOk(g', b) { assert BucketOk(g, b); }
    forall s | 0 <= s < n ensures SymOk(g', s) { OlderSymOk(g, e, s); }
    assert SymOk(g', n) by {
      forall i | 0 <= i < k ensures 0 <= g'.buckets[ProbeOf(e.name, i)] < n {
        assert BucketOk(g, ProbeOf(e.name, i));
      }
      assert OlderBefore(g', e.name, k, n);
    }
  }

  lemma OlderSymOk(g: Seg, e: Entry, s: nat)
    requires WellSeg(g) && s < |g.syms| && e.hash < HSIZE && g.buckets[e.hash] == -1
    ensures SymOk(Entered(g, e), s)
  {
    var g' := Entered(g, e);
    assert SymOk(g, s);
    var k :| 0 <= k < NSYM && g.syms[s].hash == ProbeOf(g.syms[s].name, k) && OlderBefore(g, g.syms[s].name, k, s);
    assert OlderBefore(g', g.syms[s].name, k, s);
  }

  // ---- Names of one hash value -------------------------------------------

  /** d pairs of letters picked by the bits of i; either pair adds the same to the hash. */
  function Pairs(i: nat, d: nat): string {
    if d == 0 then "" else Pairs(i / 2, d - 1) + if i % 2 == 0 then "ac" else "ba"
  }

  function PairSum(d: nat): int {
    if d == 0 then 0 else 4 * PairSum(d - 1) + 293
  }

  lemma TwoMore(s: string, x: char, y: char)
    ensures HashSum(s + [x, y]) == 4 * HashSum(s) + 2 * (x as int) + (y as int)
  {
    var t := s + [x, y];
    assert t[..|t| - 1] == s + [x] && (s + [x])[..|s|] == s;
  }

  lemma {:induction false} PairsHash(i: nat, d: nat)
    ensures HashSum(Pairs(i, d)) == PairSum(d) && |Pairs(i, d)| == 2 * d
  {
    if d > 0 {
      PairsHash(i / 2, d - 1);
      TwoMore(Pairs(i / 2, d - 1), 'a', 'c');
      TwoMore(Pairs(i / 2, d - 1), 'b', 'a');
    }
  }

  lemma {:induction false} PairsDiffer(i: nat, j: nat, d: nat)
    requires i != j && i < Pow2(d) && j < Pow2(d)
    ensures Pairs(i, d) != Pairs(j, d)
  {
    if d > 0 {
      var a, b := Pairs(i, d), Pairs(j, d);
      PairsHash(i / 2, d - 1);
      PairsHash(j / 2, d - 1);
      var n := 2 * (d - 1);
      assert a[..n] == Pairs(i / 2, d - 1) && b[..n] == Pairs(j / 2, d - 1);
      if i / 2 == j / 2 {
        assert i % 2 != j % 2;
        assert a[n] != b[n];
      } else {
        PairsDiffer(i / 2, j / 2, d - 1);
      }
    }
  }

  const PAIRS: nat := 11

  lemma ManyPairs()
    ensures NSYM < Pow2(PAIRS)
  {
    Pow2Add(4, 4);
    Pow2Add(8, 3);
  }

  /** A segment that holds the first n of these names. */
  ghost predicate Crowd(g: Seg, n: nat) {
    WellSeg(g) && |g.syms| == n && forall s :: 0 <= s < n ==> g.syms[s].name == Pairs(s, PAIRS)
  }

  lemma NotInCrowd(g: Seg, n: nat, i: nat)
    requires Crowd(g, n) && n <= i <= NSYM
    ensures !Names(g, Pairs(i, PAIRS)) && !Scan(g, Pairs(i, PAIRS), 0).Hit?
  {
    ManyPairs();
    forall s | 0 <= s < n ensures g.syms[s].name != Pairs(i, PAIRS) {
      PairsDiffer(s, i, PAIRS);
    }
    ScanMisses(g, Pairs(i, PAIRS));
  }

  /** The next name joins the crowd. */
  lemma CrowdGrows(g: Seg, n: nat, e: Entry)
    requires Crowd(g, n) && n < NSYM && e.name == Pairs(n, PAIRS) && Scan(g, e.name, 0) == Empty(e.hash)
    ensures e.hash < HSIZE && Crowd(Entered(g, e), n + 1)
  {
    NotInCrowd(g, n, n);
    EnteredWell(g, e);
  }

  lemma {:induction false} CrowdExists(n: nat) returns (g: Seg)
    requires n <= NSYM
    ensures Crowd(g, n)
  {
    g := EmptySeg();
    if n > 0 {
      var g0 := CrowdExists(n - 1);
      var name := Pairs(n - 1, PAIRS);
      NotInCrowd(g0, n - 1, n - 1);
      RoomForAbsent(g0, name);
      var e := Entry(name, 0, 0, Scan(g0, name, 0).bucket);
      CrowdGrows(g0, n - 1, e);
      g := Entered(g0, e);
    }
  }

  /** A full crowd has no bucket left for one more such name. */
  lemma CrowdExhausts(g: Seg)
    requires Crowd(g, NSYM)
    ensures !Names(g, Pairs(NSYM, PAIRS)) && Scan(g, Pairs(NSYM, PAIRS), 0) == Exhausted
  {
    var name := Pairs(NSYM, PAIRS);
    NotInCrowd(g, NSYM, NSYM);
    PairsHash(NSYM, PAIRS);
    forall s | 0 <= s < NSYM ensures Hash(g.syms[s].name) == Hash(name) {
      PairsHash(s, PAIRS);
    }
    OneHashExhausts(g, name);
  }

  // ---- Backing out -------------------------------------------------------

  /** The segment with all but the oldest m symbols taken out and their buckets cleared. */
  function Truncated(g: Seg, m: nat): (t: Seg)
    requires m <= |g.syms|
    ensures |t.buckets| == |g.buckets|
  {
    Seg(g.syms[..m],
      seq(|g.buckets|, b requires 0 <= b < |g.buckets| => if g.buckets[b] >= m then -1 else g.buckets[b]))
  }

  /** Taking the newest symbols out keeps every older one where probing finds it. */
  lemma TruncatedWell(g: Seg, m: nat)
    requires WellSeg(g) && m <= |g.syms|
    ensures WellSeg(Truncated(g, m))
  {
    var t := Truncated(g, m);
    forall b | 0 <= b < HSIZE ensures BucketOk(t, b) { assert BucketOk(g, b); }
    forall s | 0 <= s < m ensures SymOk(t, s) {
      assert SymOk(g, s);
      var k :| 0 <= k < NSYM && g.syms[s].hash == ProbeOf(g.syms[s].name, k) && OlderBefore(g, g.syms[s].name, k, s);
      assert OlderBefore(t, g.syms[s].name, k, s);
    }
  }

  /** Backing out an entry undoes it. */
  lemma TruncateEntered(g: Seg, e: Entry, m: nat)
    requires WellSeg(g) && e.hash < HSIZE && g.buckets[e.hash] == -1 && m <= |g.syms|
    ensures Truncated(Entered(g, e), m) == Truncated(g, m)
    ensures Truncated(g, |g.syms|) == g
  {
    forall b | 0 <= b < HSIZE ensures g.buckets[b] < |g.syms| { assert BucketOk(g, b); }
  }
}
