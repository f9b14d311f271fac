/**
 qsort of libxc: a three-way in-place quicksort that recurses on the smaller
 side only.  An array element stands for the es bytes of one source element.
 */
module QuickSort {
  import opened Arithmetic

  // ---- Comparators -------------------------------------------------------

  ghost predicate Flips<T>(cmp: (T, T) -> int, x: T, y: T) {
    cmp(x, y) < 0 <==> cmp(y, x) > 0
  }

  ghost predicate Chains<T>(cmp: (T, T) -> int, x: T, y: T, z: T) {
    cmp(x, y) <= 0 && cmp(y, z) <= 0 ==> cmp(x, z) <= 0
  }

  /** The comparison is a total preorder. */
  ghost predicate TotalPreorder<T(!new)>(cmp: (T, T) -> int) {
    (forall x, y :: Flips(cmp, x, y)) && (forall x, y, z :: Chains(cmp, x, y, z))
  }

  /** Equal elements compare alike with everything. */
  lemma EqualsAlike<T(!new)>(cmp: (T, T) -> int, x: T, y: T, z: T)
    requires TotalPreorder(cmp) && cmp(y, z) == 0
    ensures (cmp(x, y) < 0 <==> cmp(x, z) < 0) && (cmp(x, y) > 0 <==> cmp(x, z) > 0)
    ensures (cmp(y, x) < 0 <==> cmp(x, z) > 0) && (cmp(y, x) > 0 <==> cmp(x, z) < 0)
  {
    assert Flips(cmp, y, z) && Flips(cmp, z, y) && Flips(cmp, x, y) && Flips(cmp, y, x) && Flips(cmp, x, z) &&
      Flips(cmp, z, x);
    assert Chains(cmp, x, y, z) && Chains(cmp, x, z, y) && Chains(cmp, y, z, x) && Chains(cmp, z, y, x);
  }

  lemma SelfEqual<T(!new)>(cmp: (T, T) -> int, x: T)
    requires TotalPreorder(cmp)
    ensures cmp(x, x) == 0
  {
    assert Flips(cmp, x, x);
  }

  // ---- Exchanges ---------------------------------------------------------

  /** t is s with the elements of [lo,hi) rearranged. */
  ghost predicate Kept<T>(s: seq<T>, t: seq<T>, lo: nat, hi: nat) {
    && lo <= hi <= |s| == |t|
    && multiset(s[lo..hi]) == multiset(t[lo..hi])
    && forall x :: 0 <= x < lo || hi <= x < |s| ==> s[x] == t[x]
  }

  lemma KeptTrans<T>(s: seq<T>, t: seq<T>, u: seq<T>, lo: nat, hi: nat)
    requires Kept(s, t, lo, hi) && Kept(t, u, lo, hi)
    ensures Kept(s, u, lo, hi)
  {}

  /** Rearranging a part rearranges the whole. */
  lemma KeptWider<T>(s: seq<T>, t: seq<T>, lo: nat, a: nat, l: nat, hi: nat)
    requires Kept(s, t, a, l) && lo <= a && l <= hi <= |s|
    ensures Kept(s, t, lo, hi)
  {
    assert s[lo..hi] == s[lo..a] + s[a..l] + s[l..hi];
    assert t[lo..hi] == t[lo..a] + t[a..l] + t[l..hi];
    assert s[lo..a] == t[lo..a] && s[l..hi] == t[l..hi];
  }

  lemma SwapKept<T>(s: seq<T>, i: nat, j: nat, lo: nat, hi: nat)
    requires lo <= i < hi <= |s| && lo <= j < hi
    ensures Kept(s, s[i := s[j]][j := s[i]], lo, hi)
  {
    var m := s[lo..hi];
    assert s[i := s[j]][j := s[i]][lo..hi] == m[i-lo := m[j-lo]][j-lo := m[i-lo]];
  }

  lemma RotateKept<T>(s: seq<T>, i: nat, j: nat, k: nat, lo: nat, hi: nat)
    requires lo <= i < hi <= |s| && lo <= j < hi && lo <= k < hi && i != j && i != k && j != k
    ensures Kept(s, s[i := s[k]][k := s[j]][j := s[i]], lo, hi)
  {
    var u := s[i := s[k]][k := s[i]];
    SwapKept(s, i, k, lo, hi);
    SwapKept(u, k, j, lo, hi);
    assert s[i := s[k]][k := s[j]][j := s[i]] == u[k := u[j]][j := u[k]];
  }

  /** qsexc. */
  method Exchange<T>(arr: array<T>, i: nat, j: nat, ghost lo: nat, ghost hi: nat)
    requires lo <= i < hi <= arr.Length && lo <= j < hi
    modifies arr
    ensures arr[..] == old(arr[..])[i := old(arr[j])][j := old(arr[i])]
    ensures Kept(old(arr[..]), arr[..], lo, hi)
  {
    SwapKept(arr[..], i, j, lo, hi);
    var c := arr[i];
    arr[i] := arr[j];
    arr[j] := c;
  }

  /** qstexc: i takes k's element, k takes j's, j takes i's; j and k may be the same element. */
  method Rotate<T>(arr: array<T>, i: nat, j: nat, k: nat, ghost lo: nat, ghost hi: nat)
    requires lo <= i < hi <= arr.Length && lo <= j < hi && lo <= k < hi && i != j && i != k
    modifies arr
    ensures arr[..] == old(arr[..])[i := old(arr[k])][k := old(arr[j])][j := old(arr[i])]
    ensures Kept(old(arr[..]), arr[..], lo, hi)
  {
    ghost var s := arr[..];
    if j == k {
      SwapKept(s, i, j, lo, hi);
      assert s[i := s[k]][k := s[j]][j := s[i]] == s[i := s[j]][j := s[i]];
    } else {
      RotateKept(s, i, j, k, lo, hi);
    }
    var c := arr[i];
    arr[i] := arr[k];
    arr[k] := arr[j];
    arr[j] := c;
  }

  // ---- Partition ---------------------------------------------------------

  /** [a,i) below the pivot, [lp,hp] equal to it, (j,l) above it. */
  ghost predicate ThreeWay<T(!new)>(s: seq<T>, cmp: (T, T) -> int, pivot: T, a: nat, i: nat, lp: nat, hp: nat, j: nat,
      l: nat) {
    && a <= i <= lp <= hp <= j < l <= |s|
    && (forall x :: a <= x < i ==> cmp(s[x], pivot) < 0)
    && (forall x :: lp <= x <= hp ==> cmp(s[x], pivot) == 0)
    && (forall x :: j < x < l ==> cmp(s[x], pivot) > 0)
  }

  /** Scan from the left; done when a[i] is above the pivot or the scan has met the pivots. */
  method ScanLeft<T(!new)>(arr: array<T>, cmp: (T, T) -> int, ghost pivot: T, a: nat, i0: nat, lp0: nat,
      ghost hp: nat, ghost j: nat, l: nat)
    returns (i: nat, lp: nat, done: bool)
    requires TotalPreorder(cmp) && ThreeWay(arr[..], cmp, pivot, a, i0, lp0, hp, j, l) && i0 < lp0
    modifies arr
    ensures ThreeWay(arr[..], cmp, pivot, a, i, lp, hp, j, l) && Kept(old(arr[..]), arr[..], a, l)
    ensures if done then i == i0 && lp == lp0 && cmp(arr[i], pivot) > 0 else lp - i < lp0 - i0
  {
    i, lp, done := i0, lp0, false;
    var c := cmp(arr[i], arr[lp]);
    EqualsAlike(cmp, arr[i], arr[lp], pivot);
    if c == 0 {
      lp := lp - 1;
      Exchange(arr, i, lp, a, l);
    } else if c < 0 {
      i := i + 1;
    } else {
      done := true;
    }
  }

  /** One comparison of the right scan. */
  method ScanRight<T(!new)>(arr: array<T>, cmp: (T, T) -> int, ghost pivot: T, a: nat, i0: nat, lp0: nat, hp0: nat,
      j0: nat, l: nat)
    returns (i: nat, lp: nat, hp: nat, j: nat, atLoop: bool)
    requires TotalPreorder(cmp) && ThreeWay(arr[..], cmp, pivot, a, i0, lp0, hp0, j0, l) && hp0 < j0
    requires i0 < lp0 ==> cmp(arr[i0], pivot) > 0
    modifies arr
    ensures ThreeWay(arr[..], cmp, pivot, a, i, lp, hp, j, l) && Kept(old(arr[..]), arr[..], a, l)
    ensures (lp - i) + (j - hp) < (lp0 - i0) + (j0 - hp0)
    ensures atLoop && i < lp ==> cmp(arr[i], pivot) > 0
  {
    i, lp, hp, j, atLoop := i0, lp0, hp0, j0, true;
    var c := cmp(arr[hp], arr[j]);
    EqualsAlike(cmp, arr[j], arr[hp], pivot);
    if c == 0 {
      hp := hp + 1;
      Exchange(arr, hp, j, a, l);
    } else if c > 0 {
      if i == lp {
        hp := hp + 1;
        Rotate(arr, i, hp, j, a, l);
        lp := lp + 1;
        i := lp;
      } else {
        Exchange(arr, i, j, a, l);
        j := j - 1;
        i := i + 1;
        atLoop := false;
      }
    } else {
      j := j - 1;
    }
  }

  /** Nothing is left on the right: move the pivots down to make room for a[i]. */
  method ShiftPivots<T(!new)>(arr: array<T>, cmp: (T, T) -> int, ghost pivot: T, a: nat, i: nat, lp0: nat, hp0: nat,
      l: nat)
    returns (lp: nat, hp: nat)
    requires TotalPreorder(cmp) && ThreeWay(arr[..], cmp, pivot, a, i, lp0, hp0, hp0, l) && i < lp0
    requires cmp(arr[i], pivot) > 0
    modifies arr
    ensures ThreeWay(arr[..], cmp, pivot, a, i, lp, hp, hp, l) && Kept(old(arr[..]), arr[..], a, l)
    ensures lp == lp0 - 1
  {
    lp := lp0 - 1;
    Rotate(arr, hp0, lp, i, a, l);
    hp := hp0 - 1;
  }

  /** The inner loop of qs1, up to the point where both scans have met the pivots. */
  method Partition<T(!new)>(arr: array<T>, cmp: (T, T) -> int, a: nat, l: nat)
    returns (lp: nat, hp: nat, ghost pivot: T)
    requires TotalPreorder(cmp) && a + 1 < l <= arr.Length
    modifies arr
    ensures ThreeWay(arr[..], cmp, pivot, a, lp, lp, hp, hp, l) && Kept(old(arr[..]), arr[..], a, l)
  {
    lp := a + (l - a) / 2;
    hp := lp;
    var i: nat, j: nat := a, l - 1;
    pivot := arr[lp];
    SelfEqual(cmp, pivot);
    var atLoop := false;    // the next step starts at the label "loop"
    while true
      invariant ThreeWay(arr[..], cmp, pivot, a, i, lp, hp, j, l) && Kept(old(arr[..]), arr[..], a, l)
      invariant atLoop && i < lp ==> cmp(arr[i], pivot) > 0
      decreases (lp - i) + (j - hp)
    {
      if !atLoop && i < lp {
        var done;
        i, lp, done := ScanLeft(arr, cmp, pivot, a, i, lp, hp, j, l);
        if !done {
          continue;
        }
      }
      if j > hp {
        i, lp, hp, j, atLoop := ScanRight(arr, cmp, pivot, a, i, lp, hp, j, l);
        continue;
      }
      if i == lp {
        return;
      }
      lp, hp := ShiftPivots(arr, cmp, pivot, a, i, lp, hp, l);
      j := hp;
      atLoop := false;
    }
  }

  // ---- The sort ----------------------------------------------------------

  /** Pairs of [a0,l0) with one end outside [a,l) are in order. */
  ghost predicate OrderedAround<T(!new)>(s: seq<T>, cmp: (T, T) -> int, a0: nat, a: nat, l: nat, l0: nat)
    requires l0 <= |s|
  {
    forall p, q :: a0 <= p < q < l0 && (p < a || l <= q) ==> cmp(s[p], s[q]) <= 0
  }

  ghost predicate Ordered<T(!new)>(s: seq<T>, cmp: (T, T) -> int, a: nat, l: nat)
    requires l <= |s|
  {
    forall p, q :: a <= p < q < l ==> cmp(s[p], s[q]) <= 0
  }

  /** Every element of the rearranged range was there before. */
  lemma Origin<T>(s: seq<T>, t: seq<T>, a: nat, l: nat, q: nat) returns (p: nat)
    requires Kept(s, t, a, l) && a <= q < l
    ensures a <= p < l && s[p] == t[q]
  {
    assert t[a..l][q-a] in multiset(t[a..l]);
    var i :| 0 <= i < l - a && s[a..l][i] == t[q];
    p := a + i;
  }

  /** Rearranging [a,l) does not disturb what is in order around it. */
  lemma AroundKept<T(!new)>(s: seq<T>, t: seq<T>, cmp: (T, T) -> int, a0: nat, a: nat, l: nat, l0: nat)
    requires a0 <= a <= l <= l0 <= |s| && Kept(s, t, a, l) && OrderedAround(s, cmp, a0, a, l, l0)
    ensures OrderedAround(t, cmp, a0, a, l, l0)
  {
    forall p, q | a0 <= p < q < l0 && (p < a || l <= q) ensures cmp(t[p], t[q]) <= 0 {
      if p < a {
        if a <= q < l {
          var q' := Origin(s, t, a, l, q);
        }
      } else if p < l {
        var p' := Origin(s, t, a, l, p);
      }
    }
  }

  /** Sorting one side keeps the three-way split. */
  lemma SidesKept<T(!new)>(s: seq<T>, t: seq<T>, cmp: (T, T) -> int, pivot: T, a: nat, lp: nat, hp: nat, l: nat)
    requires ThreeWay(s, cmp, pivot, a, lp, lp, hp, hp, l)
    requires Kept(s, t, hp + 1, l) || Kept(s, t, a, lp)
    ensures ThreeWay(t, cmp, pivot, a, lp, lp, hp, hp, l)
  {
    if Kept(s, t, hp + 1, l) {
      forall x | hp < x < l ensures cmp(t[x], pivot) > 0 { var y := Origin(s, t, hp + 1, l, x); }
    } else {
      forall x | a <= x < lp ensures cmp(t[x], pivot) < 0 { var y := Origin(s, t, a, lp, x); }
    }
  }

  /** Across the pivots everything is in order. */
  lemma AcrossPivots<T(!new)>(s: seq<T>, cmp: (T, T) -> int, pivot: T, a: nat, lp: nat, hp: nat, l: nat, p: nat, q: nat)
    requires TotalPreorder(cmp) && ThreeWay(s, cmp, pivot, a, lp, lp, hp, hp, l)
    requires a <= p <= hp && lp <= q < l
    ensures cmp(s[p], s[q]) <= 0
  {
    assert Flips(cmp, pivot, s[q]) && Flips(cmp, s[q], pivot);
    assert Chains(cmp, s[p], pivot, s[q]);
  }

  /** With the right side sorted, only [a,lp) is still open. */
  lemma RightDone<T(!new)>(s: seq<T>, cmp: (T, T) -> int, pivot: T, a0: nat, a: nat, lp: nat, hp: nat, l: nat, l0: nat)
    requires TotalPreorder(cmp) && a0 <= a && l <= l0 <= |s| && ThreeWay(s, cmp, pivot, a, lp, lp, hp, hp, l)
    requires OrderedAround(s, cmp, a0, a, l, l0) && Ordered(s, cmp, hp + 1, l)
    ensures OrderedAround(s, cmp, a0, a, lp, l0)
  {
    forall p, q | a0 <= p < q < l0 && (p < a || lp <= q) ensures cmp(s[p], s[q]) <= 0 {
      if a <= p <= hp && q < l {
        AcrossPivots(s, cmp, pivot, a, lp, hp, l, p, q);
      }
    }
  }

  /** With the left side sorted, only (hp,l) is still open. */
  lemma LeftDone<T(!new)>(s: seq<T>, cmp: (T, T) -> int, pivot: T, a0: nat, a: nat, lp: nat, hp: nat, l: nat, l0: nat)
    requires TotalPreorder(cmp) && a0 <= a && l <= l0 <= |s| && ThreeWay(s, cmp, pivot, a, lp, lp, hp, hp, l)
    requires OrderedAround(s, cmp, a0, a, l, l0) && Ordered(s, cmp, a, lp)
    ensures OrderedAround(s, cmp, a0, hp + 1, l, l0)
  {
    forall p, q | a0 <= p < q < l0 && (p < hp + 1 || l <= q) ensures cmp(s[p], s[q]) <= 0 {
      if a <= p && lp <= q < l {
        AcrossPivots(s, cmp, pivot, a, lp, hp, l, p, q);
      }
    }
  }

  /** From s, partitioned into t, sorted on the right into u. */
  lemma TripRight<T(!new)>(s: seq<T>, t: seq<T>, u: seq<T>, cmp: (T, T) -> int, pivot: T, a0: nat, a: nat, lp: nat,
      hp: nat, l: nat, l0: nat)
    requires TotalPreorder(cmp) && a0 <= a && l <= l0 <= |s|
    requires OrderedAround(s, cmp, a0, a, l, l0) && Kept(s, t, a, l)
    requires ThreeWay(t, cmp, pivot, a, lp, lp, hp, hp, l)
    requires Kept(t, u, hp + 1, l) && Ordered(u, cmp, hp + 1, l)
    ensures OrderedAround(u, cmp, a0, a, lp, l0) && Kept(s, u, a0, l0)
  {
    KeptWider(t, u, a, hp + 1, l, l);
    KeptTrans(s, t, u, a, l);
    KeptWider(s, u, a0, a, l, l0);
    AroundKept(s, u, cmp, a0, a, l, l0);
    SidesKept(t, u, cmp, pivot, a, lp, hp, l);
    RightDone(u, cmp, pivot, a0, a, lp, hp, l, l0);
  }

  /** From s, partitioned into t, sorted on the left into u. */
  lemma TripLeft<T(!new)>(s: seq<T>, t: seq<T>, u: seq<T>, cmp: (T, T) -> int, pivot: T, a0: nat, a: nat, lp: nat,
      hp: nat, l: nat, l0: nat)
    requires TotalPreorder(cmp) && a0 <= a && l <= l0 <= |s|
    requires OrderedAround(s, cmp, a0, a, l, l0) && Kept(s, t, a, l)
    requires ThreeWay(t, cmp, pivot, a, lp, lp, hp, hp, l)
    requires Kept(t, u, a, lp) && Ordered(u, cmp, a, lp)
    ensures OrderedAround(u, cmp, a0, hp + 1, l, l0) && Kept(s, u, a0, l0)
  {
    KeptWider(t, u, a, a, lp, l);
    KeptTrans(s, t, u, a, l);
    KeptWider(s, u, a0, a, l, l0);
    AroundKept(s, u, cmp, a0, a, l, l0);
    SidesKept(t, u, cmp, pivot, a, lp, hp, l);
    LeftDone(u, cmp, pivot, a0, a, lp, hp, l, l0);
  }

  /**
   qs1 on [a0,l0). It nests no deeper than room more activations of itself, which by
   the precondition may be the logarithm of the size.
   */
  method Qs1<T(!new)>(arr: array<T>, cmp: (T, T) -> int, a0: nat, l0: nat, ghost room: nat)
    requires TotalPreorder(cmp) && a0 <= l0 <= arr.Length && l0 - a0 < Pow2(room + 1)
    modifies arr
    ensures Ordered(arr[..], cmp, a0, l0) && Kept(old(arr[..]), arr[..], a0, l0)
    decreases room, 1
  {
    var a, l := a0, l0;
    while l - a > 1
      invariant a0 <= a <= l <= l0
      invariant OrderedAround(arr[..], cmp, a0, a, l, l0) && Kept(old(arr[..]), arr[..], a0, l0)
      decreases l - a
    {
      ghost var s := arr[..];
      a, l := SplitAndSort(arr, cmp, a0, a, l, l0, room);
      KeptTrans(old(arr[..]), s, arr[..], a0, l0);
    }
  }

  /** A side of at most half the size has room for one activation less. */
  lemma OneDeeper(room: nat, side: nat, size: nat)
    requires 2 <= size < Pow2(room + 1) && 2 * side <= size
    ensures room > 0 && side < Pow2(room)
  {
  }

  /** One trip of qs1: partition, sort the smaller side, go on with the larger. */
  method SplitAndSort<T(!new)>(
    arr: array<T>, cmp: (T, T) -> int, ghost a0: nat, a: nat, l: nat, ghost l0: nat, ghost room: nat)
    returns (a': nat, l': nat)
    requires TotalPreorder(cmp) && a0 <= a && a + 1 < l <= l0 <= arr.Length && l - a < Pow2(room + 1)
    requires OrderedAround(arr[..], cmp, a0, a, l, l0)
    modifies arr
    ensures a <= a' <= l' <= l && l' - a' < l - a
    ensures OrderedAround(arr[..], cmp, a0, a', l', l0) && Kept(old(arr[..]), arr[..], a0, l0)
    decreases room, 0
  {
    var lp, hp;
    ghost var pivot;
    ghost var s := arr[..];
    lp, hp, pivot := Partition(arr, cmp, a, l);
    ghost var t := arr[..];
    if lp - a >= l - hp {
      OneDeeper(room, l - (hp + 1), l - a);
      Qs1(arr, cmp, hp + 1, l, room - 1);
      a', l' := a, lp;
      TripRight(s, t, arr[..], cmp, pivot, a0, a, lp, hp, l, l0);
    } else {
      OneDeeper(room, lp - a, l - a);
      Qs1(arr, cmp, a, lp, room - 1);
      a', l' := hp + 1, l;
      TripLeft(s, t, arr[..], cmp, pivot, a0, a, lp, hp, l, l0);
    }
  }

  /** The whole part of the logarithm. */
  ghost function Log2(n: nat): (r: nat)
    ensures n < Pow2(r + 1) && (n > 0 ==> Pow2(r) <= n)
  {
    if n < 2 then 0 else 1 + Log2(n / 2)
  }

  /** qsort. */
  method Qsort<T(!new)>(arr: array<T>, cmp: (T, T) -> int)
    requires TotalPreorder(cmp)
    modifies arr
    ensures Ordered(arr[..], cmp, 0, arr.Length)
    ensures multiset(arr[..]) == multiset(old(arr[..]))
  {
    Qs1(arr, cmp, 0, arr.Length, Log2(arr.Length));
    assert arr[..][0..arr.Length] == arr[..];
    assert old(arr[..])[0..arr.Length] == old(arr[..]);
  }
}
