/**
 The heap switch of pcc68: sorted cases are laid out as a left-complete search
 tree (select, makeheap) and compiled into compares and branches (walkheap).
 */
module SwitchHeap {
  import opened Arithmetic
  import opened Word
  import opened SwitchMachine

  /** A case value and its label. */
  datatype Sw = Sw(sval: int, slab: int)

  // ---- The left-complete tree on nodes 1..n ------------------------------

  /** Number of nodes up to n in the subtree of node s. */
  function SubSize(s: nat, n: nat): nat
    requires 1 <= s
    decreases n + 1 - s
  {
    if s > n then 0 else 1 + SubSize(2 * s, n) + SubSize(2 * s + 1, n)
  }

  /** Leftmost descendant of s, h levels down. */
  function Leftmost(s: nat, h: nat): nat
    decreases h
  {
    if h == 0 then s else Leftmost(2 * s, h - 1)
  }

  /** Leftmost descendants of neighbours are 2^h apart. */
  lemma {:induction false} LeftmostNext(s: nat, h: nat)
    ensures Leftmost(s + 1, h) == Leftmost(s, h) + Pow2(h)
    decreases h
  {
    if h > 0 {
      LeftmostNext(2 * s, h - 1);
      LeftmostNext(2 * s + 1, h - 1);
    }
  }

  lemma {:induction false} LeftmostDouble(s: nat, h: nat)
    ensures Leftmost(s, h + 1) == 2 * Leftmost(s, h)
    decreases h
  {
    if h > 0 {
      LeftmostDouble(2 * s, h - 1);
    }
  }

  function Min(a: int, b: int): int {
    if a < b then a else b
  }

  lemma {:induction false} LeftmostAtLeast(s: nat, h: nat)
    requires 1 <= s
    ensures Leftmost(s, h) >= Pow2(h)
  {
    if h > 0 {
      LeftmostDouble(s, h - 1);
      LeftmostAtLeast(s, h - 1);
    }
  }

  /** Leftmost leaves of the two children. */
  lemma ChildLeaves(s: nat, h: nat)
    requires 1 <= s && 1 <= h
    ensures Leftmost(s, h + 1) == 2 * Leftmost(s, h)
    ensures Leftmost(2 * s, h - 1) == Leftmost(s, h) && Leftmost(2 * s, h) == 2 * Leftmost(s, h)
    ensures Leftmost(2 * s + 1, h - 1) == Leftmost(s, h) + Pow2(h - 1)
    ensures Leftmost(2 * s + 1, h) == 2 * Leftmost(s, h) + 2 * Pow2(h - 1)
    ensures h >= 2 ==> 2 * Leftmost(2 * s + 1, h - 2) == Leftmost(s, h) + Pow2(h - 1)
    ensures Leftmost(s, h) >= Pow2(h) == 2 * Pow2(h - 1)
  {
    LeftmostDouble(s, h);
    LeftmostNext(2 * s, h - 1);
    LeftmostNext(2 * s, h);
    LeftmostAtLeast(s, h);
    if h >= 2 {
      LeftmostDouble(2 * s + 1, h - 2);
    }
  }

  /** Size of a left-complete subtree from the depth of its leftmost leaf. */
  lemma {:induction false} SubSizeIs(s: nat, n: nat, h: nat)
    requires 1 <= s && Leftmost(s, h) <= n < Leftmost(s, h + 1)
    ensures SubSize(s, n) == Pow2(h) - 1 + Min(n - Leftmost(s, h) + 1, Pow2(h))
    decreases h, 1
  {
    LeftmostGrows(s, h);
    if h == 0 {
      assert Leftmost(s, 1) == 2 * s;
    } else {
      ChildLeaves(s, h);
      SubSizeIs(2 * s, n, h - 1);
      RightSize(s, n, h);
      assert SubSize(s, n) == 1 + SubSize(2 * s, n) + SubSize(2 * s + 1, n);
    }
  }

  /** The right subtree takes what the last level has left over. */
  lemma {:induction false} RightSize(s: nat, n: nat, h: nat)
    requires 1 <= s && 1 <= h && Leftmost(s, h) <= n < Leftmost(s, h + 1)
    ensures SubSize(2 * s + 1, n) == Pow2(h - 1) - 1 + Max0(Min(n - Leftmost(s, h) - Pow2(h - 1) + 1, Pow2(h - 1)))
    decreases h, 0
  {
    ChildLeaves(s, h);
    if Leftmost(2 * s + 1, h - 1) <= n {
      SubSizeIs(2 * s + 1, n, h - 1);
    } else if h >= 2 {
      SubSizeIs(2 * s + 1, n, h - 2);
      assert Pow2(h - 1) == 2 * Pow2(h - 2);
    } else {
      assert Leftmost(2 * s + 1, 0) == 2 * s + 1 && Pow2(0) == 1;
    }
  }

  function Max0(a: int): int {
    if a < 0 then 0 else a
  }

  lemma {:induction false} LeftmostGrows(s: nat, h: nat)
    ensures s <= Leftmost(s, h)
    decreases h
  {
    if h > 0 {
      LeftmostGrows(2 * s, h - 1);
    }
  }

  /** Depth of the leftmost leaf of s. */
  lemma {:induction false} LeafDepth(s: nat, n: nat) returns (h: nat)
    requires 1 <= s <= n
    ensures Leftmost(s, h) <= n < Leftmost(s, h + 1)
    decreases n - s
  {
    if n < 2 * s {
      h := 0;
    } else {
      h := LeafDepth(2 * s, n);
      h := h + 1;
    }
  }

  /** All n nodes hang below node 1. */
  lemma RootSize(n: nat)
    ensures SubSize(1, n) == n
  {
    if n > 0 {
      var h := LeafDepth(1, n);
      SubSizeIs(1, n, h);
      OneIsPow2(h);
      OneIsPow2(h + 1);
    }
  }

  lemma {:induction false} OneIsPow2(h: nat)
    ensures Leftmost(1, h) == Pow2(h)
  {
    if h > 0 {
      LeftmostDouble(1, h - 1);
      OneIsPow2(h - 1);
    }
  }

  // ---- select ------------------------------------------------------------

  /** select: rank of the root among m sorted cases, for the subtree of node s. */
  method Select(m: nat, ghost s: nat, ghost n: nat) returns (q: nat)
    requires 1 <= s <= n && m == SubSize(s, n)
    ensures q == SubSize(2 * s, n) + 1
    ensures 1 <= q <= m
  {
    var i := 1;
    ghost var e := 0;
    while i - 1 <= m
      invariant i == Pow2(e) && (e == 0 || Pow2(e - 1) - 1 <= m)
      decreases m + 2 - i
    {
      i := i * 2;
      e := e + 1;
    }
    var k := i / 2 - 1;
    var l := (k + 1) / 2;
    q := l + (if m - k < l then m - k else l);
    SelectRank(s, n, e);
  }

  /** The arithmetic of select on 2^e, the first power of two above m + 1. */
  lemma SelectRank(s: nat, n: nat, e: nat)
    requires 1 <= s <= n
    requires 1 <= e && Pow2(e - 1) - 1 <= SubSize(s, n) < Pow2(e) - 1
    ensures var k := Pow2(e) / 2 - 1;
      var l := (k + 1) / 2;
      SubSize(2 * s, n) + 1 == l + Min(SubSize(s, n) - k, l)
  {
    var h := LeafDepth(s, n);
    var c := Min(n - Leftmost(s, h) + 1, Pow2(h));
    SubSizeIs(s, n, h);
    LeftSize(s, n, h, c);
    if e < h + 1 {
      Pow2Mono(e, h);
    } else if e > h + 2 {
      Pow2Mono(h + 2, e - 1);
    }
    PowSteps(h);
    SelectArith(Pow2(h), c, Pow2(e), SubSize(2 * s, n));
  }

  lemma PowSteps(h: nat)
    ensures Pow2(h + 1) == 2 * Pow2(h) && Pow2(h + 2) == 4 * Pow2(h)
    ensures Pow2(h) == 1 || Pow2(h) % 2 == 0
  {}

  lemma LeftSize(s: nat, n: nat, h: nat, c: int)
    requires 1 <= s && Leftmost(s, h) <= n < Leftmost(s, h + 1) && c == Min(n - Leftmost(s, h) + 1, Pow2(h))
    ensures 1 <= c <= Pow2(h)
    ensures SubSize(2 * s, n) == if h == 0 then 0 else Pow2(h) / 2 - 1 + Min(c, Pow2(h) / 2)
    ensures h == 0 <==> Pow2(h) == 1
  {
    if h == 0 {
      assert Leftmost(s, 1) == 2 * s;
    } else {
      ChildLeaves(s, h);
      SubSizeIs(2 * s, n, h - 1);
    }
  }

  /** select on m = p - 1 + c nodes, p a power of two. */
  lemma SelectArith(p: int, c: int, power: int, left: int)
    requires 1 <= c <= p && (p == 1 || p % 2 == 0)
    requires left == if p == 1 then 0 else p / 2 - 1 + Min(c, p / 2)
    requires power == if c < p then 2 * p else 4 * p
    ensures var k := power / 2 - 1;
      var l := (k + 1) / 2;
      left + 1 == l + Min(p - 1 + c - k, l)
  {}

  // ---- Contents of the tree ----------------------------------------------

  /** In-order traversal of the subtree of s. */
  function InOrder(heap: seq<Sw>, s: nat, n: nat): (r: seq<Sw>)
    requires 1 <= s && n < |heap|
    ensures |r| == SubSize(s, n)
    decreases n + 1 - s
  {
    if s > n then [] else InOrder(heap, 2 * s, n) + [heap[s]] + InOrder(heap, 2 * s + 1, n)
  }

  /** Node i lies in the subtree of s. */
  predicate Below(s: nat, i: nat)
    decreases i
  {
    1 <= s <= i && (i == s || Below(s, i / 2))
  }

  lemma {:induction false} BelowChild(s: nat, i: nat)
    requires 1 <= s
    ensures Below(2 * s, i) || Below(2 * s + 1, i) <==> i != s && Below(s, i)
    ensures !(Below(2 * s, i) && Below(2 * s + 1, i))
    decreases i
  {
    if i > s {
      BelowChild(s, i / 2);
    }
  }

  /** Every node hangs below the root. */
  lemma {:induction false} RootBelow(i: nat)
    requires 1 <= i
    ensures Below(1, i)
    decreases i
  {
    if i > 1 {
      RootBelow(i / 2);
    }
  }

  /** The traversal of a subtree reads only that subtree. */
  lemma {:induction false} InOrderFrame(heap: seq<Sw>, heap': seq<Sw>, s: nat, n: nat)
    requires 1 <= s && n < |heap| == |heap'|
    requires forall i {:trigger Below(s, i)} :: 0 <= i <= n && Below(s, i) ==> heap[i] == heap'[i]
    ensures InOrder(heap, s, n) == InOrder(heap', s, n)
    decreases n + 1 - s
  {
    if s <= n {
      assert Below(s, s);
      forall i | 0 <= i <= n && (Below(2 * s, i) || Below(2 * s + 1, i)) ensures heap[i] == heap'[i] {
        BelowChild(s, i);
      }
      InOrderFrame(heap, heap', 2 * s, n);
      InOrderFrame(heap, heap', 2 * s + 1, n);
    }
  }

  /** makeheap: lay out sw[p+1..p+m] in the subtree of node s of an n-node heap; w is what sw holds. */
  method MakeHeap(sw: array<Sw>, heap: array<Sw>, p: nat, m: nat, s: nat, ghost n: nat, ghost w: seq<Sw>)
    requires sw != heap && w == sw[..]
    requires 1 <= s <= n < heap.Length && m == SubSize(s, n) && p + m < sw.Length
    modifies heap
    ensures InOrder(heap[..], s, n) == w[p+1..p+m+1]
    ensures forall i :: 0 <= i < heap.Length && (n < i || !Below(s, i)) ==> heap[i] == old(heap[i])
    decreases n - s
  {
    var q := Select(m, s, n);
    heap[s] := sw[p+q];
    if q > 1 {
      MakeHeap(sw, heap, p, q - 1, 2 * s, n, w);
    }
    BelowSelf(s);
    assert InOrder(heap[..], 2 * s, n) == w[p+1..p+q];
    ghost var half := heap[..];
    if q < m {
      MakeHeap(sw, heap, p + q, m - q, 2 * s + 1, n, w);
    }
    ghost var full := heap[..];
    KeepsLeft(half, full, s, n);
    assert InOrder(full, 2 * s + 1, n) == w[p+q+1..p+m+1] && full[s] == w[p+q];
    Laid(full, s, n, w, p, q, m);
    BelowChildren(s);
  }

  /** A case between its two subtrees. */
  lemma Laid(heap: seq<Sw>, s: nat, n: nat, w: seq<Sw>, p: nat, q: nat, m: nat)
    requires 1 <= s <= n < |heap| && 1 <= q <= m && p + m < |w| && heap[s] == w[p+q]
    requires InOrder(heap, 2 * s, n) == w[p+1..p+q] && InOrder(heap, 2 * s + 1, n) == w[p+q+1..p+m+1]
    ensures InOrder(heap, s, n) == w[p+1..p+m+1]
  {
    assert w[p+1..p+m+1] == w[p+1..p+q] + [w[p+q]] + w[p+q+1..p+m+1];
  }

  lemma BelowSelf(s: nat)
    requires 1 <= s
    ensures Below(s, s) && !Below(2 * s, s) && !Below(2 * s + 1, s)
  {}

  lemma BelowChildren(s: nat)
    requires 1 <= s
    ensures forall i: nat :: Below(2 * s, i) || Below(2 * s + 1, i) ==> Below(s, i)
  {
    forall i: nat | Below(2 * s, i) || Below(2 * s + 1, i) ensures Below(s, i) { BelowChild(s, i); }
  }

  /** Filling the right subtree leaves the left one alone. */
  lemma KeepsLeft(heap: seq<Sw>, heap': seq<Sw>, s: nat, n: nat)
    requires 1 <= s && n < |heap| == |heap'|
    requires forall i :: 0 <= i < |heap| && (n < i || !Below(2 * s + 1, i)) ==> heap'[i] == heap[i]
    ensures InOrder(heap, 2 * s, n) == InOrder(heap', 2 * s, n)
  {
    forall i | 0 <= i <= n && Below(2 * s, i) ensures heap[i] == heap'[i] {
      BelowChild(s, i);
    }
    InOrderFrame(heap, heap', 2 * s, n);
  }

  // ---- Code --------------------------------------------------------------

  /** The code of walkheap for the subtree of s, and the next free label. */
  function WalkCode(heap: seq<Sw>, s: nat, n: nat, next: int): (r: (seq<Instr>, int))
    requires 1 <= s && n < |heap|
    ensures next <= r.1
    decreases n + 1 - s
  {
    if s > n then ([], next)
    else
      var test := [Cmpl(heap[s].sval), Beq(heap[s].slab)];
      if 2 * s > n then (test + [Bra(heap[0].slab)], next)
      else if 2 * s + 1 <= n then
        var left := WalkCode(heap, 2 * s, n, next + 1);
        var right := WalkCode(heap, 2 * s + 1, n, left.1);
        (test + [Bgt(next)] + left.0 + [LabelDef(next)] + right.0, right.1)
      else
        var left := WalkCode(heap, 2 * s, n, next);
        (test + [Bgt(heap[0].slab)] + left.0, left.1)
  }

  /** Where the tree below s sends a value. */
  function Target(heap: seq<Sw>, s: nat, n: nat, x: int): int
    requires 1 <= s && n < |heap|
    decreases n + 1 - s
  {
    if s > n then heap[0].slab
    else if x == heap[s].sval then heap[s].slab
    else if x > heap[s].sval then Target(heap, 2 * s + 1, n, x)
    else Target(heap, 2 * s, n, x)
  }

  /** Number of levels below and including s. */
  function Height(s: nat, n: nat): nat
    requires 1 <= s
    decreases n + 1 - s
  {
    if s > n then 0 else 1 + Height(2 * s, n)
  }

  lemma {:induction false} HeightMono(s: nat, t: nat, n: nat)
    requires 1 <= s <= t
    ensures Height(t, n) <= Height(s, n)
    decreases n + 1 - s
  {
    if t <= n {
      HeightMono(2 * s, 2 * t, n);
    }
  }

  /** The tree has floor(log2 n) + 1 levels. */
  lemma {:induction false} HeightIsLog(s: nat, n: nat)
    requires 1 <= s <= n
    ensures Height(s, n) >= 1
    ensures Leftmost(s, Height(s, n) - 1) <= n < Leftmost(s, Height(s, n))
    decreases n - s
  {
    if 2 * s <= n {
      HeightIsLog(2 * s, n);
    } else {
      assert Height(2 * s, n) == 0;
      assert Leftmost(s, 1) == 2 * s;
    }
  }

  /** Labels that the code defines are the ones it allocated. */
  lemma {:induction false} WalkDefines(heap: seq<Sw>, s: nat, n: nat, next: int, l: int)
    requires 1 <= s && n < |heap|
    requires LabelDef(l) in WalkCode(heap, s, n, next).0
    ensures next <= l < WalkCode(heap, s, n, next).1
    decreases n + 1 - s
  {
    if 2 * s + 1 <= n {
      var left := WalkCode(heap, 2 * s, n, next + 1);
      var right := WalkCode(heap, 2 * s + 1, n, left.1);
      if LabelDef(l) in left.0 {
        WalkDefines(heap, 2 * s, n, next + 1, l);
      } else if LabelDef(l) in right.0 {
        WalkDefines(heap, 2 * s + 1, n, left.1, l);
      }
    } else if 2 * s <= n {
      WalkDefines(heap, 2 * s, n, next, l);
    }
  }

  /** Labels the tree may branch to are older than the code, and rest does not resume behind them. */
  ghost predicate Outside(heap: seq<Sw>, n: nat, next: int, rest: seq<Instr>)
    requires n < |heap|
  {
    forall i :: 0 <= i <= n ==> heap[i].slab < next && Catches(rest, heap[i].slab)
  }

  /** Putting code that defines only new labels in front of rest changes nothing for the tree's targets. */
  lemma OutsideOver(heap: seq<Sw>, n: nat, next: int, next': int, front: seq<Instr>, rest: seq<Instr>)
    requires n < |heap| && Outside(heap, n, next, rest) && next <= next'
    requires forall l :: LabelDef(l) in front ==> next <= l
    ensures Outside(heap, n, next', front + rest)
    ensures forall i :: 0 <= i <= n ==> Landing(heap[i].slab, front + rest) == Landing(heap[i].slab, rest)
  {
    forall i | 0 <= i <= n
      ensures Catches(front + rest, heap[i].slab)
      ensures Landing(heap[i].slab, front + rest) == Landing(heap[i].slab, rest)
    {
      JumpOver(front, rest, heap[i].slab);
    }
  }

  lemma {:induction false} TargetIsSlab(heap: seq<Sw>, s: nat, n: nat, x: int) returns (i: nat)
    requires 1 <= s && n < |heap|
    ensures i <= n && Target(heap, s, n, x) == heap[i].slab
    decreases n + 1 - s
  {
    if s > n {
      i := 0;
    } else if x == heap[s].sval {
      i := s;
    } else if x > heap[s].sval {
      i := TargetIsSlab(heap, 2 * s + 1, n, x);
    } else {
      i := TargetIsSlab(heap, 2 * s, n, x);
    }
  }

  /** A compare and its beq. */
  lemma RunTest(v: int, l: int, tail: seq<Instr>, st: State)
    ensures var st' := st.(cmp := (st.d0, v));
      var r := if st.d0 == v then Jump(l, tail, st') else Exec(tail, st');
      Exec([Cmpl(v), Beq(l)] + tail, st) == r.(compares := r.compares + 1)
  {
    var code := [Cmpl(v), Beq(l)] + tail;
    assert code[1..] == [Beq(l)] + tail && code[1..][1..] == tail;
  }

  lemma RunBgt(l: int, tail: seq<Instr>, st: State)
    ensures Exec([Bgt(l)] + tail, st) == if st.cmp.0 > st.cmp.1 then Jump(l, tail, st) else Exec(tail, st)
  {
    assert ([Bgt(l)] + tail)[1..] == tail;
  }

  /** The tree below s runs correctly in front of rest. */
  ghost predicate Runs(heap: seq<Sw>, s: nat, n: nat, next: int, rest: seq<Instr>, st: State)
    requires 1 <= s && n < |heap|
  {
    var r := Exec(WalkCode(heap, s, n, next).0 + rest, st);
    r.outcome == Landing(Target(heap, s, n, st.d0), rest) && r.compares <= Height(s, n)
  }

  /** A leaf: equal, or off to the default. */
  lemma RunLeaf(heap: seq<Sw>, s: nat, n: nat, next: int, rest: seq<Instr>, st: State)
    requires 1 <= s <= n < |heap| && 2 * s > n
    requires Outside(heap, n, next, rest)
    ensures Runs(heap, s, n, next, rest, st)
  {
    var c, d := heap[s], heap[0].slab;
    LeafCode(heap, s, n, next, rest);
    RunTest(c.sval, c.slab, [Bra(d)] + rest, st);
    JumpOver([Bra(d)], rest, c.slab);
    assert ([Bra(d)] + rest)[1..] == rest;
    JumpLands(c.slab, [Bra(d)] + rest, st.(cmp := (st.d0, c.sval)));
    JumpLands(d, rest, st.(cmp := (st.d0, c.sval)));
  }

  lemma RunTestBgt(v: int, l: int, next: int, tail: seq<Instr>, st: State)
    ensures var st' := st.(cmp := (st.d0, v));
      var r := if st.d0 == v then Jump(l, [Bgt(next)] + tail, st') else if st.d0 > v then Jump(next, tail, st')
        else Exec(tail, st');
      Exec([Cmpl(v), Beq(l)] + ([Bgt(next)] + tail), st) == r.(compares := r.compares + 1)
  {
    RunTest(v, l, [Bgt(next)] + tail, st);
    RunBgt(next, tail, st.(cmp := (st.d0, v)));
  }

  lemma WalkHalfCode(heap: seq<Sw>, s: nat, n: nat, next: int, rest: seq<Instr>, left: seq<Instr>)
    requires 1 <= s && 2 * s == n < |heap| && left == WalkCode(heap, n, n, next).0
    ensures WalkCode(heap, s, n, next).0 + rest
      == [Cmpl(heap[s].sval), Beq(heap[s].slab)] + ([Bgt(heap[0].slab)] + (left + rest))
  {}

  /** The three ways through a node with a left child only. */
  lemma HalfExec(heap: seq<Sw>, s: nat, n: nat, next: int, rest: seq<Instr>, st: State, left: seq<Instr>)
    requires 1 <= s && 2 * s == n < |heap| && left == WalkCode(heap, n, n, next).0
    ensures var c, d := heap[s], heap[0].slab;
      var st' := st.(cmp := (st.d0, c.sval));
      var r :=
        if st.d0 == c.sval then Jump(c.slab, [Bgt(d)] + (left + rest), st')
        else if st.d0 > c.sval then Jump(d, left + rest, st')
        else Exec(left + rest, st');
      Exec(WalkCode(heap, s, n, next).0 + rest, st) == r.(compares := r.compares + 1)
  {
    WalkHalfCode(heap, s, n, next, rest, left);
    RunTestBgt(heap[s].sval, heap[s].slab, heap[0].slab, left + rest, st);
  }

  /** A node with a left child only. */
  lemma RunHalf(heap: seq<Sw>, s: nat, n: nat, next: int, rest: seq<Instr>, st: State)
    requires 1 <= s && 2 * s == n < |heap|
    requires Outside(heap, n, next, rest)
    requires Runs(heap, 2 * s, n, next, rest, st.(cmp := (st.d0, heap[s].sval)))
    ensures Runs(heap, s, n, next, rest, st)
  {
    var c, d := heap[s], heap[0].slab;
    var left := WalkCode(heap, n, n, next).0;
    var st' := st.(cmp := (st.d0, c.sval));
    HalfExec(heap, s, n, next, rest, st, left);
    forall l | LabelDef(l) in left ensures next <= l { WalkDefines(heap, n, n, next, l); }
    if st.d0 == c.sval {
      OutsideOver(heap, n, next, next, [Bgt(d)] + left, rest);
      assert [Bgt(d)] + left + rest == [Bgt(d)] + (left + rest);
      JumpLands(c.slab, [Bgt(d)] + (left + rest), st');
    } else if st.d0 > c.sval {
      OutsideOver(heap, n, next, next, left, rest);
      JumpLands(d, left + rest, st');
    }
  }

  lemma WalkFullCode(heap: seq<Sw>, s: nat, n: nat, next: int, rest: seq<Instr>, left: (seq<Instr>, int),
      right: seq<Instr>)
    requires 1 <= s && 2 * s + 1 <= n < |heap|
    requires left == WalkCode(heap, 2 * s, n, next + 1) && right == WalkCode(heap, 2 * s + 1, n, left.1).0
    ensures WalkCode(heap, s, n, next).0 + rest
      == [Cmpl(heap[s].sval), Beq(heap[s].slab)] + ([Bgt(next)] + (left.0 + ([LabelDef(next)] + right + rest)))
  {}

  lemma JumpRight(left: seq<Instr>, next: int, right: seq<Instr>, rest: seq<Instr>, st: State)
    requires LabelDef(next) !in left
    ensures Jump(next, left + ([LabelDef(next)] + right + rest), st) == Exec(right + rest, st)
  {
    assert left + ([LabelDef(next)] + right + rest) == left + [LabelDef(next)] + (right + rest);
    JumpTo(left, next, right + rest, st);
  }

  /** The three ways through a node with two children. */
  lemma FullExec(heap: seq<Sw>, s: nat, n: nat, next: int, rest: seq<Instr>, st: State, left: (seq<Instr>, int),
      right: seq<Instr>)
    requires 1 <= s && 2 * s + 1 <= n < |heap|
    requires left == WalkCode(heap, 2 * s, n, next + 1) && right == WalkCode(heap, 2 * s + 1, n, left.1).0
    ensures var c := heap[s];
      var st' := st.(cmp := (st.d0, c.sval));
      var rest1 := left.0 + ([LabelDef(next)] + right + rest);
      var r :=
        if st.d0 == c.sval then Jump(c.slab, [Bgt(next)] + rest1, st')
        else if st.d0 > c.sval then Exec(right + rest, st')
        else Exec(rest1, st');
      Exec(WalkCode(heap, s, n, next).0 + rest, st) == r.(compares := r.compares + 1)
  {
    var c := heap[s];
    WalkFullCode(heap, s, n, next, rest, left, right);
    RunTestBgt(c.sval, c.slab, next, left.0 + ([LabelDef(next)] + right + rest), st);
    FullDefines(heap, s, n, next, left, right);
    JumpRight(left.0, next, right, rest, st.(cmp := (st.d0, c.sval)));
  }

  /** A node with two children. */
  lemma RunFull(heap: seq<Sw>, s: nat, n: nat, next: int, rest: seq<Instr>, st: State, left: (seq<Instr>, int),
      right: seq<Instr>)
    requires 1 <= s && 2 * s + 1 <= n < |heap|
    requires Outside(heap, n, next, rest)
    requires left == WalkCode(heap, 2 * s, n, next + 1) && right == WalkCode(heap, 2 * s + 1, n, left.1).0
    requires Runs(heap, 2 * s, n, next + 1, [LabelDef(next)] + right + rest, st.(cmp := (st.d0, heap[s].sval)))
    requires Runs(heap, 2 * s + 1, n, left.1, rest, st.(cmp := (st.d0, heap[s].sval)))
    ensures Runs(heap, s, n, next, rest, st)
  {
    var c := heap[s];
    var rest1 := [LabelDef(next)] + right + rest;
    FullExec(heap, s, n, next, rest, st, left, right);
    FullDefines(heap, s, n, next, left, right);
    OutsideOver(heap, n, next, next, [LabelDef(next)] + right, rest);
    if st.d0 == c.sval {
      OutsideOver(heap, n, next, next, [Bgt(next)] + left.0, rest1);
      assert [Bgt(next)] + left.0 + rest1 == [Bgt(next)] + (left.0 + rest1);
      JumpLands(c.slab, [Bgt(next)] + (left.0 + rest1), st.(cmp := (st.d0, c.sval)));
    } else if st.d0 > c.sval {
      HeightMono(2 * s, 2 * s + 1, n);
    } else {
      var i := TargetIsSlab(heap, 2 * s, n, st.d0);
      assert Landing(heap[i].slab, rest1) == Landing(heap[i].slab, rest);
    }
  }

  lemma FullDefines(heap: seq<Sw>, s: nat, n: nat, next: int, left: (seq<Instr>, int), right: seq<Instr>)
    requires 1 <= s && 2 * s + 1 <= n < |heap|
    requires left == WalkCode(heap, 2 * s, n, next + 1) && right == WalkCode(heap, 2 * s + 1, n, left.1).0
    ensures forall l :: LabelDef(l) in [LabelDef(next)] + right ==> next <= l
    ensures forall l :: LabelDef(l) in [Bgt(next)] + left.0 ==> next <= l
    ensures LabelDef(next) !in left.0
  {
    forall l | LabelDef(l) in right ensures left.1 <= l { WalkDefines(heap, 2 * s + 1, n, left.1, l); }
    forall l | LabelDef(l) in left.0 ensures next + 1 <= l { WalkDefines(heap, 2 * s, n, next + 1, l); }
  }

  /** Running the code on a value goes where the tree sends it, with at most one compare a level. */
  lemma {:induction false} WalkRuns(heap: seq<Sw>, s: nat, n: nat, next: int, rest: seq<Instr>, st: State)
    requires 1 <= s <= n < |heap|
    requires Outside(heap, n, next, rest)
    ensures Runs(heap, s, n, next, rest, st)
    decreases n - s
  {
    var st' := st.(cmp := (st.d0, heap[s].sval));
    if 2 * s > n {
      RunLeaf(heap, s, n, next, rest, st);
    } else if 2 * s == n {
      WalkRuns(heap, 2 * s, n, next, rest, st');
      RunHalf(heap, s, n, next, rest, st);
    } else {
      var left := WalkCode(heap, 2 * s, n, next + 1);
      var right := WalkCode(heap, 2 * s + 1, n, left.1).0;
      FullDefines(heap, s, n, next, left, right);
      OutsideOver(heap, n, next, next + 1, [LabelDef(next)] + right, rest);
      WalkRuns(heap, 2 * s, n, next + 1, [LabelDef(next)] + right + rest, st');
      WalkRuns(heap, 2 * s + 1, n, left.1, rest, st');
      RunFull(heap, s, n, next, rest, st, left, right);
    }
  }

  lemma LeafCode(heap: seq<Sw>, s: nat, n: nat, next: int, rest: seq<Instr>)
    requires 1 <= s <= n < |heap| && 2 * s > n
    ensures WalkCode(heap, s, n, next).0 + rest == [Cmpl(heap[s].sval), Beq(heap[s].slab)] +
      ([Bra(heap[0].slab)] + rest)
  {}
}
