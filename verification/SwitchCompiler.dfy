/**
 Switch compilation in pcc68: the case table of cgram.c and genswitch of code.c.
 */
module SwitchCompiler {
  import opened Arithmetic
  import opened Word
  import opened SwitchMachine
  import opened SwitchHeap
  import opened SwitchSearch

  const SWITSZ := 500

  datatype AddResult = Added(lab: int) | DuplicateDefault | NotInSwitch | TableOverflow
  datatype EndResult = Compiled | DuplicateCase

  /** Every node of the heap shows up in its traversal. */
  lemma {:induction false} NodeInOrder(heap: seq<Sw>, s: nat, n: nat, i: nat)
    requires 1 <= s && i <= n < |heap| && Below(s, i)
    ensures heap[i] in InOrder(heap, s, n)
    decreases n + 1 - s
  {
    if i != s {
      BelowChild(s, i);
      if Below(2 * s, i) {
        NodeInOrder(heap, 2 * s, n, i);
      } else {
        NodeInOrder(heap, 2 * s + 1, n, i);
      }
    }
  }

  /** Lookup of the next table value, with the cases before i already below it. */
  lemma {:induction false} LookupNext(cases: seq<Sw>, i: nat, j: int, default: int)
    requires Ascending(cases) && i < |cases| && j <= cases[i].sval
    requires i > 0 ==> cases[i-1].sval < j
    ensures Lookup(cases, j, default) == if j == cases[i].sval then cases[i].slab else default
  {
    AscendingDistinct(cases);
    if j == cases[i].sval {
      LookupHit(cases, i, default);
    } else {
      forall k | 0 <= k < |cases| ensures cases[k].sval != j {
        assert k < i ==> cases[k].sval <= cases[i-1].sval;
        assert k > i ==> cases[i].sval < cases[k].sval;
      }
      LookupNone(cases, j, default);
    }
  }

  /** Values strictly increase across the sorted, duplicate-free range. */
  lemma {:induction false} AscendingSpan(cases: seq<Sw>)
    requires Ascending(cases) && cases != []
    ensures cases[|cases|-1].sval - cases[0].sval >= |cases| - 1
  {
    if |cases| > 1 {
      var front := cases[..|cases|-1];
      AscendingSpan(front);
      assert front[|front|-1] == cases[|cases|-2];
    }
  }

  class SwitchCompiler {
    const swtab: array<Sw>      // open switches: a default entry, then the cases
    const heapsw: array<Sw>
    var swp: nat                // next free entry
    var swx: nat                // default entry of the innermost switch
    var code: seq<Instr>        // emitted so far
    var nextLabel: int

    ghost predicate Valid()
      reads this, swtab
    {
      && swtab.Length == SWITSZ && heapsw.Length == SWITSZ && swtab != heapsw
      && swp <= SWITSZ && swx <= swp && swx < SWITSZ && 0 <= nextLabel
      && (forall i :: 0 <= i < SWITSZ ==> swtab[i].slab < nextLabel && Is32(swtab[i].sval))
      && (forall i :: swx < i < swp ==> 0 <= swtab[i].slab)
    }

    /** The cases of the innermost switch, in source order. */
    ghost function Cases(): seq<Sw>
      requires Valid()
      reads this, swtab
    {
      if swx < swp then swtab[swx+1..swp] else []
    }

    ghost function Default(): int
      requires Valid()
      reads this, swtab
    {
      swtab[swx].slab
    }

    constructor ()
      ensures Valid() && swp == 0 && swx == 0 && code == [] && Default() == 0 && fresh(swtab) && fresh(heapsw)
    {
      swtab := new Sw[SWITSZ](_ => Sw(0, 0));
      heapsw := new Sw[SWITSZ](_ => Sw(0, 0));
      swp, swx, code, nextLabel := 0, 0, [], 10;
    }

    method GetLab() returns (l: int)
      requires Valid()
      modifies this`nextLabel
      ensures Valid() && l == old(nextLabel) && nextLabel == l + 1
    {
      l := nextLabel;
      nextLabel := nextLabel + 1;
    }

    /** swstart: open a switch without cases or default. */
    method SwStart() returns (ok: bool)
      requires Valid()
      modifies this`swp, this`swx, swtab
      ensures Valid() && ok == (old(swp) < SWITSZ)
      ensures ok ==> swx == old(swp) && swp == swx + 1 && Cases() == [] && Default() == -1
      ensures ok ==> forall i :: 0 <= i < old(swp) ==> swtab[i] == old(swtab[i])
    {
      if swp >= SWITSZ {
        return false;
      }
      swx := swp;
      swtab[swp] := swtab[swp].(slab := -1);
      swp := swp + 1;
      ok := true;
    }

    /** addcase, for a constant v. */
    method AddCase(v: int) returns (r: AddResult)
      requires Valid() && Is32(v)
      modifies this`swp, this`code, this`nextLabel, swtab
      ensures Valid() && swx == old(swx)
      ensures r.Added? <==> 0 < old(swp) < SWITSZ
      ensures (r.NotInSwitch? <==> old(swp) == 0) && (r.TableOverflow? <==> old(swp) >= SWITSZ)
      ensures r.Added? && old(swx < swp) ==> Cases() == old(Cases()) + [Sw(v, r.lab)] && Default() == old(Default())
      ensures r.Added? ==> r.lab == old(nextLabel) && code == old(code) + [LabelDef(r.lab)]
      ensures !r.Added? ==> swp == old(swp) && code == old(code) && swtab[..] == old(swtab[..])
    {
      if swp == 0 {
        return NotInSwitch;
      }
      if swp >= SWITSZ {
        return TableOverflow;
      }
      var l := GetLab();
      code := code + [LabelDef(l)];
      swtab[swp] := Sw(v, l);
      swp := swp + 1;
      r := Added(l);
    }

    /** adddef. */
    method AddDef() returns (r: AddResult)
      requires Valid()
      modifies this`code, this`nextLabel, swtab
      ensures Valid() && swx == old(swx) && swp == old(swp)
      ensures r.Added? <==> old(swtab[swx].slab) < 0 && swp != 0
      ensures r.DuplicateDefault? <==> old(swtab[swx].slab) >= 0
      ensures r.NotInSwitch? <==> old(swtab[swx].slab) < 0 && swp == 0
      ensures Cases() == old(Cases()) && (!r.Added? ==> swtab[..] == old(swtab[..]) && nextLabel == old(nextLabel))
      ensures Default() == if r.Added? then r.lab else old(Default())
      ensures r.Added? ==> r.lab == old(nextLabel) && code == old(code) + [LabelDef(r.lab)]
    {
      if swtab[swx].slab >= 0 {
        return DuplicateDefault;
      }
      if swp == 0 {
        return NotInSwitch;
      }
      var l := GetLab();
      code := code + [LabelDef(l)];
      swtab[swx] := swtab[swx].(slab := l);
      r := Added(l);
    }

    /** Largest-so-far property that the bubble pass leaves behind it. */
    ghost predicate Settled(lo: nat, from: int, to: int)
      requires to < swtab.Length
      reads swtab
    {
      forall a, b :: lo <= a < b <= to && from <= b ==> swtab[a].sval <= swtab[b].sval
    }

    /** The sort at the head of swend: bubble the largest to the end, shrinking to the last exchange. */
    method BubbleSort(lo: nat, hi: nat)
      requires lo <= hi <= swtab.Length
      modifies swtab
      ensures forall a, b :: lo <= a < b < hi ==> swtab[a].sval <= swtab[b].sval
      ensures multiset(swtab[lo..hi]) == multiset(old(swtab[lo..hi]))
      ensures forall i :: 0 <= i < lo || hi <= i < swtab.Length ==> swtab[i] == old(swtab[i])
    {
      var r: int := hi - 1;
      ghost var settled := false;   // the entry at r is already the largest up to r
      while lo < r
        invariant lo - 1 <= r < hi
        invariant Settled(lo, r + 1, hi - 1)
        invariant settled ==> Settled(lo, r, hi - 1)
        invariant multiset(swtab[lo..hi]) == multiset(old(swtab[lo..hi]))
        invariant forall i :: 0 <= i < lo || hi <= i < swtab.Length ==> swtab[i] == old(swtab[i])
        decreases r, !settled
      {
        var r1: int;
        r1 := BubblePass(lo, r, hi, settled);
        settled := true;
        r := r1;
      }
    }

    /** Exchange an entry with its right neighbour. */
    method Exchange(lo: nat, hi: nat, q: nat)
      requires lo <= q && q + 1 < hi <= swtab.Length
      modifies swtab
      ensures swtab[q] == old(swtab[q+1]) && swtab[q+1] == old(swtab[q])
      ensures forall i :: 0 <= i < swtab.Length && i != q && i != q + 1 ==> swtab[i] == old(swtab[i])
      ensures multiset(swtab[lo..hi]) == multiset(old(swtab[lo..hi]))
    {
      ghost var before := swtab[lo..hi];
      swtab[q], swtab[q+1] := swtab[q+1], swtab[q];
      Swapped(before, swtab[lo..hi], q - lo);
    }

    /** State of a pass that has reached q, with the last exchange at r1. */
    ghost predicate PassInv(lo: nat, r: nat, hi: nat, q: nat, r1: nat, settled: bool)
      requires r < hi <= swtab.Length && q <= r
      reads swtab
    {
      && lo <= r1 <= q
      && (settled ==> r1 < r && Settled(lo, r, hi - 1))
      && Settled(lo, r + 1, hi - 1)
      && Settled(lo, r1, q)
      && Settled(lo, q, q)
    }

    method PassStep(lo: nat, r: nat, hi: nat, q: nat, r0: nat, ghost settled: bool) returns (r1: nat)
      requires lo <= q < r < hi <= swtab.Length
      requires PassInv(lo, r, hi, q, r0, settled)
      modifies swtab
      ensures PassInv(lo, r, hi, q + 1, r1, settled)
      ensures multiset(swtab[lo..hi]) == multiset(old(swtab[lo..hi]))
      ensures forall i :: 0 <= i < lo || hi <= i < swtab.Length ==> swtab[i] == old(swtab[i])
    {
      r1 := r0;
      if swtab[q].sval > swtab[q+1].sval {
        r1 := q + 1;
        Exchange(lo, hi, q);
      }
    }

    /** One pass; r1 is the place of the last exchange. */
    method BubblePass(lo: nat, r: nat, hi: nat, ghost settled: bool) returns (r1: nat)
      requires lo < r < hi <= swtab.Length
      requires Settled(lo, r + 1, hi - 1)
      requires settled ==> Settled(lo, r, hi - 1)
      modifies swtab
      ensures lo <= r1 <= r && (settled ==> r1 < r)
      ensures Settled(lo, r1, hi - 1)
      ensures multiset(swtab[lo..hi]) == multiset(old(swtab[lo..hi]))
      ensures forall i :: 0 <= i < lo || hi <= i < swtab.Length ==> swtab[i] == old(swtab[i])
    {
      r1 := lo;
      var q := lo;
      while q < r
        invariant lo <= q <= r && PassInv(lo, r, hi, q, r1, settled)
        invariant multiset(swtab[lo..hi]) == multiset(old(swtab[lo..hi]))
        invariant forall i :: 0 <= i < lo || hi <= i < swtab.Length ==> swtab[i] == old(swtab[i])
      {
        r1 := PassStep(lo, r, hi, q, r1, settled);
        q := q + 1;
      }
    }

    /** walkheap: code for the subtree of node start. */
    method WalkHeap(start: nat, limit: nat)
      requires Valid() && 1 <= start && limit < SWITSZ
      modifies this`code, this`nextLabel
      ensures Valid()
      ensures code == old(code) + WalkCode(heapsw[..], start, limit, old(nextLabel)).0
      ensures nextLabel == WalkCode(heapsw[..], start, limit, old(nextLabel)).1
      decreases limit + 1 - start, 1
    {
      if start > limit {
        return;
      }
      ghost var heap, next := heapsw[..], nextLabel;
      ghost var test := [Cmpl(heap[start].sval), Beq(heap[start].slab)];
      code := code + [Cmpl(heapsw[start].sval), Beq(heapsw[start].slab)];
      if 2 * start > limit {
        code := code + [Bra(heapsw[0].slab)];
        assert code == old(code) + (test + [Bra(heap[0].slab)]);
        WalkLeaf(heap, start, limit, next);
        return;
      }
      var lab := heapsw[0].slab;
      if 2 * start + 1 <= limit {
        lab := GetLab();
      }
      ghost var first := nextLabel;
      ghost var children := WalkChildren(start, limit, lab, heap, first);
      assert code == old(code) + (test + children);
      WalkSplit(heap, start, limit, next, first, lab, children, nextLabel);
    }

    /** The part of walkheap behind the test of a node that has children. */
    method WalkChildren(start: nat, limit: nat, lab: int, ghost heap: seq<Sw>, ghost first: int)
      returns (ghost children: seq<Instr>)
      requires Valid() && 1 <= start && 2 * start <= limit < SWITSZ && heap == heapsw[..] && first == nextLabel
      modifies this`code, this`nextLabel
      ensures Valid()
      ensures code == old(code) + children
      ensures ChildrenAre(heap, start, limit, first, lab, children, nextLabel)
      decreases limit + 1 - start, 0
    {
      children := [Bgt(lab)] + WalkCode(heapsw[..], 2 * start, limit, nextLabel).0;
      Assoc(code, [Bgt(lab)], WalkCode(heapsw[..], 2 * start, limit, nextLabel).0);
      code := code + [Bgt(lab)];
      WalkHeap(2 * start, limit);
      if 2 * start + 1 <= limit {
        ghost var right := WalkCode(heapsw[..], 2 * start + 1, limit, nextLabel).0;
        code := code + [LabelDef(lab)];
        WalkHeap(2 * start + 1, limit);
        Assoc(old(code), children, [LabelDef(lab)]);
        Assoc(old(code), children + [LabelDef(lab)], right);
        children := children + [LabelDef(lab)] + right;
      }
    }

    /** E is code for the switch on the n cases behind entry p. */
    ghost predicate Compiles(p: nat, n: nat, E: seq<Instr>)
      requires p + n < swtab.Length
      reads swtab
    {
      forall x :: Is32(x) ==> Exec(E, Start(x)).outcome == Meaning(swtab[p+1..p+n+1], swtab[p].slab, x)
    }

    /** What genswitch relies on. */
    ghost predicate Ready(p: nat, n: nat)
      reads this, swtab
    {
      && Valid() && p + n < SWITSZ
      && Ascending(swtab[p+1..p+n+1])
      && OldLabels(swtab[p+1..p+n+1], swtab[p].slab, nextLabel)
    }

    /** The heap switch of genswitch. */
    method GenHeap(p: nat, n: nat) returns (ghost E: seq<Instr>)
      requires Ready(p, n) && n > 8
      modifies this`code, this`nextLabel, heapsw
      ensures Valid() && code == old(code) + E && Compiles(p, n, E)
      ensures forall x :: Exec(E, Start(x)).compares <= Height(1, n)
    {
      var dlab := swtab[p].slab;
      if swtab[p].slab < 0 {
        dlab := GetLab();
      }
      heapsw[0] := heapsw[0].(slab := dlab);
      RootSize(n);
      MakeHeap(swtab, heapsw, p, n, 1, n, swtab[..]);
      ghost var heap := heapsw[..];
      WalkHeap(1, n);
      if swtab[p].slab >= 0 {
        code := code + [Bra(dlab)];
      } else {
        code := code + [LabelDef(dlab)];
      }
      E := WalkCode(heap, 1, n, if swtab[p].slab >= 0 then old(nextLabel) else old(nextLabel) + 1).0 +
        DefaultCode(swtab[p].slab, dlab);
      HeapCompiles(heap, n, swtab[p+1..p+n+1], swtab[p].slab, old(nextLabel), E);
    }

    /** The instructions in front of the jump table. */
    method TableHeader(low: int, range: int, dlab: int) returns (swlab: int)
      requires Valid()
      modifies this`code, this`nextLabel
      ensures Valid() && swlab == old(nextLabel) && nextLabel == swlab + 1
      ensures code == old(code) + Header(low, range, dlab, swlab)
    {
      if low != 0 {
        code := code + [Subl(low)];
      }
      code := code + [Cmpl(range), Bhi(dlab), Addw, MovwTable, JmpTable];
      swlab := GetLab();
      code := code + [LabelDef(swlab)];
    }

    /** The direct switch of genswitch: a bounds check and a jump table. */
    method GenTable(p: nat, n: nat) returns (ghost E: seq<Instr>)
      requires Ready(p, n) && n >= 1
      requires swtab[p+n].sval - swtab[p+1].sval <= 3 * n
      modifies this`code, this`nextLabel
      ensures Valid() && Compiles(p, n, E)
      ensures code == old(code) + E
    {
      ghost var cases := swtab[p+1..p+n+1];
      ghost var default, next := swtab[p].slab, nextLabel;
      assert cases[0] == swtab[p+1] && cases[n-1] == swtab[p+n];
      assert forall i :: 0 <= i < |cases| ==> cases[i] == swtab[p+1+i];
      E := EmitTable(p, n, cases);
      TableCompiles(cases, default, next, E);
    }

    method EmitTable(p: nat, n: nat, ghost cases: seq<Sw>) returns (ghost E: seq<Instr>)
      requires Valid() && p + n < SWITSZ && n >= 1
      requires cases == swtab[p+1..p+n+1] && Ascending(cases) && cases[0].sval <= cases[n-1].sval
      modifies this`code, this`nextLabel
      ensures Valid()
      ensures code == old(code) + E
      ensures var default, next := swtab[p].slab, old(nextLabel);
        E == TableCode(cases, default, DefaultLabel(default, next), if default >= 0 then next else next + 1)
    {
      var default := swtab[p].slab;
      var low := swtab[p+1].sval;
      var range := swtab[p+n].sval - low;
      var dlab := default;
      if default < 0 {
        dlab := GetLab();
      }
      var swlab := TableHeader(low, range, dlab);
      WriteTable(p, n, dlab, swlab);
      if default < 0 {
        code := code + [LabelDef(dlab)];
      }
      E := TableCode(cases, default, dlab, swlab);
      TableCodeFlat(cases, default, dlab, swlab, old(code), code);
    }

    /** One table word for every value from the lowest case to the highest. */
    method WriteTable(p: nat, n: nat, dlab: int, swlab: int)
      requires Valid() && p + n < SWITSZ && n >= 1 && Ascending(swtab[p+1..p+n+1])
      modifies this`code
      ensures Valid()
      ensures var cases := swtab[p+1..p+n+1];
        code == old(code) + Words(cases, cases[0].sval, cases[n-1].sval - cases[0].sval + 1, dlab, swlab)
    {
      ghost var cases := swtab[p+1..p+n+1];
      var low := swtab[p+1].sval;
      var i, j := 1, low;
      while i <= n
        invariant 1 <= i <= n + 1 && low <= j
        invariant i <= n ==> j <= swtab[p+i].sval
        invariant i > 1 ==> swtab[p+i-1].sval < j
        invariant i > n ==> j == swtab[p+n].sval + 1
        invariant code == old(code) + Words(cases, low, j - low, dlab, swlab)
        decreases n - i, if i <= n then swtab[p+i].sval - j else 0
      {
        LookupNext(cases, i - 1, j, dlab);
        assert swtab[p+i] == cases[i-1];
        assert i < n ==> cases[i-1].sval < cases[i].sval && cases[i] == swtab[p+i+1];
        assert Words(cases, low, j + 1 - low, dlab, swlab) == Words(cases, low, j - low, dlab, swlab) +
          [Word(Lookup(cases, j, dlab), swlab)];
        if j == swtab[p+i].sval {
          code := code + [Word(swtab[p+i].slab, swlab)];
          i := i + 1;
        } else {
          code := code + [Word(dlab, swlab)];
        }
        j := j + 1;
      }
    }

    /** One compare and branch a case, then the branch to the default if there is one. */
    method EmitSimple(p: nat, n: nat, ghost cases: seq<Sw>)
      requires Ready(p, n) && cases == swtab[p+1..p+n+1]
      modifies this`code
      ensures code == old(code) + SimpleCode(cases, swtab[p].slab)
    {
      var default := swtab[p].slab;
      ghost var all := code + SimpleCode(cases, default);
      var i := 1;
      assert cases[0..] == cases;
      while i <= n
        invariant 1 <= i <= n + 1
        invariant code + SimpleCode(cases[i-1..], default) == all
      {
        assert cases[i-1] == swtab[p+i] && cases[i-1..][1..] == cases[i..];
        code := code + [Cmpl(swtab[p+i].sval), Beq(swtab[p+i].slab)];
        i := i + 1;
      }
      if default >= 0 {
        code := code + [Bra(default)];
      }
    }

    /** The simple switch of genswitch: one compare a case. */
    method GenSimple(p: nat, n: nat) returns (ghost E: seq<Instr>)
      requires Ready(p, n)
      modifies this`code
      ensures Valid() && code == old(code) + E && Compiles(p, n, E)
      ensures forall x :: Exec(E, Start(x)).compares <= n
    {
      ghost var cases, default := swtab[p+1..p+n+1], swtab[p].slab;
      E := SimpleCode(cases, default);
      EmitSimple(p, n, cases);
      forall x
        ensures Exec(E, Start(x)).outcome == Meaning(cases, default, x)
        ensures Exec(E, Start(x)).compares <= n
      {
        SimpleSwitchMeans(cases, default, Start(x));
      }
    }

    /** genswitch: pick the code shape for the sorted, duplicate-free cases behind entry p. */
    method GenSwitch(p: nat, n: nat) returns (ghost E: seq<Instr>)
      requires Ready(p, n)
      modifies this`code, this`nextLabel, heapsw
      ensures Valid() && code == old(code) + E && Compiles(p, n, E)
    {
      if n >= 4 {
        var range := Wrap32(swtab[p+n].sval - swtab[p+1].sval);
        if range > 0 && range <= 3 * n {
          assert swtab[p+1..p+n+1][0] == swtab[p+1] && swtab[p+1..p+n+1][n-1] == swtab[p+n];
          E := GenTable(p, n);
          return;
        }
      }
      if n > 8 {
        E := GenHeap(p, n);
        return;
      }
      E := GenSimple(p, n);
    }

    /** The sort, seen from the open switch. */
    method SortCases()
      requires Valid() && swx < swp
      modifies swtab
      ensures Valid()
      ensures multiset(swtab[swx+1..swp]) == multiset(old(swtab[swx+1..swp]))
      ensures forall a, b :: swx < a < b < swp ==> swtab[a].sval <= swtab[b].sval
      ensures forall i :: 0 <= i <= swx ==> swtab[i] == old(swtab[i])
    {
      ghost var cases0 := swtab[swx+1..swp];
      assert GoodCases(cases0, nextLabel);
      BubbleSort(swx + 1, swp);
      ghost var cases := swtab[swx+1..swp];
      assert GoodCases(cases, nextLabel) by { GoodPermuted(cases0, cases, nextLabel); }
      assert forall i :: swx < i < swp ==> swtab[i] == cases[i-swx-1];
    }

    /** swend's search for equal neighbours. */
    method HasDuplicate() returns (dup: bool)
      requires Valid() && swx < swp
      requires forall a, b :: swx < a < b < swp ==> swtab[a].sval <= swtab[b].sval
      ensures dup <==> !DuplicateFree(swtab[swx+1..swp])
      ensures !dup ==> Ascending(swtab[swx+1..swp])
    {
      ghost var cases := swtab[swx+1..swp];
      assert forall i :: 0 <= i < |cases| ==> cases[i] == swtab[swx+1+i];
      var q := swx + 2;
      while q < swp
        invariant swx + 2 <= q
        invariant forall i :: 0 < i < |cases| && swx + 1 + i < q ==> cases[i-1].sval != cases[i].sval
      {
        if swtab[q].sval == swtab[q-1].sval {
          assert cases[q-swx-2].sval == cases[q-swx-1].sval;
          return true;
        }
        q := q + 1;
      }
      SortedAscending(cases);
      dup := false;
    }

    /** swend: sort, reject duplicates, compile, and close the switch. */
    method SwEnd() returns (r: EndResult, ghost E: seq<Instr>)
      requires Valid() && swx < swp
      modifies this`code, this`nextLabel, this`swp, swtab, heapsw
      ensures Valid() && swx == old(swx)
      ensures r.Compiled? <==> DuplicateFree(old(Cases()))
      ensures r.Compiled? ==> swp == swx && code == old(code) + E
      ensures r.Compiled? ==>
        forall x :: Is32(x) ==> Exec(E, Start(x)).outcome == Meaning(old(Cases()), old(Default()), x)
      ensures r.DuplicateCase? ==> swp == old(swp) && code == old(code)
      ensures forall i :: 0 <= i <= swx ==> swtab[i] == old(swtab[i])
    {
      ghost var cases0, default := Cases(), Default();
      SortCases();
      ghost var cases := swtab[swx+1..swp];
      DuplicateFreePermuted(cases0, cases);
      var dup := HasDuplicate();
      if dup {
        return DuplicateCase, [];
      }
      E := CompileSorted(cases0, cases, default);
      swp := swx;
      r := Compiled;
    }

    /** Code for the sorted cases does what the cases as written mean. */
    method CompileSorted(ghost cases0: seq<Sw>, ghost cases: seq<Sw>, ghost default: int) returns (ghost E: seq<Instr>)
      requires Valid() && swx < swp && cases == swtab[swx+1..swp] && default == swtab[swx].slab && Ascending(cases)
      requires multiset(cases0) == multiset(cases) && DuplicateFree(cases0) && DuplicateFree(cases)
      modifies this`code, this`nextLabel, heapsw
      ensures Valid() && code == old(code) + E
      ensures forall x :: Is32(x) ==> Exec(E, Start(x)).outcome == Meaning(cases0, default, x)
    {
      var n := swp - swx - 1;
      forall i | 0 <= i < |cases| ensures 0 <= cases[i].slab < nextLabel { assert cases[i] == swtab[swx+1+i]; }
      E := GenSwitch(swx, n);
      PermutedMeaning(cases0, cases, default, E);
    }
  }

  /**
   A default outside any switch is called a duplicate before the first switch, and
   outside a switch once a switch without default has been closed.
   */
  method StrayDefault() returns (a: SwitchCompiler, before: AddResult, b: SwitchCompiler, after: AddResult)
    ensures a.Valid() && a.swp == 0 && a.swtab[a.swx].slab >= 0 && before.DuplicateDefault?
    ensures b.Valid() && b.swp == 0 && b.swtab[b.swx].slab < 0 && after.NotInSwitch?
  {
    a := new SwitchCompiler();
    before := a.AddDef();
    b := new SwitchCompiler();
    var ok := b.SwStart();
    var closed;
    ghost var E;
    closed, E := b.SwEnd();
    after := b.AddDef();
  }

  /** Code for the sorted cases is code for the cases as written. */
  lemma PermutedMeaning(a: seq<Sw>, b: seq<Sw>, default: int, E: seq<Instr>)
    requires multiset(a) == multiset(b) && DuplicateFree(a) && DuplicateFree(b)
    requires forall x :: Is32(x) ==> Exec(E, Start(x)).outcome == Meaning(b, default, x)
    ensures forall x :: Is32(x) ==> Exec(E, Start(x)).outcome == Meaning(a, default, x)
  {
    forall x | Is32(x) ensures Exec(E, Start(x)).outcome == Meaning(a, default, x) {
      LookupPermuted(a, b, x, default);
    }
  }

  ghost predicate GoodCases(cases: seq<Sw>, next: int) {
    forall i :: 0 <= i < |cases| ==> 0 <= cases[i].slab < next && Is32(cases[i].sval)
  }

  lemma GoodPermuted(a: seq<Sw>, b: seq<Sw>, next: int)
    requires multiset(a) == multiset(b) && GoodCases(a, next)
    ensures GoodCases(b, next)
  {
    SameEntries(a, b);
  }

  /** The code of a node is its test and the code of its children. */
  lemma WalkLeaf(heap: seq<Sw>, s: nat, n: nat, next: int)
    requires 1 <= s <= n < |heap| && 2 * s > n
    ensures WalkCode(heap, s, n, next) == ([Cmpl(heap[s].sval), Beq(heap[s].slab)] + [Bra(heap[0].slab)], next)
  {}

  /** The code behind the test of a node with children; first is the next label when it starts. */
  ghost predicate ChildrenAre(heap: seq<Sw>, s: nat, n: nat, first: int, lab: int, children: seq<Instr>, after: int)
    requires 1 <= s && 2 * s <= n < |heap|
  {
    var left := WalkCode(heap, 2 * s, n, first);
    if 2 * s + 1 <= n then
      var right := WalkCode(heap, 2 * s + 1, n, left.1);
      children == [Bgt(lab)] + left.0 + [LabelDef(lab)] + right.0 && after == right.1
    else
      children == [Bgt(lab)] + left.0 && after == left.1
  }

  lemma WalkSplit(heap: seq<Sw>, s: nat, n: nat, next: int, first: int, lab: int, children: seq<Instr>, after: int)
    requires 1 <= s && 2 * s <= n < |heap| && ChildrenAre(heap, s, n, first, lab, children, after)
    requires if 2 * s + 1 <= n then first == next + 1 && lab == next else first == next && lab == heap[0].slab
    ensures WalkCode(heap, s, n, next) == ([Cmpl(heap[s].sval), Beq(heap[s].slab)] + children, after)
  {
    var test, left := [Cmpl(heap[s].sval), Beq(heap[s].slab)], WalkCode(heap, 2 * s, n, first);
    if 2 * s + 1 <= n {
      var right := WalkCode(heap, 2 * s + 1, n, left.1);
      assert test + [Bgt(lab)] + left.0 + [LabelDef(lab)] + right.0 == test +
        ([Bgt(lab)] + left.0 + [LabelDef(lab)] + right.0);
    } else {
      assert test + [Bgt(lab)] + left.0 == test + ([Bgt(lab)] + left.0);
    }
  }

  /** The pieces of the table switch, in the order they are emitted. */
  lemma TableCodeFlat(cases: seq<Sw>, default: int, dlab: int, base: int, before: seq<Instr>, after: seq<Instr>)
    requires cases != [] && cases[0].sval <= cases[|cases|-1].sval
    requires var low := cases[0].sval;
      var range := cases[|cases|-1].sval - low;
      var body := before + Header(low, range, dlab, base) + Words(cases, low, range + 1, dlab, base);
      after == if default < 0 then body + [LabelDef(dlab)] else body
    ensures after == before + TableCode(cases, default, dlab, base)
  {}

  lemma TableCompiles(cases: seq<Sw>, default: int, next: int, E: seq<Instr>)
    requires cases != [] && Ascending(cases) && OldLabels(cases, default, next)
    requires 0 <= cases[|cases|-1].sval - cases[0].sval < 0x3fff
    requires forall i :: 0 <= i < |cases| ==> Is32(cases[i].sval)
    requires E == TableCode(cases, default, DefaultLabel(default, next), if default >= 0 then next else next + 1)
    ensures forall x :: Is32(x) ==> Exec(E, Start(x)).outcome == Meaning(cases, default, x)
  {
    forall x | Is32(x) ensures Exec(E, Start(x)).outcome == Meaning(cases, default, x) {
      TableSwitchMeans(cases, default, next, x);
    }
  }

  lemma HeapCompiles(heap: seq<Sw>, n: nat, cases: seq<Sw>, default: int, next: int, E: seq<Instr>)
    requires 1 <= n < |heap| && InOrder(heap, 1, n) == cases
    requires Ascending(cases) && OldLabels(cases, default, next) && heap[0].slab == DefaultLabel(default, next)
    requires E == WalkCode(heap, 1, n, if default >= 0 then next else next + 1).0 + DefaultCode(default, heap[0].slab)
    ensures forall x :: Exec(E, Start(x)).outcome == Meaning(cases, default, x)
    ensures forall x :: Exec(E, Start(x)).compares <= Height(1, n)
  {
    AllNodes(heap, n);
    forall x
      ensures Exec(E, Start(x)).outcome == Meaning(cases, default, x)
      ensures Exec(E, Start(x)).compares <= Height(1, n)
    {
      HeapSwitchMeans(heap, n, default, next, x);
    }
  }

  lemma AllNodes(heap: seq<Sw>, n: nat)
    requires n < |heap|
    ensures forall i :: 1 <= i <= n ==> heap[i] in InOrder(heap, 1, n)
  {
    forall i | 1 <= i <= n ensures heap[i] in InOrder(heap, 1, n) {
      RootBelow(i);
      NodeInOrder(heap, 1, n, i);
    }
  }

  lemma SameEntries<T>(a: seq<T>, b: seq<T>)
    requires multiset(a) == multiset(b)
    ensures |a| == |b|
    ensures forall i :: 0 <= i < |b| ==> b[i] in a
  {
    assert |multiset(a)| == |a| && |multiset(b)| == |b|;
    forall i | 0 <= i < |b| ensures b[i] in a { assert b[i] in multiset(b); }
  }

  /** Neighbours that differ in a sorted sequence mean strictly ascending values. */
  lemma SortedAscending(b: seq<Sw>)
    requires forall i, j :: 0 <= i < j < |b| ==> b[i].sval <= b[j].sval
    requires forall i :: 0 < i < |b| ==> b[i-1].sval != b[i].sval
    ensures Ascending(b) && DuplicateFree(b)
  {
    forall i, j | 0 <= i < j < |b| ensures b[i].sval < b[j].sval {
      assert b[j-1].sval != b[j].sval;
    }
  }

  lemma TwiceIn<T>(a: seq<T>, i: nat, j: nat)
    requires i < j < |a| && a[i] == a[j]
    ensures multiset(a)[a[i]] >= 2
  {
    assert a == a[..i] + [a[i]] + a[i+1..j] + [a[j]] + a[j+1..];
  }

  lemma OnceIn(b: seq<Sw>, i: nat)
    requires DuplicateFree(b) && i < |b|
    ensures multiset(b)[b[i]] == 1
  {
    assert b == b[..i] + [b[i]] + b[i+1..];
    assert b[i] !in b[..i] && b[i] !in b[i+1..];
  }

  lemma DistinctPair(a: seq<Sw>, b: seq<Sw>, i: nat, j: nat)
    requires multiset(a) == multiset(b) && DuplicateFree(a) && i < j < |b|
    ensures b[i].sval != b[j].sval
  {
    assert b[i] in multiset(b) && b[j] in multiset(b);
    var i' :| 0 <= i' < |a| && a[i'] == b[i];
    var j' :| 0 <= j' < |a| && a[j'] == b[j];
    if b[i] == b[j] {
      TwiceIn(b, i, j);
    }
    OnceIn(a, i');
  }

  /** Being duplicate-free does not depend on the order. */
  lemma DuplicateFreePermuted(a: seq<Sw>, b: seq<Sw>)
    requires multiset(a) == multiset(b)
    ensures DuplicateFree(a) <==> DuplicateFree(b)
  {
    if DuplicateFree(a) {
      forall i, j | 0 <= i < j < |b| ensures b[i].sval != b[j].sval { DistinctPair(a, b, i, j); }
    }
    if DuplicateFree(b) {
      forall i, j | 0 <= i < j < |a| ensures a[i].sval != a[j].sval { DistinctPair(b, a, i, j); }
    }
  }

  /** Exchanging neighbours permutes a sequence. */
  lemma Swapped<T>(s: seq<T>, t: seq<T>, k: nat)
    requires k + 1 < |s| == |t| && t[k] == s[k+1] && t[k+1] == s[k]
    requires forall i :: 0 <= i < |s| && i != k && i != k + 1 ==> t[i] == s[i]
    ensures multiset(t) == multiset(s)
  {
    var front, back := s[..k], s[k+2..];
    assert s == front + ([s[k]] + [s[k+1]]) + back;
    assert t == front + ([s[k+1]] + [s[k]]) + back;
  }
}
