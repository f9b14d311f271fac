/**
 What a switch means, and why each of genswitch's three code shapes means it.
 */
module SwitchSearch {
  import opened Word
  import opened SwitchMachine
  import opened SwitchHeap

  /** Label of the first case with value x: a linear search of the cases. */
  function Lookup(cases: seq<Sw>, x: int, default: int): int {
    if cases == [] then default
    else if cases[0].sval == x then cases[0].slab
    else Lookup(cases[1..], x, default)
  }

  predicate HasCase(cases: seq<Sw>, x: int) {
    exists i :: 0 <= i < |cases| && cases[i].sval == x
  }

  ghost predicate Ascending(cases: seq<Sw>) {
    forall i, j :: 0 <= i < j < |cases| ==> cases[i].sval < cases[j].sval
  }

  ghost predicate DuplicateFree(cases: seq<Sw>) {
    forall i, j :: 0 <= i < j < |cases| ==> cases[i].sval != cases[j].sval
  }

  /** Where a switch statement takes the value x; a negative default means there is none. */
  function Meaning(cases: seq<Sw>, default: int, x: int): Outcome {
    if HasCase(cases, x) then Exit(Lookup(cases, x, default))
    else if default >= 0 then Exit(default)
    else Fall
  }

  lemma {:induction false} LookupNone(cases: seq<Sw>, x: int, default: int)
    requires !HasCase(cases, x)
    ensures Lookup(cases, x, default) == default
  {
    if cases != [] {
      assert cases[0].sval != x;
      forall i | 0 <= i < |cases[1..]| ensures cases[1..][i].sval != x { assert cases[i+1].sval != x; }
      LookupNone(cases[1..], x, default);
    }
  }

  /** Without duplicates the search finds the case wherever it stands. */
  lemma {:induction false} LookupHit(cases: seq<Sw>, k: nat, default: int)
    requires DuplicateFree(cases) && k < |cases|
    ensures Lookup(cases, cases[k].sval, default) == cases[k].slab
  {
    if k > 0 {
      LookupHit(cases[1..], k - 1, default);
    }
  }

  lemma {:induction false} LookupConcat(a: seq<Sw>, b: seq<Sw>, x: int, default: int)
    ensures Lookup(a + b, x, default) == Lookup(a, x, Lookup(b, x, default))
  {
    if a == [] {
      assert a + b == b;
    } else {
      assert (a + b)[1..] == a[1..] + b;
      LookupConcat(a[1..], b, x, default);
    }
  }

  /** The order of the cases does not matter. */
  lemma LookupPermuted(a: seq<Sw>, b: seq<Sw>, x: int, default: int)
    requires multiset(a) == multiset(b) && DuplicateFree(a) && DuplicateFree(b)
    ensures Lookup(a, x, default) == Lookup(b, x, default)
    ensures HasCase(a, x) <==> HasCase(b, x)
  {
    if HasCase(a, x) {
      var i :| 0 <= i < |a| && a[i].sval == x;
      assert a[i] in multiset(a);
      var j :| 0 <= j < |b| && b[j] == a[i];
      LookupHit(a, i, default);
      LookupHit(b, j, default);
    } else {
      forall j | 0 <= j < |b| ensures b[j].sval != x {
        assert b[j] in multiset(b);
        var i :| 0 <= i < |a| && a[i] == b[j];
      }
      LookupNone(a, x, default);
      LookupNone(b, x, default);
    }
  }

  /** A permutation of duplicate-free cases is duplicate-free. */
  lemma AscendingDistinct(cases: seq<Sw>)
    requires Ascending(cases)
    ensures DuplicateFree(cases)
  {}

  // ---- Heap switch -------------------------------------------------------

  lemma AscendingParts(left: seq<Sw>, c: Sw, right: seq<Sw>)
    requires Ascending(left + [c] + right)
    ensures Ascending(left) && Ascending(right)
    ensures forall i :: 0 <= i < |left| ==> left[i].sval < c.sval
    ensures forall i :: 0 <= i < |right| ==> c.sval < right[i].sval
  {
    var all := left + [c] + right;
    assert forall i :: 0 <= i < |left| ==> all[i] == left[i];
    assert all[|left|] == c;
    assert forall i :: 0 <= i < |right| ==> all[|left| + 1 + i] == right[i];
  }

  /** Searching around a root. */
  lemma LookupParts(left: seq<Sw>, c: Sw, right: seq<Sw>, x: int, default: int)
    requires Ascending(left + [c] + right)
    ensures Lookup(left + [c] + right, x, default)
      == if x == c.sval then c.slab else if x > c.sval then Lookup(right, x, default) else Lookup(left, x, default)
  {
    AscendingParts(left, c, right);
    assert left + [c] + right == left + ([c] + right);
    LookupConcat(left, [c] + right, x, default);
    assert ([c] + right)[0] == c && ([c] + right)[1..] == right;
    if x >= c.sval {
      LookupNone(left, x, Lookup([c] + right, x, default));
    } else {
      LookupNone(right, x, default);
    }
  }

  /** Descending the tree is searching its in-order sequence. */
  lemma {:induction false} TargetIsLookup(heap: seq<Sw>, s: nat, n: nat, x: int)
    requires 1 <= s && n < |heap|
    requires Ascending(InOrder(heap, s, n))
    ensures Target(heap, s, n, x) == Lookup(InOrder(heap, s, n), x, heap[0].slab)
    decreases n + 1 - s
  {
    if s <= n {
      var left, right := InOrder(heap, 2 * s, n), InOrder(heap, 2 * s + 1, n);
      AscendingParts(left, heap[s], right);
      TargetIsLookup(heap, 2 * s, n, x);
      TargetIsLookup(heap, 2 * s + 1, n, x);
      LookupParts(left, heap[s], right, x, heap[0].slab);
    }
  }

  /** Code that follows the search code: off to the default, or the definition of a label for it. */
  function DefaultCode(default: int, dlab: int): seq<Instr> {
    if default >= 0 then [Bra(default)] else [LabelDef(dlab)]
  }

  /** The default label the code uses, fresh if the switch has none. */
  function DefaultLabel(default: int, next: int): int {
    if default >= 0 then default else next
  }

  /** Case labels exist already; none is the default's. */
  ghost predicate OldLabels(cases: seq<Sw>, default: int, next: int) {
    && 0 <= next && default < next
    && forall i :: 0 <= i < |cases| ==> 0 <= cases[i].slab < next
  }

  /** The heap switch does what the switch means, within floor(log2 n) + 1 compares. */
  lemma HeapSwitchMeans(heap: seq<Sw>, n: nat, default: int, next: int, x: int)
    requires 1 <= n < |heap|
    requires Ascending(InOrder(heap, 1, n)) && OldLabels(InOrder(heap, 1, n), default, next)
    requires forall i :: 1 <= i <= n ==> heap[i] in InOrder(heap, 1, n)
    requires heap[0].slab == DefaultLabel(default, next)
    ensures var first := if default >= 0 then next else next + 1;
      var r := Exec(WalkCode(heap, 1, n, first).0 + DefaultCode(default, heap[0].slab), Start(x));
      && r.outcome == Meaning(InOrder(heap, 1, n), default, x)
      && r.compares <= Height(1, n)
  {
    var cases := InOrder(heap, 1, n);
    var first := if default >= 0 then next else next + 1;
    var rest := DefaultCode(default, heap[0].slab);
    assert rest[1..] == [];
    forall i | 0 <= i <= n ensures heap[i].slab < first && Catches(rest, heap[i].slab) {
    }
    WalkRuns(heap, 1, n, first, rest, Start(x));
    TargetIsLookup(heap, 1, n, x);
    if HasCase(cases, x) {
      AscendingDistinct(cases);
      var k :| 0 <= k < |cases| && cases[k].sval == x;
      LookupHit(cases, k, heap[0].slab);
      LookupHit(cases, k, default);
    } else {
      LookupNone(cases, x, heap[0].slab);
    }
  }

  // ---- Simple switch -----------------------------------------------------

  function SimpleCode(cases: seq<Sw>, default: int): seq<Instr> {
    if cases == [] then if default >= 0 then [Bra(default)] else []
    else [Cmpl(cases[0].sval), Beq(cases[0].slab)] + SimpleCode(cases[1..], default)
  }

  lemma {:induction false} SimpleDefinesNothing(cases: seq<Sw>, default: int, l: int)
    ensures LabelDef(l) !in SimpleCode(cases, default)
  {
    if cases != [] {
      SimpleDefinesNothing(cases[1..], default, l);
    }
  }

  /** A chain of compares does what the switch means. */
  lemma {:induction false} SimpleSwitchMeans(cases: seq<Sw>, default: int, st: State)
    ensures Exec(SimpleCode(cases, default), st).outcome == Meaning(cases, default, st.d0)
    ensures Exec(SimpleCode(cases, default), st).compares <= |cases|
  {
    if cases == [] {
      assert [Bra(default)][1..] == [];
    } else {
      var c, tail := cases[0], SimpleCode(cases[1..], default);
      RunTest(c.sval, c.slab, tail, st);
      SimpleSwitchMeans(cases[1..], default, st.(cmp := (st.d0, c.sval)));
      SimpleDefinesNothing(cases[1..], default, c.slab);
      if c.sval != st.d0 {
        assert HasCase(cases[1..], st.d0) ==> HasCase(cases, st.d0) by {
          if HasCase(cases[1..], st.d0) {
            var i :| 0 <= i < |cases[1..]| && cases[1..][i].sval == st.d0;
            assert cases[i+1].sval == st.d0;
          }
        }
        assert HasCase(cases, st.d0) ==> HasCase(cases[1..], st.d0) by {
          if HasCase(cases, st.d0) {
            var i :| 0 <= i < |cases| && cases[i].sval == st.d0;
            assert cases[1..][i-1].sval == st.d0;
          }
        }
      }
    }
  }

  // ---- Direct switch -----------------------------------------------------

  /** Table entry for the value low + k. */
  function Words(cases: seq<Sw>, low: int, count: nat, dlab: int, base: int): (w: seq<Instr>)
    ensures |w| == count
  {
    seq(count, k requires 0 <= k < count => Word(Lookup(cases, low + k, dlab), base))
  }

  function TableCode(cases: seq<Sw>, default: int, dlab: int, base: int): seq<Instr>
    requires cases != [] && cases[0].sval <= cases[|cases|-1].sval
  {
    var low := cases[0].sval;
    var range := cases[|cases|-1].sval - low;
    Header(low, range, dlab, base)
    + (Words(cases, low, range + 1, dlab, base) + if default >= 0 then [] else [LabelDef(dlab)])
  }

  /** The instructions in front of the jump table. */
  function Header(low: int, range: int, dlab: int, base: int): seq<Instr> {
    (if low != 0 then [Subl(low)] else [])
    + [Cmpl(range), Bhi(dlab), Addw, MovwTable, JmpTable, LabelDef(base)]
  }

  /** The k-th word is 2 * k bytes into the table. */
  lemma {:induction false} WordIndex(words: seq<Instr>, rest: seq<Instr>, k: nat)
    requires k < |words| && forall i :: 0 <= i < |words| ==> words[i].Word?
    ensures WordAt(words + rest, 2 * k) == Some((words[k].l, words[k].base))
  {
    assert (words + rest)[0] == words[0];
    if k > 0 {
      assert (words + rest)[1..] == words[1..] + rest;
      WordIndex(words[1..], rest, k - 1);
    }
  }

  lemma Peel(i: Instr, rest: seq<Instr>)
    ensures ([i] + rest)[0] == i && ([i] + rest)[1..] == rest
  {}

  lemma StepAddw(rest: seq<Instr>, st: State)
    requires 0 <= st.d0 < 0x4000
    ensures Exec([Addw] + rest, st) == Exec(rest, st.(d0 := 2 * st.d0))
  {
    Peel(Addw, rest);
    LowWordSmall(st.d0);
    LowWordSmall(2 * st.d0);
  }

  lemma LowWordSmall(x: int)
    requires 0 <= x < 0x8000
    ensures LowWord(x) == x
  {
  }

  /** The word loaded is the one indexed by half of d0. */
  lemma StepMovw(base: int, words: seq<Instr>, rest: seq<Instr>, k: nat, st: State)
    requires k < |words| && k < 0x4000 && st.d0 == 2 * k
    requires forall i :: 0 <= i < |words| ==> words[i].Word? && words[i].base == base
    ensures var c4 := [JmpTable] + ([LabelDef(base)] + (words + rest));
      Exec([MovwTable] + c4, st) == Exec(c4, st.(word := Some((words[k].l, base))))
  {
    var c5 := [LabelDef(base)] + (words + rest);
    Peel(LabelDef(base), words + rest);
    Peel(JmpTable, c5);
    Peel(MovwTable, [JmpTable] + c5);
    WordIndex(words, rest, k);
    LowWordSmall(2 * k);
    assert WordAt([JmpTable] + c5, 4 + 2 * k) == WordAt(c5, 2 * k);
  }

  lemma StepJmp(base: int, l: int, rest: seq<Instr>, st: State)
    requires st.word == Some((l, base))
    ensures var c5 := [LabelDef(base)] + rest; Exec([JmpTable] + c5, st) == Jump(l, c5, st)
  {
    Peel(JmpTable, [LabelDef(base)] + rest);
  }

  /** The jump through the table, once d0 is known to be in range. */
  lemma TableJumps(base: int, words: seq<Instr>, rest: seq<Instr>, st: State)
    requires 0 <= st.d0 < |words| < 0x4000
    requires forall i :: 0 <= i < |words| ==> words[i].Word? && words[i].base == base
    ensures var c5 := [LabelDef(base)] + (words + rest);
      Exec([Addw] + ([MovwTable] + ([JmpTable] + c5)), st)
        == Jump(words[st.d0].l, c5, st.(d0 := 2 * st.d0, word := Some((words[st.d0].l, base))))
  {
    var c5 := [LabelDef(base)] + (words + rest);
    var st2 := st.(d0 := 2 * st.d0);
    StepAddw([MovwTable] + ([JmpTable] + c5), st);
    StepMovw(base, words, rest, st.d0, st2);
    StepJmp(base, words[st.d0].l, words + rest, st2.(word := Some((words[st.d0].l, base))));
  }

  /** The range check. */
  lemma RangeCheck(range: nat, dlab: int, c2: seq<Instr>, st: State)
    requires range < TWO31 && Is32(st.d0)
    ensures var st1 := st.(cmp := (st.d0, range));
      Exec([Cmpl(range)] + ([Bhi(dlab)] + c2), st).outcome
        == (if 0 <= st.d0 <= range then Exec(c2, st1) else Jump(dlab, c2, st1)).outcome
  {
    Peel(Cmpl(range), [Bhi(dlab)] + c2);
    Peel(Bhi(dlab), c2);
  }

  /** Labels that none of the table's instructions define, or only at its very end. */
  lemma TableCatches(words: seq<Instr>, default: int, dlab: int, base: int, l: int)
    requires forall i :: 0 <= i < |words| ==> words[i].Word?
    requires l != base && dlab != base
    ensures var rest := if default >= 0 then [] else [LabelDef(dlab)];
      var c5 := [LabelDef(base)] + (words + rest);
      && Catches(c5, l) && (LabelDef(l) in c5 <==> default < 0 && l == dlab)
      && Catches([Addw, MovwTable, JmpTable] + c5, l)
      && (LabelDef(l) in [Addw, MovwTable, JmpTable] + c5 <==> default < 0 && l == dlab)
  {
    var rest := if default >= 0 then [] else [LabelDef(dlab)];
    assert Catches(rest, l) by { assert [LabelDef(dlab)][1..] == []; }
    JumpOver([LabelDef(base)] + words, rest, l);
    assert [LabelDef(base)] + words + rest == [LabelDef(base)] + (words + rest);
    JumpOver([Addw, MovwTable, JmpTable], [LabelDef(base)] + (words + rest), l);
  }

  /** The entry for a value sends it to its case or to the default. */
  lemma EntryMeans(cases: seq<Sw>, default: int, dlab: int, next: int, x: int, c5: seq<Instr>)
    requires Ascending(cases) && OldLabels(cases, default, next)
    requires default >= 0 ==> dlab == default
    requires default < 0 ==> forall i :: 0 <= i < |cases| ==> cases[i].slab != dlab
    requires forall l :: l == dlab || (exists i :: 0 <= i < |cases| && l == cases[i].slab) ==>
      (LabelDef(l) in c5 <==> default < 0 && l == dlab)
    ensures Landing(Lookup(cases, x, dlab), c5) == Meaning(cases, default, x)
    ensures Lookup(cases, x, dlab) == dlab || exists i :: 0 <= i < |cases| && Lookup(cases, x, dlab) == cases[i].slab
  {
    if HasCase(cases, x) {
      var k :| 0 <= k < |cases| && cases[k].sval == x;
      LookupHit(cases, k, dlab);
      LookupHit(cases, k, default);
    } else {
      LookupNone(cases, x, dlab);
    }
  }

  /** A value in the table's range goes to its case or to the default. */
  lemma InRangeMeans(cases: seq<Sw>, default: int, dlab: int, base: int, st: State, x: int, words: seq<Instr>,
      rest: seq<Instr>)
    requires cases != [] && Ascending(cases) && OldLabels(cases, default, base)
    requires (default >= 0 ==> dlab == default) && dlab != base
    requires default < 0 ==> forall i :: 0 <= i < |cases| ==> cases[i].slab != dlab
    requires 0 <= st.d0 <= cases[|cases|-1].sval - cases[0].sval < 0x3fff && x == cases[0].sval + st.d0
    requires words == Words(cases, cases[0].sval, cases[|cases|-1].sval - cases[0].sval + 1, dlab, base)
    requires rest == if default >= 0 then [] else [LabelDef(dlab)]
    ensures Exec([Addw] + ([MovwTable] + ([JmpTable] + ([LabelDef(base)] + (words + rest)))), st).outcome ==
      Meaning(cases, default, x)
  {
    var c5 := [LabelDef(base)] + (words + rest);
    var l := Lookup(cases, x, dlab);
    assert words[st.d0] == Word(l, base);
    TableJumps(base, words, rest, st);
    forall l | l == dlab || (exists i :: 0 <= i < |cases| && l == cases[i].slab)
      ensures LabelDef(l) in c5 <==> default < 0 && l == dlab
      ensures Catches(c5, l)
    {
      TableCatches(words, default, dlab, base, l);
    }
    EntryMeans(cases, default, dlab, base, x, c5);
    JumpLands(l, c5, st.(d0 := 2 * st.d0, word := Some((l, base))));
  }

  /** A value outside the table's range goes to the default. */
  lemma PastTable(cases: seq<Sw>, default: int, dlab: int, base: int, st: State, x: int, words: seq<Instr>,
      c5: seq<Instr>, c2: seq<Instr>)
    requires cases != [] && Ascending(cases) && (default >= 0 ==> dlab == default) && dlab != base
    requires Is32(x) && Is32(cases[0].sval) && st.d0 == Wrap32(x - cases[0].sval)
    requires cases[|cases|-1].sval - cases[0].sval < 0x3fff && !(0 <= st.d0 <= cases[|cases|-1].sval - cases[0].sval)
    requires forall i :: 0 <= i < |words| ==> words[i].Word?
    requires c5 == [LabelDef(base)] + (words + if default >= 0 then [] else [LabelDef(dlab)])
    requires c2 == [Addw] + ([MovwTable] + ([JmpTable] + c5))
    ensures Jump(dlab, c2, st).outcome == Meaning(cases, default, x)
  {
    assert c2 == [Addw, MovwTable, JmpTable] + c5;
    TableCatches(words, default, dlab, base, dlab);
    OutOfRange(cases, x, st.d0);
    JumpLands(dlab, c2, st);
  }

  /** The table from the range check on, for d0 counted from the lowest case. */
  lemma TableTailMeans(cases: seq<Sw>, default: int, dlab: int, base: int, st: State, x: int)
    requires cases != [] && Ascending(cases) && OldLabels(cases, default, base)
    requires (default >= 0 ==> dlab == default) && dlab != base
    requires default < 0 ==> forall i :: 0 <= i < |cases| ==> cases[i].slab != dlab
    requires 0 <= cases[|cases|-1].sval - cases[0].sval < 0x3fff
    requires Is32(x) && Is32(cases[0].sval) && Is32(cases[|cases|-1].sval) && st.d0 == Wrap32(x - cases[0].sval)
    ensures var low := cases[0].sval;
      var range := cases[|cases|-1].sval - low;
      var tail := Words(cases, low, range + 1, dlab, base) + if default >= 0 then [] else [LabelDef(dlab)];
      Exec([Cmpl(range)] + ([Bhi(dlab)] + ([Addw] + ([MovwTable] + ([JmpTable] + ([LabelDef(base)] + tail))))),
        st).outcome
        == Meaning(cases, default, x)
  {
    var low := cases[0].sval;
    var range := cases[|cases|-1].sval - low;
    var words := Words(cases, low, range + 1, dlab, base);
    var c5 := [LabelDef(base)] + (words + if default >= 0 then [] else [LabelDef(dlab)]);
    var c2 := [Addw] + ([MovwTable] + ([JmpTable] + c5));
    var st1 := st.(cmp := (st.d0, range));
    RangeCheck(range, dlab, c2, st);
    if 0 <= st.d0 <= range {
      FromLow(x, low, st.d0);
      InRangeMeans(cases, default, dlab, base, st1, x, words, if default >= 0 then [] else [LabelDef(dlab)]);
    } else {
      PastTable(cases, default, dlab, base, st1, x, words, c5, c2);
    }
  }

  /** Undoing the wrapped subtraction: impossible wraps would leave the 32-bit range. */
  lemma FromLow(x: int, low: int, d: int)
    requires Is32(x) && Is32(low) && Is32(low + d) && 0 <= d && d == Wrap32(x - low)
    ensures x == low + d
  {}

  /** Values outside the table match no case, wraparound included. */
  lemma OutOfRange(cases: seq<Sw>, x: int, d: int)
    requires cases != [] && Ascending(cases) && cases[|cases|-1].sval - cases[0].sval < TWO31
    requires Is32(x) && Is32(cases[0].sval) && d == Wrap32(x - cases[0].sval)
    requires !(0 <= d <= cases[|cases|-1].sval - cases[0].sval)
    ensures !HasCase(cases, x)
  {
    forall i | 0 <= i < |cases| ensures cases[i].sval != x {
      assert cases[0].sval <= cases[i].sval <= cases[|cases|-1].sval;
    }
  }

  /** Everything behind the subtraction of the lowest case, as TableTailMeans takes it. */
  function Checked(range: int, dlab: int, base: int, tail: seq<Instr>): seq<Instr> {
    [Cmpl(range)] + ([Bhi(dlab)] + ([Addw] + ([MovwTable] + ([JmpTable] + ([LabelDef(base)] + tail)))))
  }

  /** The header, instruction by instruction. */
  lemma HeaderIs(low: int, range: int, dlab: int, base: int, tail: seq<Instr>)
    ensures var c := Checked(range, dlab, base, tail);
      Header(low, range, dlab, base) + tail == if low != 0 then [Subl(low)] + c else c
  {
    var six := [Cmpl(range), Bhi(dlab), Addw, MovwTable, JmpTable, LabelDef(base)];
    assert Checked(range, dlab, base, tail) == six + tail;
    if low != 0 {
      assert ([Subl(low)] + six) + tail == [Subl(low)] + (six + tail);
    } else {
      assert [] + six == six;
    }
  }

  /** The direct switch does what the switch means. */
  lemma TableSwitchMeans(cases: seq<Sw>, default: int, next: int, x: int)
    requires cases != [] && Ascending(cases) && OldLabels(cases, default, next)
    requires 0 <= cases[|cases|-1].sval - cases[0].sval < 0x3fff
    requires Is32(x) && forall i :: 0 <= i < |cases| ==> Is32(cases[i].sval)
    ensures var base := if default >= 0 then next else next + 1;
      Exec(TableCode(cases, default, DefaultLabel(default, next), base), Start(x)).outcome == Meaning(cases, default, x)
  {
    var base := if default >= 0 then next else next + 1;
    var dlab := DefaultLabel(default, next);
    var low := cases[0].sval;
    var range := cases[|cases|-1].sval - low;
    var tail := Words(cases, low, range + 1, dlab, base) + if default >= 0 then [] else [LabelDef(dlab)];
    var c := Checked(range, dlab, base, tail);
    TableTailMeans(cases, default, dlab, base, Start(x).(d0 := Wrap32(x - low)), x);
    HeaderIs(low, range, dlab, base, tail);
    if low != 0 {
      Peel(Subl(low), c);
    }
  }
}
