/**
 The routines of sdi.c and Sym_Fix: a sorted list of SDI descriptors updated in
 place until every remaining short form fits.
 */
module SpanRelaxation {
  import opened SpanModel
  import opened SpanTheory

  /** A symbol bucket. */
  class Symbol {
    var section: nat
    var defined: bool
    var value: int

    constructor (section: nat, defined: bool, value: int)
      ensures this.section == section && this.defined == defined && this.value == value
    {
      this.section, this.defined, this.value := section, defined, value;
    }
  }

  /** An SDI descriptor; only leng, span and base change after makesdi. */
  class Sdi {
    const section: nat
    const loc: int
    const sym: Symbol
    const gleng: int
    const bounds: seq<Bound>
    var leng: int
    var span: int
    var base: int

    constructor (section: nat, loc: int, sym: Symbol, gleng: int, base: int, bounds: seq<Bound>)
      requires bounds != []
      ensures Rec() == SdiRec(section, loc, SymRec(sym.section, sym.defined, sym.value), gleng, bounds,
                              bounds[0].length, -base, base)
      ensures this.sym == sym
    {
      this.section, this.loc, this.sym, this.gleng, this.bounds := section, loc, sym, gleng, bounds;
      this.base := base;
      this.span := -base;
      this.leng := bounds[0].length;
    }

    ghost function Rec(): SdiRec
      reads this, sym
    {
      SdiRec(section, loc, SymRec(sym.section, sym.defined, sym.value), gleng, bounds, leng, span, base)
    }

    /** The body of longsdi's loop: an instruction of that csect, now at loc, grew by delta. */
    method Shift(section: nat, loc: int, delta: int)
      modifies this`span, this`base
      ensures Rec() == Shifted(old(Rec()), section, loc, delta)
    {
      if section == sym.section {
        if span < 0 && span + base <= loc && loc < base {
          span := span - delta;
        } else if span >= 0 && base <= loc && loc < span + base {
          span := span + delta;
        }
        if base > loc {
          base := base + delta;
        }
      }
    }
  }

  ghost function Snapshot(list: seq<Sdi>): (L: seq<SdiRec>)
    reads list, set s | s in list :: s.sym
    ensures |L| == |list|
  {
    seq(|list|, i requires 0 <= i < |list| reads list, set s | s in list :: s.sym => list[i].Rec())
  }

  /** Position at which makesdi links a descriptor for loc: in front of the first larger address. */
  function InsertPos(L: seq<SdiRec>, loc: int): (k: nat)
    ensures k <= |L|
    ensures forall i :: 0 <= i < k ==> L[i].loc <= loc
    ensures k < |L| ==> loc < L[k].loc
  {
    if L == [] || loc < L[0].loc then 0 else 1 + InsertPos(L[1..], loc)
  }

  /** The n-step prefix of a search that has not found its place yet. */
  lemma {:induction false} InsertPosAt(L: seq<SdiRec>, loc: int, k: nat)
    requires k <= |L|
    requires forall i :: 0 <= i < k ==> L[i].loc <= loc
    requires k < |L| ==> loc < L[k].loc
    ensures InsertPos(L, loc) == k
  {
    if k > 0 {
      InsertPosAt(L[1..], loc, k - 1);
    }
  }

  /** The list after makesdi. */
  function Inserted(L: seq<SdiRec>, s: SdiRec): seq<SdiRec> {
    var k := InsertPos(L, s.loc);
    L[..k] + [s] + L[k..]
  }

  lemma InsertedAt(L: seq<SdiRec>, s: SdiRec, p: nat)
    requires p == InsertPos(L, s.loc)
    ensures |Inserted(L, s)| == |L| + 1
    ensures forall i :: 0 <= i <= |L| ==> Inserted(L, s)[i] == if i < p then L[i] else if i == p then s else L[i-1]
  {}

  lemma LinkedIn(list: seq<Sdi>, s: Sdi, p: nat)
    requires p == InsertPos(Snapshot(list), s.loc) <= |list|
    ensures Snapshot(list[..p] + [s] + list[p..]) == Inserted(Snapshot(list), s.Rec())
  {
    var L, M := Snapshot(list[..p] + [s] + list[p..]), Inserted(Snapshot(list), s.Rec());
    InsertedAt(Snapshot(list), s.Rec(), p);
    forall i | 0 <= i < |L| ensures L[i] == M[i] {
      InsertedIndex(list, p, s, i);
    }
  }

  /** Linking in a descriptor loses none. */
  lemma InsertedKeeps(L: seq<SdiRec>, s: SdiRec)
    ensures multiset(Inserted(L, s)) == multiset(L) + multiset{s}
  {
    var k := InsertPos(L, s.loc);
    assert L == L[..k] + L[k..];
  }

  /** Linking in a descriptor keeps the list sorted. */
  lemma InsertedSorted(L: seq<SdiRec>, s: SdiRec)
    requires Sorted(L)
    ensures Sorted(Inserted(L, s))
  {
    var k, M := InsertPos(L, s.loc), Inserted(L, s);
    InsertedAt(L, s, k);
    forall i, j | 0 <= i < j < |M| ensures M[i].loc <= M[j].loc {
      if j > k {
        assert L[k].loc <= L[j-1].loc;
      }
    }
  }

  lemma DistinctInsert<T>(a: seq<T>, x: T, p: nat)
    requires p <= |a| && x !in a
    requires forall i, j :: 0 <= i < j < |a| ==> a[i] != a[j]
    ensures var b := a[..p] + [x] + a[p..]; forall i, j :: 0 <= i < j < |b| ==> b[i] != b[j]
  {
    var b := a[..p] + [x] + a[p..];
    assert forall i :: 0 <= i < |b| ==> b[i] == if i < p then a[i] else if i == p then x else a[i-1];
  }

  /** In a sorted list the descriptors from k on do not count for an offset at or before them. */
  lemma {:induction false} IncStops(L: seq<SdiRec>, section: nat, offset: int, k: nat, n: nat)
    requires HasForms(L) && Sorted(L) && k <= n <= |L|
    requires k < |L| ==> offset <= L[k].loc
    ensures IncTo(L, section, offset, n) == IncTo(L, section, offset, k)
  {
    if n > k {
      IncStops(L, section, offset, k, n - 1);
    }
  }

  ghost predicate SameButSymbols(L: seq<SdiRec>, M: seq<SdiRec>) {
    |L| == |M| && forall i {:trigger M[i]} :: 0 <= i < |L| ==> M[i] == L[i].(sym := M[i].sym)
  }

  /** Symbol values do not matter to Inc. */
  lemma {:induction false} IncSame(L: seq<SdiRec>, M: seq<SdiRec>, section: nat, offset: int, n: nat)
    requires HasForms(L) && SameButSymbols(L, M) && n <= |L|
    ensures HasForms(M) && IncTo(L, section, offset, n) == IncTo(M, section, offset, n)
  {
    assert HasForms(M) by {
      forall i | 0 <= i < |M| ensures M[i].bounds != [] { assert M[i] == L[i].(sym := M[i].sym); }
    }
    if n > 0 {
      IncSame(L, M, section, offset, n - 1);
      assert M[n-1] == L[n-1].(sym := M[n-1].sym);
    }
  }

  /** sdi_len never asks for less than the current length. */
  lemma NeverPathological(L: seq<SdiRec>, i: nat)
    requires Relaxing(L) && i < |L|
    ensures L[i].leng <= SpanModel.SdiLen(L[i])
  {
    assert RecOk(L, i);
  }

  /** Inside a round that started from L: M is the list at descriptor i. */
  ghost predicate Sweeping(L: seq<SdiRec>, M: seq<SdiRec>, i: nat, changed: bool)
    requires HasForms(L)
  {
    && Relaxing(M) && i <= |M| && Swept(M, i) == Swept(L, 0)
    && if changed then Slack(M, |M|) < Slack(L, |L|) else M == L
  }

  lemma SweepingNext(L: seq<SdiRec>, M: seq<SdiRec>, i: nat, changed: bool, N: seq<SdiRec>, grew: bool)
    requires HasForms(L) && Sweeping(L, M, i, changed) && i < |M| && N == GrownAt(M, i) && Relaxing(N)
    requires if grew then Slack(N, |N|) < Slack(M, |M|) else N == M
    ensures Sweeping(L, N, i + 1, changed || grew)
  {
  }

  /** What a round makes of L: either M has less room left to grow, or it is L and no branch wants to grow. */
  ghost predicate Round(L: seq<SdiRec>, M: seq<SdiRec>, changed: bool)
    requires HasForms(L)
  {
    && M == Swept(L, 0) && Relaxing(M) && SameProgram(L, M)
    && if changed then Slack(M, |M|) < Slack(L, |L|) else M == L && Stable(M)
  }

  lemma RoundDone(L: seq<SdiRec>, M: seq<SdiRec>, changed: bool)
    requires Relaxing(L) && Sweeping(L, M, |M|, changed)
    ensures Round(L, M, changed)
  {
    SweptAdvances(L, 0);
    if !changed {
      forall j | 0 <= j < |L| ensures SpanModel.SdiLen(L[j]) == L[j].leng {
        SweptSame(L, 0, j);
      }
    }
  }

  /** The csects with an origin of their own in the output, in file order. */
  const TEXT: nat := 1
  const DATA: nat := 2
  const DATA1: nat := 3
  const DATA2: nat := 4
  const BSS: nat := 5

  /** What Sym_Fix adds for the csect itself. */
  function Origin(section: nat, tsize: int, dsize: int, d1size: int, d2size: int): int {
    if section == DATA then tsize
    else if section == DATA1 then tsize + dsize
    else if section == DATA2 then tsize + dsize + d1size
    else if section == BSS then tsize + dsize + d1size + d2size
    else 0
  }

  lemma SortedSame(L: seq<SdiRec>, S: seq<SdiRec>)
    requires Sorted(L) && SameButSymbols(L, S)
    ensures Sorted(S)
  {
    forall i, j | 0 <= i < j < |S| ensures S[i].loc <= S[j].loc {
      assert S[i] == L[i].(sym := S[i].sym) && S[j] == L[j].(sym := S[j].sym);
    }
  }

  class SdiTable {
    var list: seq<Sdi>

    ghost predicate Valid()
      reads this
    {
      forall i, j :: 0 <= i < j < |list| ==> list[i] != list[j]
    }

    constructor ()
      ensures Valid() && list == []
    {
      list := [];
    }

    /** makesdi: create a descriptor in its shortest form and link it in. */
    method MakeSdi(section: nat, dot: int, sym: Symbol, gleng: int, base: int, bounds: seq<Bound>)
      returns (length: int, ghost k: nat)
      requires Valid() && bounds != []
      modifies this
      ensures Valid()
      ensures length == bounds[0].length
      ensures var s := SdiRec(section, dot, SymRec(sym.section, sym.defined, sym.value), gleng, bounds,
                              bounds[0].length, -base, base);
        Snapshot(list) == Inserted(old(Snapshot(list)), s) && k < |list| && list[k].Rec() == s
      ensures k == InsertPos(old(Snapshot(list)), dot) && |list| == |old(list)| + 1 && fresh(list[k]) &&
        list[k].sym == sym
      ensures list == old(list)[..k] + [list[k]] + old(list)[k..]
    {
      var s := new Sdi(section, dot, sym, gleng, base, bounds);
      var p := FindPlace(s.loc);
      DistinctInsert(list, s, p);
      LinkedIn(list, s, p);
      list := list[..p] + [s] + list[p..];
      k := p;
      length := s.leng;
    }

    /** Where makesdi links a descriptor in. */
    method FindPlace(loc: int) returns (p: nat)
      ensures p == InsertPos(Snapshot(list), loc)
    {
      ghost var L := Snapshot(list);
      p := 0;
      while p < |list|
        invariant 0 <= p <= |list| && forall i :: 0 <= i < p ==> L[i].loc <= loc
      {
        assert L[p] == list[p].Rec();
        if loc < list[p].loc {
          break;
        }
        p := p + 1;
      }
      InsertPosAt(L, loc, p);
    }

    /** sdi_len: the length the descriptor's span asks for. */
    method SdiLen(s: Sdi) returns (length: int)
      ensures length == SpanModel.SdiLen(s.Rec())
    {
      if !s.sym.defined || s.section != s.sym.section {
        return s.gleng;
      }
      var b := 0;
      while b < |s.bounds|
        invariant 0 <= b <= |s.bounds|
        invariant Form(s.bounds, s.gleng, s.span) == Form(s.bounds[b..], s.gleng, s.span)
      {
        if s.bounds[b].lo <= s.span <= s.bounds[b].hi {
          return s.bounds[b].length;
        }
        b := b + 1;
      }
      return s.gleng;
    }

    /** sdi_inc: how far an offset of a csect moves. */
    method SdiInc(section: nat, offset: int) returns (total: int)
      requires HasForms(Snapshot(list)) && Sorted(Snapshot(list))
      ensures total == Inc(Snapshot(list), section, offset)
    {
      ghost var L := Snapshot(list);
      total := 0;
      var i := 0;
      while i < |list|
        invariant 0 <= i <= |list|
        invariant total == IncTo(L, section, offset, i)
      {
        var s := list[i];
        assert L[i] == s.Rec();
        if section == s.section {
          if offset <= s.loc {
            break;
          }
          total := total + (s.leng - s.bounds[0].length);
        }
        i := i + 1;
      }
      IncStops(L, section, offset, i, |L|);
    }

    /** longsdi: descriptor k grows by delta bytes. */
    method LongSdi(k: nat, delta: int)
      requires Valid() && k < |list|
      requires HasForms(Snapshot(list)) && Sorted(Snapshot(list))
      modifies set s | s in list
      ensures list == old(list)
      ensures Snapshot(list) == Lengthened(old(Snapshot(list)), k, delta)
    {
      ghost var L := Snapshot(list);
      var s := list[k];
      assert L[k] == s.Rec();
      s.leng := s.leng + delta;
      ghost var grown := L[k := L[k].(leng := L[k].leng + delta)];
      assert Snapshot(list) == grown;
      var inc := SdiInc(s.section, s.loc);
      assert Snapshot(list) == grown;
      var loc := s.loc + inc;
      ShiftOthers(k, loc, delta);
      ghost var M := Lengthened(L, k, delta);
      forall i | 0 <= i < |list| ensures list[i].Rec() == M[i] {
        assert i != k ==> grown[i] == L[i];
      }
    }

    /** longsdi's loop over the list. */
    method ShiftOthers(k: nat, loc: int, delta: int)
      requires Valid() && k < |list|
      modifies set s | s in list
      ensures list == old(list)
      ensures forall i {:trigger list[i]} :: 0 <= i < |list| ==>
        list[i].Rec() == if i == k then old(list[i].Rec()) else Shifted(old(list[i].Rec()), list[k].section, loc, delta)
    {
      var s := list[k];
      var j := 0;
      while j < |list|
        invariant 0 <= j <= |list|
        invariant forall i {:trigger list[i]} :: 0 <= i < |list| ==>
          list[i].Rec() == if i == k || j <= i then old(list[i].Rec())
            else Shifted(old(list[i].Rec()), s.section, loc, delta)
      {
        var t := list[j];
        if t != s {
          t.Shift(s.section, loc, delta);
        }
        j := j + 1;
      }
    }

    /** sdi_resolve: relocate the spans, then lengthen until nothing changes. */
    method SdiResolve()
      requires Valid()
      requires Initial(Relocated(Snapshot(list)))
      modifies set s | s in list
      ensures list == old(list)
      ensures Relaxing(Relocated(old(Snapshot(list)))) && Snapshot(list) == Relaxed(Relocated(old(Snapshot(list))))
      ensures Resolved(Relocated(old(Snapshot(list))), Snapshot(list))
      ensures Least(Relocated(old(Snapshot(list))), Snapshot(list))
    {
      AddValues();
      ghost var L0 := Snapshot(list);
      ghost var L := L0;
      InitialRelaxing(L0);
      var changed := true;
      while changed
        invariant Snapshot(list) == L && Relaxing(L)
        invariant if changed then Relaxed(L) == Relaxed(L0) else L == Relaxed(L0)
        decreases Slack(L, |L|), changed
      {
        SlackNonNegative(L, |L|);
        changed, L := Sweep(L);
      }
      RelaxedResolved(L0, L0);
      ResolvedLeast(L0, L);
    }

    /** The first loop of sdi_resolve: spans become relative to the label. */
    method AddValues()
      requires Valid()
      modifies set s | s in list
      ensures list == old(list)
      ensures Snapshot(list) == Relocated(old(Snapshot(list)))
    {
      ghost var L := Snapshot(list);
      var i := 0;
      while i < |list|
        invariant 0 <= i <= |list|
        invariant forall j :: 0 <= j < |list| ==> list[j].Rec() == if j < i then Relocated(L)[j] else L[j]
      {
        var s := list[i];
        assert s.Rec() == L[i];
        var p := s.sym;
        if s.section == p.section && p.defined {
          s.span := s.span + p.value;
        }
        i := i + 1;
      }
    }

    /** longsdi as the sweep uses it. */
    method Grow(ghost L: seq<SdiRec>, k: nat, delta: int) returns (ghost M: seq<SdiRec>)
      requires Valid() && Snapshot(list) == L && k < |list| && Relaxing(L)
      requires delta == SpanModel.SdiLen(L[k]) - L[k].leng > 0
      modifies set s | s in list
      ensures list == old(list) && Snapshot(list) == M == GrownAt(L, k) && Relaxing(M) && Slack(M, |M|) < Slack(L, |L|)
    {
      M := LengthenedRelaxing(L, k);
      LongSdi(k, delta);
    }

    /** One trip of the round that started from L; M and N are the snapshots around it. */
    method SweepOne(i: nat, had: bool, ghost L: seq<SdiRec>, ghost M: seq<SdiRec>)
      returns (changed: bool, ghost N: seq<SdiRec>)
      requires Valid() && Snapshot(list) == M && i < |list| && HasForms(L) && Sweeping(L, M, i, had)
      modifies set s | s in list
      ensures list == old(list) && Snapshot(list) == N && Sweeping(L, N, i + 1, changed)
    {
      N, changed := M, had;
      assert M[i] == list[i].Rec();
      var length := SdiLen(list[i]);
      var t := length - list[i].leng;
      NeverPathological(M, i);
      if t > 0 {
        N := Grow(M, i, t);
        changed := true;
      } else if t < 0 {
        assert false;  // "Pathological sdi"
      }
      SweepingNext(L, M, i, had, N, t > 0);
    }

    /** One round of the do-loop; L and M are the snapshots around it. */
    method Sweep(ghost L: seq<SdiRec>) returns (changed: bool, ghost M: seq<SdiRec>)
      requires Valid() && Snapshot(list) == L && Relaxing(L)
      modifies set s | s in list
      ensures list == old(list) && Snapshot(list) == M && Round(L, M, changed)
    {
      changed := false;
      M := L;
      var i := 0;
      while i < |list|
        invariant 0 <= i <= |list|
        invariant Snapshot(list) == M && Sweeping(L, M, i, changed)
      {
        changed, M := SweepOne(i, changed, L, M);
        i := i + 1;
      }
      RoundDone(L, M, changed);
    }

    /** The body of Sym_Fix's loop. */
    method FixOne(ghost L: seq<SdiRec>, p: Symbol, tsize: int, dsize: int, d1size: int, d2size: int)
      requires HasForms(L) && Sorted(L) && SameButSymbols(L, Snapshot(list))
      modifies p`value
      ensures SameButSymbols(L, Snapshot(list))
      ensures p.value == Final(L, p.section, old(p.value)) + Origin(p.section, tsize, dsize, d1size, d2size)
    {
      ghost var S := Snapshot(list);
      IncSame(L, S, p.section, p.value, |L|);
      SortedSame(L, S);
      var inc := SdiInc(p.section, p.value);
      p.value := p.value + inc;
      if p.section == DATA {
        p.value := p.value + tsize;
      } else if p.section == DATA1 {
        p.value := p.value + (tsize + dsize);
      } else if p.section == DATA2 {
        p.value := p.value + (tsize + dsize + d1size);
      } else if p.section == BSS {
        p.value := p.value + (tsize + dsize + d1size + d2size);
      }
      assert forall i :: 0 <= i < |list| ==> list[i].Rec() == S[i].(sym := list[i].Rec().sym);
    }

    /** Sym_Fix: every symbol moves with the code in front of it and with its csect. */
    method SymFix(symbols: seq<Symbol>, tsize: int, dsize: int, d1size: int, d2size: int)
      requires HasForms(Snapshot(list)) && Sorted(Snapshot(list))
      requires forall i, j :: 0 <= i < j < |symbols| ==> symbols[i] != symbols[j]
      modifies set p | p in symbols
      ensures forall p :: p in symbols ==>
        && p.section == old(p.section) && p.defined == old(p.defined)
        && p.value == Final(old(Snapshot(list)), p.section, old(p.value)) +
          Origin(p.section, tsize, dsize, d1size, d2size)
    {
      ghost var L := Snapshot(list);
      var n := 0;
      while n < |symbols|
        invariant 0 <= n <= |symbols|
        invariant SameButSymbols(L, Snapshot(list))
        invariant forall i :: 0 <= i < |symbols| ==>
          symbols[i].section == old(symbols[i].section) && symbols[i].defined == old(symbols[i].defined)
        invariant forall i :: n <= i < |symbols| ==> symbols[i].value == old(symbols[i].value)
        invariant forall i :: 0 <= i < n ==>
          symbols[i].value == Final(L, symbols[i].section, old(symbols[i].value)) +
            Origin(symbols[i].section, tsize, dsize, d1size, d2size)
      {
        FixOne(L, symbols[n], tsize, dsize, d1size, d2size);
        n := n + 1;
      }
    }
  }

  /** Effect of the first loop of sdi_resolve on a snapshot. */
  function Relocated(L: seq<SdiRec>): (M: seq<SdiRec>)
    ensures |M| == |L|
  {
    seq(|L|, i requires 0 <= i < |L| => if L[i].Resolvable() then L[i].(span := L[i].span + L[i].sym.value) else L[i])
  }
}
