/**
 What the relaxation of sdi.c maintains: tracked bases are real addresses,
 tracked spans agree with recomputed displacements, lengths only grow and stay
 below every consistent assignment of forms.
 */
module SpanTheory {
  import opened SpanModel

  // ---- Forms -------------------------------------------------------------

  /** A span further from zero, on the same side, never gets a shorter form. */
  lemma {:induction false} FormMonotone(bounds: seq<Bound>, gleng: int, s: int, s': int)
    requires NestedBounds(bounds, gleng)
    requires 0 <= s <= s' || s' <= s < 0
    ensures Form(bounds, gleng, s) <= Form(bounds, gleng, s') <= gleng
  {
    if bounds != [] {
      FormMonotone(bounds[1..], gleng, s, s');
      FormAtLeast(bounds[1..], gleng, s', bounds[0].length);
    }
  }

  lemma {:induction false} FormAtLeast(bounds: seq<Bound>, gleng: int, s: int, low: int)
    requires low <= gleng
    requires forall i :: 0 <= i < |bounds| ==> low <= bounds[i].length
    ensures low <= Form(bounds, gleng, s)
  {
    if bounds != [] {
      FormAtLeast(bounds[1..], gleng, s, low);
    }
  }

  /** No form that covers a displacement is shorter than the one the search picks. */
  lemma {:induction false} FormIsLeast(bounds: seq<Bound>, gleng: int, disp: int, j: nat)
    requires NestedBounds(bounds, gleng)
    requires j < |bounds| && bounds[j].lo <= disp <= bounds[j].hi
    ensures Form(bounds, gleng, disp) <= bounds[j].length
  {
    if j > 0 {
      assert bounds[1..][j-1] == bounds[j];
      FormIsLeast(bounds[1..], gleng, disp, j - 1);
    }
  }

  /** The form the search picks covers the displacement. */
  lemma {:induction false} FormReaches(s: SdiRec, disp: int)
    ensures FormCovers(s, Form(s.bounds, s.gleng, disp), disp)
    decreases |s.bounds|
  {
    if s.bounds != [] && !(s.bounds[0].lo <= disp <= s.bounds[0].hi) {
      var t := s.(bounds := s.bounds[1..]);
      FormReaches(t, disp);
      var f := Form(s.bounds, s.gleng, disp);
      if f != s.gleng {
        var j :| 0 <= j < |t.bounds| && t.bounds[j].length == f && t.bounds[j].lo <= disp <= t.bounds[j].hi;
        assert s.bounds[j+1] == t.bounds[j];
      }
    }
  }

  // ---- Address increments ------------------------------------------------

  ghost predicate Grown(L: seq<SdiRec>)
    requires HasForms(L)
  {
    forall i :: 0 <= i < |L| ==> 0 <= L[i].Extra()
  }

  lemma {:induction false} IncMono(L: seq<SdiRec>, section: nat, a: int, b: int, n: nat)
    requires n <= |L| && HasForms(L) && Grown(L) && a <= b
    ensures IncTo(L, section, a, n) <= IncTo(L, section, b, n)
  {
    if n > 0 {
      IncMono(L, section, a, b, n - 1);
    }
  }

  /** An instruction between two offsets contributes its extra bytes to their distance. */
  lemma {:induction false} IncStep(L: seq<SdiRec>, k: nat, a: int, b: int, n: nat)
    requires n <= |L| && HasForms(L) && Grown(L) && k < n
    requires a <= L[k].loc < b
    ensures IncTo(L, L[k].section, a, n) + L[k].Extra() <= IncTo(L, L[k].section, b, n)
  {
    if k == n - 1 {
      IncMono(L, L[k].section, a, b, n - 1);
    } else {
      IncStep(L, k, a, b, n - 1);
    }
  }

  /** Growing one instruction moves exactly the offsets behind it. */
  lemma {:induction false} IncUpdate(L: seq<SdiRec>, M: seq<SdiRec>, k: nat, delta: int, section: nat, offset: int,
      n: nat)
    requires HasForms(L) && SameProgram(L, M) && k < |L| && n <= |L|
    requires forall i :: 0 <= i < |L| ==> M[i].leng == if i == k then L[k].leng + delta else L[i].leng
    ensures IncTo(M, section, offset, n)
         == IncTo(L, section, offset, n)
            + if k < n && L[k].section == section && L[k].loc < offset then delta else 0
  {
    if n > 0 {
      IncUpdate(L, M, k, delta, section, offset, n - 1);
    }
  }

  /** Distances are monotone in the lengths. */
  lemma {:induction false} IncWiden(L: seq<SdiRec>, M: seq<SdiRec>, section: nat, a: int, b: int, n: nat)
    requires HasForms(L) && SameProgram(L, M) && NoLonger(L, M) && n <= |L| && a <= b
    ensures IncTo(L, section, b, n) - IncTo(L, section, a, n) <= IncTo(M, section, b, n) - IncTo(M, section, a, n)
  {
    if n > 0 {
      IncWiden(L, M, section, a, b, n - 1);
    }
  }

  // ---- The invariant -----------------------------------------------------

  /** Length bookkeeping: between shortest and most general, and never above what sdi_len asks for. */
  ghost predicate LengthOk(s: SdiRec)
    requires s.bounds != []
  {
    s.Short() <= s.leng <= SdiLen(s) <= s.gleng
  }

  /** What the tracked base and span of a resolvable descriptor mean. */
  ghost predicate Tracked(L: seq<SdiRec>, i: nat)
    requires i < |L| && HasForms(L)
  {
    var s := L[i];
    var target := Final(L, s.section, s.sym.value);
    && s.base == Final(L, s.section, s.loc) + 2
    && (!s.Forward() ==> s.span < 0 && s.base + s.span == target)
    && (s.Forward() ==> 0 <= s.span && s.base + s.span <= target - s.Extra())
    && (s.Forward() && s.Extra() == 0 ==> s.base + s.span == target)
  }

  ghost predicate Static(L: seq<SdiRec>) {
    GoodRecs(L) && Sorted(L) && WellPlaced(L)
  }

  ghost predicate RecOk(L: seq<SdiRec>, i: nat)
    requires i < |L| && HasForms(L)
  {
    LengthOk(L[i]) && (L[i].Resolvable() ==> Tracked(L, i))
  }

  ghost predicate Inv(L: seq<SdiRec>) {
    Static(L) && forall i :: 0 <= i < |L| ==> RecOk(L, i)
  }

  /** State after the first loop of sdi_resolve: short forms everywhere, spans as if nothing moved. */
  ghost predicate Initial(L: seq<SdiRec>) {
    && Static(L)
    && forall i {:trigger L[i]} :: 0 <= i < |L| ==>
         && L[i].leng == L[i].Short()
         && L[i].base == L[i].loc + 2
         && (L[i].Resolvable() ==> L[i].span == L[i].sym.value - L[i].base)
  }

  lemma {:induction false} IncZero(L: seq<SdiRec>, section: nat, offset: int, n: nat)
    requires n <= |L| && HasForms(L)
    requires forall i :: 0 <= i < |L| ==> L[i].Extra() == 0
    ensures IncTo(L, section, offset, n) == 0
  {
    if n > 0 {
      IncZero(L, section, offset, n - 1);
    }
  }

  lemma InitialInv(L: seq<SdiRec>)
    requires Initial(L)
    ensures Inv(L)
  {
    forall i | 0 <= i < |L|
      ensures RecOk(L, i)
    {
      FormAtLeast(L[i].bounds, L[i].gleng, L[i].span, L[i].Short());
      FormMonotone(L[i].bounds, L[i].gleng, L[i].span, L[i].span);
      IncZero(L, L[i].section, L[i].loc, |L|);
      IncZero(L, L[i].section, L[i].sym.value, |L|);
      assert Clear(L, i, i);
    }
  }

  lemma GrownInv(L: seq<SdiRec>)
    requires Inv(L)
    ensures Grown(L)
  {
    forall i | 0 <= i < |L| ensures 0 <= L[i].Extra() { assert RecOk(L, i); }
  }

  // ---- One longsdi step --------------------------------------------------

  lemma LengthenedShape(L: seq<SdiRec>, k: nat, delta: int)
    requires HasForms(L) && k < |L|
    ensures var M := Lengthened(L, k, delta);
      && SameProgram(L, M)
      && (forall i :: 0 <= i < |L| ==> M[i].leng == if i == k then L[k].leng + delta else L[i].leng)
      && M[k] == L[k].(leng := L[k].leng + delta)
      && (forall i :: 0 <= i < |L| && i != k ==>
            M[i] == Shifted(L[i], L[k].section, Final(L, L[k].section, L[k].loc), delta))
  {
    var grown := L[k := L[k].(leng := L[k].leng + delta)];
    IncUpdate(L, grown, k, delta, L[k].section, L[k].loc, |L|);
  }

  /** Where the real address of k lies relative to the address and the label of another resolvable i. */
  lemma Positions(L: seq<SdiRec>, k: nat, i: nat)
    requires Inv(L) && k < |L| && i < |L| && i != k
    requires L[i].Resolvable() && L[i].section == L[k].section
    ensures var loc, target := Final(L, L[k].section, L[k].loc), Final(L, L[i].section, L[i].sym.value);
      && L[i].loc != L[k].loc
      && (L[k].loc < L[i].loc <==> loc < L[i].base)
      && (L[k].loc < L[i].sym.value ==> loc < target)
      && (L[i].sym.value <= L[k].loc ==> target <= loc)
  {
    var cs := L[k].section;
    GrownInv(L);
    assert RecOk(L, i);
    assert Clear(L, i, k);
    if k < i {
      assert Apart(L, k, i);
      IncMono(L, cs, L[k].loc, L[i].loc, |L|);
    } else {
      assert Apart(L, i, k);
      IncStep(L, i, L[i].loc, L[k].loc, |L|);
    }
    if L[k].loc < L[i].sym.value {
      IncStep(L, k, L[k].loc, L[i].sym.value, |L|);
    } else {
      IncMono(L, cs, L[i].sym.value, L[k].loc, |L|);
    }
  }

  /** longsdi keeps the meaning of every other descriptor's base and span. */
  lemma ShiftTracked(L: seq<SdiRec>, k: nat, delta: int, i: nat)
    requires Inv(L) && k < |L| && i < |L| && i != k && 0 < delta
    requires L[i].Resolvable()
    ensures var M := Lengthened(L, k, delta);
      && HasForms(M) && Tracked(M, i)
      && (L[i].span < 0 ==> M[i].span <= L[i].span)
      && (L[i].span >= 0 ==> M[i].span >= L[i].span)
  {
    var M := Lengthened(L, k, delta);
    LengthenedShape(L, k, delta);
    IncUpdate(L, M, k, delta, L[i].section, L[i].loc, |L|);
    IncUpdate(L, M, k, delta, L[i].section, L[i].sym.value, |L|);
    assert RecOk(L, i);
    if L[i].section == L[k].section {
      Positions(L, k, i);
    }
  }

  /** The instruction that grows keeps its own span; only its label may move. */
  lemma SelfTracked(L: seq<SdiRec>, k: nat, delta: int)
    requires Inv(L) && k < |L| && 0 < delta && L[k].Resolvable()
    ensures var M := Lengthened(L, k, delta);
      HasForms(M) && Tracked(M, k)
  {
    var M := Lengthened(L, k, delta);
    LengthenedShape(L, k, delta);
    IncUpdate(L, M, k, delta, L[k].section, L[k].loc, |L|);
    IncUpdate(L, M, k, delta, L[k].section, L[k].sym.value, |L|);
    assert RecOk(L, k);
  }

  /** longsdi keeps the invariant, so "Pathological sdi" never happens. */
  lemma LengthenedInv(L: seq<SdiRec>, k: nat)
    requires Inv(L) && k < |L| && L[k].leng < SdiLen(L[k])
    ensures Inv(Lengthened(L, k, SdiLen(L[k]) - L[k].leng))
    ensures SameProgram(L, Lengthened(L, k, SdiLen(L[k]) - L[k].leng))
  {
    var delta := SdiLen(L[k]) - L[k].leng;
    var M := Lengthened(L, k, delta);
    LengthenedShape(L, k, delta);
    StaticSame(L, M);
    forall i | 0 <= i < |M|
      ensures RecOk(M, i)
    {
      assert RecOk(L, i);
      if i == k {
        if L[k].Resolvable() {
          SelfTracked(L, k, delta);
        }
      } else if L[i].Resolvable() {
        ShiftTracked(L, k, delta, i);
        assert RecOk(L, i);
        FormMonotone(L[i].bounds, L[i].gleng, L[i].span, M[i].span);
      }
    }
  }

  lemma StaticSame(L: seq<SdiRec>, M: seq<SdiRec>)
    requires Static(L) && SameProgram(L, M)
    ensures Static(M)
  {
    forall i | 0 <= i < |M| ensures GoodRec(M[i]) { assert GoodRec(L[i]); }
    forall i, j | 0 <= i < j < |M| ensures Apart(M, i, j) { assert Apart(L, i, j); }
    forall i, j | 0 <= i < |M| && 0 <= j < |M| ensures Clear(M, i, j) { assert Clear(L, i, j); }
  }

  // ---- Least solution ----------------------------------------------------

  /** The tracked span is no further from zero than the displacement under any longer lengths. */
  lemma SpanBelow(L: seq<SdiRec>, M: seq<SdiRec>, k: nat)
    requires Inv(L) && SameProgram(L, M) && NoLonger(L, M) && k < |L| && L[k].Resolvable()
    ensures HasForms(M)
    ensures if L[k].Forward() then 0 <= L[k].span <= Disp(M, k) else Disp(M, k) <= L[k].span < 0
  {
    assert RecOk(L, k);
    var s := L[k];
    if s.Forward() {
      IncWiden(L, M, s.section, s.loc, s.sym.value, |L|);
    } else {
      IncWiden(L, M, s.section, s.sym.value, s.loc, |L|);
    }
  }

  /** A length that sdi_len asks for is needed in every consistent assignment that is not below L already. */
  lemma StepBelow(L: seq<SdiRec>, M: seq<SdiRec>, k: nat)
    requires Inv(L) && SameProgram(L, M) && NoLonger(L, M) && k < |L|
    requires HasForms(M) && Consistent(M)
    ensures SdiLen(L[k]) <= M[k].leng
  {
    assert GoodRec(L[k]);
    if L[k].Resolvable() {
      SpanBelow(L, M, k);
      var d := Disp(M, k);
      FormMonotone(L[k].bounds, L[k].gleng, L[k].span, d);
      assert FormCovers(M[k], M[k].leng, d);
      if M[k].leng != M[k].gleng {
        var j :| 0 <= j < |M[k].bounds| && M[k].bounds[j].length == M[k].leng &&
          M[k].bounds[j].lo <= d <= M[k].bounds[j].hi;
        FormIsLeast(M[k].bounds, M[k].gleng, d, j);
      }
    }
  }

  /** One longsdi step stays below every consistent assignment. */
  lemma LengthenedBelow(L: seq<SdiRec>, M: seq<SdiRec>, k: nat)
    requires Inv(L) && SameProgram(L, M) && NoLonger(L, M) && k < |L| && L[k].leng < SdiLen(L[k])
    requires HasForms(M) && Consistent(M)
    ensures NoLonger(Lengthened(L, k, SdiLen(L[k]) - L[k].leng), M)
    ensures SameProgram(Lengthened(L, k, SdiLen(L[k]) - L[k].leng), M)
  {
    StepBelow(L, M, k);
    LengthenedShape(L, k, SdiLen(L[k]) - L[k].leng);
  }

  // ---- The fixpoint ------------------------------------------------------

  /** The do-loop of sdi_resolve has nothing left to change. */
  ghost predicate Stable(L: seq<SdiRec>) {
    forall i :: 0 <= i < |L| ==> SdiLen(L[i]) == L[i].leng
  }

  /** The descriptor holds the form its true displacement calls for. */
  ghost predicate RightForm(L: seq<SdiRec>, i: nat)
    requires i < |L| && HasForms(L)
  {
    L[i].leng == if L[i].Resolvable() then Form(L[i].bounds, L[i].gleng, Disp(L, i)) else L[i].gleng
  }

  /** At the fixpoint a form is never too long, and too short only for a forward branch already grown. */
  lemma FixpointForms(L: seq<SdiRec>, i: nat)
    requires Inv(L) && Stable(L) && i < |L|
    ensures L[i].Resolvable() ==> L[i].leng <= Form(L[i].bounds, L[i].gleng, Disp(L, i))
    ensures !(L[i].Resolvable() && L[i].Forward() && L[i].Short() < L[i].leng < L[i].gleng) ==> RightForm(L, i)
  {
    if L[i].Resolvable() {
      assert RecOk(L, i);
      SpanBelow(L, L, i);
      FormMonotone(L[i].bounds, L[i].gleng, L[i].span, Disp(L, i));
    }
  }

  /** Only the first form has the shortest length. */
  lemma {:induction false} ShortIsFirst(s: SdiRec, disp: int)
    requires GoodRec(s) && s.Short() < s.gleng
    requires Form(s.bounds, s.gleng, disp) == s.Short()
    ensures s.bounds[0].lo <= disp <= s.bounds[0].hi
  {
    if |s.bounds| > 1 {
      FormAtLeast(s.bounds[1..], s.gleng, disp, s.bounds[1].length);
    }
  }

  /** A descriptor left at its shortest form truly reaches its label. */
  lemma ShortFormReaches(L: seq<SdiRec>, i: nat)
    requires Inv(L) && Stable(L) && i < |L|
    requires L[i].Resolvable() && L[i].leng == L[i].Short() < L[i].gleng
    ensures L[i].bounds[0].lo <= Disp(L, i) <= L[i].bounds[0].hi
  {
    assert RecOk(L, i);
    ShortIsFirst(L[i], L[i].span);
  }

  /** The fixpoint is consistent exactly when every form is the one its true displacement calls for. */
  lemma ConsistentIff(L: seq<SdiRec>)
    requires Inv(L) && Stable(L)
    ensures Consistent(L) <==> forall i :: 0 <= i < |L| ==> RightForm(L, i)
  {
    forall i | 0 <= i < |L| && L[i].Resolvable()
      ensures FormCovers(L[i], L[i].leng, Disp(L, i)) <==> RightForm(L, i)
    {
      FixpointForms(L, i);
      FormReaches(L[i], Disp(L, i));
      if FormCovers(L[i], L[i].leng, Disp(L, i)) && L[i].leng != L[i].gleng {
        var j :| 0 <= j < |L[i].bounds| && L[i].bounds[j].length == L[i].leng &&
          L[i].bounds[j].lo <= Disp(L, i) <= L[i].bounds[j].hi;
        FormIsLeast(L[i].bounds, L[i].gleng, Disp(L, i), j);
      } else if L[i].leng == L[i].gleng {
        FormMonotone(L[i].bounds, L[i].gleng, Disp(L, i), Disp(L, i));
      }
    }
  }

  // ---- How far a grown forward branch can lag ----------------------------

  /** Descriptor p ends right at the label of i. */
  ghost predicate Adjacent(L: seq<SdiRec>, i: nat, p: nat)
    requires i < |L| && p < |L| && HasForms(L)
  {
    p != i && L[p].section == L[i].section && L[p].loc + L[p].Short() == L[i].sym.value
  }

  /** Bytes of displacement that the tracked span of i does not show. */
  function Lag(L: seq<SdiRec>, i: nat): int
    requires i < |L| && HasForms(L)
  {
    Disp(L, i) - L[i].span
  }

  /** The lag is the branch's own growth plus at most the growth of the instruction in front of the label. */
  ghost predicate LagOk(L: seq<SdiRec>, i: nat)
    requires i < |L| && HasForms(L)
  {
    L[i].Resolvable() && L[i].Forward() && L[i].Extra() <= 2 ==>
      || Lag(L, i) <= L[i].Extra()
      || exists p :: 0 <= p < |L| && Adjacent(L, i, p) && Lag(L, i) <= L[i].Extra() + L[p].Extra()
  }

  ghost predicate LagsOk(L: seq<SdiRec>)
    requires HasForms(L)
  {
    forall i :: 0 <= i < |L| ==> LagOk(L, i)
  }

  lemma InitialLags(L: seq<SdiRec>)
    requires Initial(L)
    ensures HasForms(L) && LagsOk(L)
  {
    InitialInv(L);
    forall i | 0 <= i < |L| && L[i].Resolvable() ensures LagOk(L, i) {
      assert RecOk(L, i);
    }
  }

  /** An instruction in front of the one that ends at the label is at least two instructions away from it. */
  lemma TwoApart(L: seq<SdiRec>, i: nat, k: nat, p: nat)
    requires Inv(L) && k < |L| && i < |L| && p < |L| && k != p
    requires Adjacent(L, i, p) && L[k].section == L[i].section && L[k].loc < L[i].sym.value
    ensures Final(L, L[i].section, L[k].loc) + L[k].leng + L[p].leng <= Final(L, L[i].section, L[i].sym.value)
  {
    assert p < k ==> Apart(L, p, k);
    assert k < p ==> Apart(L, k, p);
    GrownInv(L);
    IncStep(L, k, L[k].loc, L[p].loc, |L|);
    IncStep(L, p, L[p].loc, L[i].sym.value, |L|);
  }

  /** A descriptor whose growth the branch does not notice sits right in front of the label. */
  lemma MissedIsAdjacent(L: seq<SdiRec>, k: nat, i: nat)
    requires Inv(L) && k < |L| && i < |L| && k != i
    requires GoodRecs(L) && LagOk(L, i)
    requires L[i].Resolvable() && L[i].Forward() && L[i].Extra() <= 2 && L[k].section == L[i].section
    requires L[i].loc < L[k].loc < L[i].sym.value
    requires L[i].base + L[i].span <= Final(L, L[k].section, L[k].loc)
    ensures Adjacent(L, i, k)
    ensures Lag(L, i) <= L[i].Extra() + L[k].Extra()
  {
    GrownInv(L);
    assert RecOk(L, i) && Clear(L, i, k);
    IncStep(L, k, L[k].loc, L[i].sym.value, |L|);
    if Lag(L, i) > L[i].Extra() {
      var p :| 0 <= p < |L| && Adjacent(L, i, p) && Lag(L, i) <= L[i].Extra() + L[p].Extra();
      if p != k {
        TwoApart(L, i, k, p);
      }
    }
  }

  /** The tracked span of a forward branch that grew by two bytes is at least its displacement before anything grew. */
  lemma SpanFromStart(L: seq<SdiRec>, i: nat)
    requires Inv(L) && HasForms(L) && i < |L| && LagOk(L, i)
    requires L[i].Resolvable() && L[i].Forward() && L[i].Extra() <= 2
    ensures L[i].sym.value - (L[i].loc + 2) <= L[i].span
  {
    GrownInv(L);
    assert RecOk(L, i);
    IncStep(L, i, L[i].loc, L[i].sym.value, |L|);
    if Lag(L, i) > L[i].Extra() {
      var p :| 0 <= p < |L| && Adjacent(L, i, p) && Lag(L, i) <= L[i].Extra() + L[p].Extra();
      assert p < i ==> Apart(L, p, i);
      assert i < p ==> Apart(L, i, p);
      IncStep(L, i, L[i].loc, L[p].loc, |L|);
      IncStep(L, p, L[p].loc, L[i].sym.value, |L|);
    }
  }

  /** Lag of i when the growth of k reaches its span. */
  lemma LagSeen(L: seq<SdiRec>, M: seq<SdiRec>, k: nat, delta: int, i: nat)
    requires HasForms(L) && k < |L| && i < |L| && 0 < delta
    requires GoodRecs(L) && LagOk(L, i) && SameProgram(L, M)
    requires forall j :: 0 <= j < |L| ==> M[j].leng == if j == k then L[k].leng + delta else L[j].leng
    requires Lag(M, i) == Lag(L, i) + if i == k then delta else 0
    ensures LagOk(M, i)
  {
    if M[i].Resolvable() && M[i].Forward() && M[i].Extra() <= 2 && Lag(M, i) > M[i].Extra() {
      var p :| 0 <= p < |L| && Adjacent(L, i, p) && Lag(L, i) <= L[i].Extra() + L[p].Extra();
      assert Adjacent(M, i, p) && Lag(M, i) <= M[i].Extra() + M[p].Extra();
    }
  }

  /** longsdi keeps the bound on the lag. */
  lemma LengthenedLag(L: seq<SdiRec>, k: nat, delta: int, i: nat)
    requires Inv(L) && k < |L| && i < |L| && 0 < delta
    requires GoodRecs(L) && LagOk(L, i)
    ensures var M := Lengthened(L, k, delta); HasForms(M) && LagOk(M, i)
  {
    var M := Lengthened(L, k, delta);
    LengthenedShape(L, k, delta);
    IncUpdate(L, M, k, delta, L[i].section, L[i].loc, |L|);
    IncUpdate(L, M, k, delta, L[i].section, L[i].sym.value, |L|);
    if L[i].Resolvable() && L[i].Forward() && M[i].Extra() <= 2 {
      assert RecOk(L, i);
      if i == k {
        LagSeen(L, M, k, delta, i);
      } else if L[k].section != L[i].section {
        LagSeen(L, M, k, delta, i);
      } else {
        Positions(L, k, i);
        if L[i].loc < L[k].loc < L[i].sym.value && L[i].base + L[i].span <= Final(L, L[k].section, L[k].loc) {
          MissedIsAdjacent(L, k, i);
          assert Adjacent(M, i, k) && Lag(M, i) <= M[i].Extra() + M[k].Extra();
        } else {
          LagSeen(L, M, k, delta, i);
        }
      }
    }
  }

  // ---- Runs of longsdi ---------------------------------------------------

  /** Every consistent assignment of forms is at least as long everywhere. */
  ghost predicate BelowConsistent(L: seq<SdiRec>) {
    forall M: seq<SdiRec> :: SameProgram(L, M) && HasForms(M) && Consistent(M) ==> NoLonger(L, M)
  }

  /** Everything that the loop of sdi_resolve maintains. */
  ghost predicate Relaxing(L: seq<SdiRec>) {
    Inv(L) && HasForms(L) && LagsOk(L) && BelowConsistent(L)
  }

  lemma SameProgramTrans(L: seq<SdiRec>, M: seq<SdiRec>, N: seq<SdiRec>)
    requires SameProgram(L, M)
    ensures SameProgram(L, N) <==> SameProgram(M, N)
  {}

  lemma InitialRelaxing(L: seq<SdiRec>)
    requires Initial(L)
    ensures Relaxing(L)
  {
    InitialInv(L);
    InitialLags(L);
    forall M: seq<SdiRec> | SameProgram(L, M) && HasForms(M) && Consistent(M)
      ensures NoLonger(L, M)
    {
      forall i | 0 <= i < |L| ensures L[i].leng <= M[i].leng {
        assert GoodRec(L[i]);
      }
    }
  }

  lemma LengthenedLags(L: seq<SdiRec>, k: nat, delta: int, M: seq<SdiRec>)
    requires Inv(L) && HasForms(L) && LagsOk(L) && k < |L| && 0 < delta
    requires M == Lengthened(L, k, delta)
    ensures HasForms(M) && LagsOk(M)
  {
    LengthenedShape(L, k, delta);
    forall i | 0 <= i < |L| ensures LagOk(M, i) {
      LengthenedLag(L, k, delta, i);
    }
  }

  lemma LengthenedBelowAll(L: seq<SdiRec>, k: nat)
    requires Inv(L) && BelowConsistent(L) && k < |L| && L[k].leng < SdiLen(L[k])
    ensures BelowConsistent(Lengthened(L, k, SdiLen(L[k]) - L[k].leng))
  {
    var M := Lengthened(L, k, SdiLen(L[k]) - L[k].leng);
    LengthenedInv(L, k);
    forall N: seq<SdiRec> | SameProgram(M, N) && HasForms(N) && Consistent(N)
      ensures NoLonger(M, N)
    {
      SameProgramTrans(L, M, N);
      LengthenedBelow(L, N, k);
    }
  }

  /** One longsdi call keeps everything and uses up slack. */
  lemma LengthenedRelaxing(L: seq<SdiRec>, k: nat) returns (M: seq<SdiRec>)
    requires Relaxing(L) && k < |L| && L[k].leng < SdiLen(L[k])
    ensures M == Lengthened(L, k, SdiLen(L[k]) - L[k].leng)
    ensures Relaxing(M) && SameProgram(L, M) && Slack(M, |M|) < Slack(L, |L|)
  {
    M := Lengthened(L, k, SdiLen(L[k]) - L[k].leng);
    assert BelowConsistent(M) by { LengthenedBelowAll(L, k); }
    assert HasForms(M) && LagsOk(M) by { LengthenedLags(L, k, SdiLen(L[k]) - L[k].leng, M); }
    assert Inv(M) && SameProgram(L, M) by { LengthenedInv(L, k); }
    assert Slack(M, |M|) < Slack(L, |L|) by { LengthenedSlack(L, k, SdiLen(L[k]) - L[k].leng); }
  }

  lemma LengthenedSlack(L: seq<SdiRec>, k: nat, delta: int)
    requires HasForms(L) && k < |L| && 0 < delta
    ensures Slack(Lengthened(L, k, delta), |L|) == Slack(L, |L|) - delta
  {
    LengthenedShape(L, k, delta);
    SlackFalls(L, Lengthened(L, k, delta), k, delta, |L|);
  }

  /** Room left for growth; it bounds the number of longsdi calls. */
  function Slack(L: seq<SdiRec>, n: nat): int
    requires n <= |L|
  {
    if n == 0 then 0 else Slack(L, n - 1) + L[n-1].gleng - L[n-1].leng
  }

  lemma {:induction false} SlackFalls(L: seq<SdiRec>, M: seq<SdiRec>, k: nat, delta: int, n: nat)
    requires SameProgram(L, M) && k < |L| && n <= |L|
    requires forall i :: 0 <= i < |L| ==> M[i].leng == if i == k then L[k].leng + delta else L[i].leng
    ensures Slack(M, n) == Slack(L, n) - if k < n then delta else 0
  {
    if n > 0 {
      SlackFalls(L, M, k, delta, n - 1);
    }
  }

  lemma {:induction false} SlackNonNegative(L: seq<SdiRec>, n: nat)
    requires n <= |L| && Inv(L)
    ensures 0 <= Slack(L, n)
  {
    if n > 0 {
      SlackNonNegative(L, n - 1);
      assert RecOk(L, n - 1);
    }
  }

  // ---- The loop as a function --------------------------------------------

  /** What a round does at descriptor i. */
  ghost function GrownAt(L: seq<SdiRec>, i: nat): (M: seq<SdiRec>)
    requires HasForms(L) && i < |L|
    ensures |M| == |L| && HasForms(M)
  {
    if L[i].leng < SdiLen(L[i]) then
      var delta := SdiLen(L[i]) - L[i].leng;
      LengthenedShape(L, i, delta);
      Lengthened(L, i, delta)
    else L
  }

  /** The round from descriptor i on. */
  ghost function Swept(L: seq<SdiRec>, i: nat): (M: seq<SdiRec>)
    requires HasForms(L) && i <= |L|
    ensures |M| == |L| && HasForms(M)
    decreases |L| - i
  {
    if i == |L| then L else Swept(GrownAt(L, i), i + 1)
  }

  /** M comes from L by growing some branches, if any. */
  ghost predicate Advances(L: seq<SdiRec>, M: seq<SdiRec>) {
    SameProgram(L, M) && Relaxing(M) && (M == L || Slack(M, |M|) < Slack(L, |L|))
  }

  lemma GrowthAdvances(L: seq<SdiRec>, i: nat)
    requires Relaxing(L) && i < |L|
    ensures Advances(L, GrownAt(L, i)) && (GrownAt(L, i) == L ==> SdiLen(L[i]) <= L[i].leng)
  {
    if L[i].leng < SdiLen(L[i]) {
      var M := LengthenedRelaxing(L, i);
    }
  }

  lemma {:induction false} SweptAdvances(L: seq<SdiRec>, i: nat)
    requires Relaxing(L) && i <= |L|
    ensures Advances(L, Swept(L, i))
    decreases |L| - i
  {
    if i == |L| {
      AdvancesSelf(L);
    } else {
      GrowthAdvances(L, i);
      SweptAdvances(GrownAt(L, i), i + 1);
      SweptOnce(L, i, GrownAt(L, i), Swept(L, i));
    }
  }

  lemma AdvancesSelf(L: seq<SdiRec>)
    requires Relaxing(L)
    ensures Advances(L, L)
  {
  }

  lemma SweptOnce(L: seq<SdiRec>, i: nat, M: seq<SdiRec>, N: seq<SdiRec>)
    requires HasForms(L) && i < |L| && M == GrownAt(L, i) && N == Swept(L, i)
    requires Advances(L, M) && Advances(M, Swept(M, i + 1))
    ensures Advances(L, N)
  {
    assert N == Swept(M, i + 1);
    AdvancesTrans(L, M, N);
  }

  lemma AdvancesTrans(L: seq<SdiRec>, M: seq<SdiRec>, N: seq<SdiRec>)
    requires Advances(L, M) && Advances(M, N)
    ensures Advances(L, N)
  {
    SameProgramTrans(L, M, N);
  }

  /** A round that changes nothing has found nothing to grow. */
  lemma {:induction false} SweptSame(L: seq<SdiRec>, i: nat, j: nat)
    requires Relaxing(L) && i <= j < |L| && Swept(L, i) == L
    ensures SdiLen(L[j]) == L[j].leng
    decreases |L| - i
  {
    GrowthAdvances(L, i);
    SweptAdvances(GrownAt(L, i), i + 1);
    assert RecOk(L, j);
    if i < j {
      SweptSame(L, i + 1, j);
    }
  }

  /** Rounds until one changes nothing. */
  ghost function Relaxed(L: seq<SdiRec>): (M: seq<SdiRec>)
    requires Relaxing(L)
    decreases Slack(L, |L|)
  {
    SlackNonNegative(L, |L|);
    SweptAdvances(L, 0);
    if Swept(L, 0) == L then L else Relaxed(Swept(L, 0))
  }

  lemma {:induction false} RelaxedResolved(L0: seq<SdiRec>, L: seq<SdiRec>)
    requires SameProgram(L0, L) && Relaxing(L)
    ensures Resolved(L0, Relaxed(L))
    decreases Slack(L, |L|)
  {
    SlackNonNegative(L, |L|);
    SweptAdvances(L, 0);
    if Swept(L, 0) == L {
      forall j | 0 <= j < |L| ensures SdiLen(L[j]) == L[j].leng {
        SweptSame(L, 0, j);
      }
    } else {
      SameProgramTrans(L0, L, Swept(L, 0));
      RelaxedResolved(L0, Swept(L, 0));
    }
  }

  /**
   The outcome of sdi_resolve for a program L0: a fixpoint whose lengths are
   the least among all consistent assignments.
   */
  ghost predicate Resolved(L0: seq<SdiRec>, L: seq<SdiRec>) {
    SameProgram(L0, L) && Relaxing(L) && Stable(L)
  }

  /** No assignment of lengths in which every form covers its true displacement has a shorter form anywhere. */
  ghost predicate Least(L0: seq<SdiRec>, L: seq<SdiRec>) {
    forall M: seq<SdiRec> :: SameProgram(L0, M) && HasForms(M) && Consistent(M) ==> NoLonger(L, M)
  }

  lemma ResolvedLeast(L0: seq<SdiRec>, L: seq<SdiRec>)
    requires Resolved(L0, L)
    ensures Least(L0, L)
  {
    forall M: seq<SdiRec> | SameProgram(L0, M) && HasForms(M) && Consistent(M) ensures NoLonger(L, M) {
      SameProgramTrans(L0, L, M);
    }
  }

  /**
   Whichever order the branches are visited in: two outcomes with every form right are
   both the least assignment, so they have the same lengths.
   */
  lemma OutcomeUnique(L0: seq<SdiRec>, L: seq<SdiRec>, M: seq<SdiRec>)
    requires Resolved(L0, L) && (forall i :: 0 <= i < |L| ==> RightForm(L, i))
    requires Resolved(L0, M) && (forall i :: 0 <= i < |M| ==> RightForm(M, i))
    ensures |L| == |M| && forall i :: 0 <= i < |L| ==> L[i].leng == M[i].leng
  {
    ConsistentIff(L);
    ConsistentIff(M);
    ResolvedLeast(L0, L);
    ResolvedLeast(L0, M);
    assert NoLonger(L, M) && NoLonger(M, L);
  }
}
