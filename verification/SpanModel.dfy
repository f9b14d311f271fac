/**
 Value-level specification of the span-dependent instruction (SDI) relaxation
 that the assembler as68 runs between its two passes.

 An `SdiRec` is a snapshot of one SDI descriptor.  The functions here say what
 the routines of sdi.c compute on such snapshots; module `SpanTheory` proves
 what that means, and module `SpanRelaxation` holds the routines themselves.
 */
module SpanModel {

  /** One form of an SDI: its length in bytes and the spans it can reach. */
  datatype Bound = Bound(length: int, lo: int, hi: int)

  /** A symbol as the relaxation sees it; section 0 stands for the null csect. */
  datatype SymRec = SymRec(section: nat, defined: bool, value: int)

  datatype SdiRec = SdiRec(
    section: nat,         // csect of the instruction
    loc: int,             // its pass 1 address
    sym: SymRec,          // the label it refers to
    gleng: int,           // length of the most general form
    bounds: seq<Bound>,   // the other forms, shortest first
    leng: int,            // current length
    span: int,            // tracked span
    base: int             // origin of the span
  ) {
    function Short(): int
      requires bounds != []
    {
      bounds[0].length
    }

    /** Bytes by which the instruction has outgrown its shortest form. */
    function Extra(): int
      requires bounds != []
    {
      leng - Short()
    }

    /** The label is defined in the instruction's own csect. */
    predicate Resolvable() {
      sym.defined && sym.section == section
    }

    predicate Forward() {
      loc < sym.value
    }
  }

  /** The length of the first form whose bounds hold the span. */
  function Form(bounds: seq<Bound>, gleng: int, span: int): int {
    if bounds == [] then gleng
    else if bounds[0].lo <= span <= bounds[0].hi then bounds[0].length
    else Form(bounds[1..], gleng, span)
  }

  /** What sdi_len returns. */
  function SdiLen(s: SdiRec): int {
    if s.Resolvable() then Form(s.bounds, s.gleng, s.span) else s.gleng
  }

  /** Intervals are nested around 0 and lengths grow up to the general form. */
  ghost predicate NestedBounds(bounds: seq<Bound>, gleng: int) {
    && (forall i :: 0 <= i < |bounds| ==> bounds[i].lo <= 0 <= bounds[i].hi && bounds[i].length <= gleng)
    && (forall i, j :: 0 <= i < j < |bounds| ==>
          bounds[i].length < bounds[j].length && bounds[j].lo <= bounds[i].lo && bounds[i].hi <= bounds[j].hi)
  }

  /** Shape conditions that pass 1 establishes for every descriptor on its own. */
  ghost predicate GoodRec(s: SdiRec) {
    && s.bounds != []
    && NestedBounds(s.bounds, s.gleng)
    && 2 <= s.Short()
  }

  predicate HasForms(L: seq<SdiRec>) {
    forall i :: 0 <= i < |L| ==> L[i].bounds != []
  }

  ghost predicate GoodRecs(L: seq<SdiRec>) {
    forall i :: 0 <= i < |L| ==> GoodRec(L[i])
  }

  /** The list is kept in order of pass 1 address. */
  ghost predicate Sorted(L: seq<SdiRec>) {
    forall i, j :: 0 <= i < j < |L| ==> L[i].loc <= L[j].loc
  }

  /** Bytes gained, up to the n-th descriptor, in front of an offset of a csect. */
  function IncTo(L: seq<SdiRec>, section: nat, offset: int, n: nat): int
    requires n <= |L|
    requires HasForms(L)
  {
    if n == 0 then 0
    else IncTo(L, section, offset, n - 1)
         + if L[n-1].section == section && L[n-1].loc < offset then L[n-1].Extra() else 0
  }

  /** Bytes gained in front of an offset: how far that offset moves. */
  function Inc(L: seq<SdiRec>, section: nat, offset: int): int
    requires HasForms(L)
  {
    IncTo(L, section, offset, |L|)
  }

  /** Where a pass 1 offset ends up under the lengths in L. */
  function Final(L: seq<SdiRec>, section: nat, offset: int): int
    requires HasForms(L)
  {
    offset + Inc(L, section, offset)
  }

  /** The true displacement of descriptor i under the lengths in L. */
  function Disp(L: seq<SdiRec>, i: nat): int
    requires i < |L|
    requires HasForms(L)
  {
    Final(L, L[i].section, L[i].sym.value) - (Final(L, L[i].section, L[i].loc) + 2)
  }

  /** longsdi's effect on a descriptor t other than the one that grows at address loc. */
  function Shifted(t: SdiRec, section: nat, loc: int, delta: int): SdiRec {
    if section != t.sym.section then t
    else
      var t1 :=
        if t.span < 0 && t.span + t.base <= loc < t.base then t.(span := t.span - delta)
        else if t.span >= 0 && t.base <= loc < t.span + t.base then t.(span := t.span + delta)
        else t;
      if t.base > loc then t1.(base := t.base + delta) else t1
  }

  /** The list after descriptor k grew by delta bytes: longsdi. */
  function Lengthened(L: seq<SdiRec>, k: nat, delta: int): (M: seq<SdiRec>)
    requires k < |L|
    requires HasForms(L)
    ensures |M| == |L|
  {
    var grown := L[k := L[k].(leng := L[k].leng + delta)];
    var loc := Final(grown, L[k].section, L[k].loc);
    seq(|L|, i requires 0 <= i < |L| => if i == k then grown[k] else Shifted(L[i], L[k].section, loc, delta))
  }

  /** Descriptors that differ only in what the relaxation may change. */
  ghost predicate SameFixed(s: SdiRec, t: SdiRec) {
    t == s.(leng := t.leng, span := t.span, base := t.base)
  }

  ghost predicate SameProgram(L: seq<SdiRec>, M: seq<SdiRec>) {
    |L| == |M| && forall i :: 0 <= i < |L| ==> SameFixed(L[i], M[i])
  }

  /** Two instructions of one csect do not overlap. */
  ghost predicate Apart(L: seq<SdiRec>, i: nat, j: nat)
    requires i < |L| && j < |L| && HasForms(L)
  {
    L[i].section == L[j].section ==> L[i].loc + L[i].Short() <= L[j].loc
  }

  /** The label of i does not lie inside instruction j. */
  ghost predicate Clear(L: seq<SdiRec>, i: nat, j: nat)
    requires i < |L| && j < |L| && HasForms(L)
  {
    L[i].Resolvable() && L[j].section == L[i].section ==>
      L[i].sym.value <= L[j].loc || L[j].loc + L[j].Short() <= L[i].sym.value
  }

  ghost predicate WellPlaced(L: seq<SdiRec>)
    requires HasForms(L)
  {
    && (forall i, j :: 0 <= i < j < |L| ==> Apart(L, i, j))
    && (forall i, j :: 0 <= i < |L| && 0 <= j < |L| ==> Clear(L, i, j))
  }

  /** A form of that length reaches the displacement. */
  ghost predicate FormCovers(s: SdiRec, length: int, disp: int) {
    length == s.gleng
    || exists j :: 0 <= j < |s.bounds| && s.bounds[j].length == length && s.bounds[j].lo <= disp <= s.bounds[j].hi
  }

  /** Every instruction's form reaches its true displacement under the lengths in M. */
  ghost predicate Consistent(M: seq<SdiRec>)
    requires HasForms(M)
  {
    forall i :: 0 <= i < |M| ==>
      if M[i].Resolvable() then FormCovers(M[i], M[i].leng, Disp(M, i)) else M[i].leng == M[i].gleng
  }

  /** The lengths in L are pointwise at most those in M. */
  ghost predicate NoLonger(L: seq<SdiRec>, M: seq<SdiRec>) {
    |L| == |M| && forall i :: 0 <= i < |L| ==> L[i].leng <= M[i].leng
  }

  lemma InsertedIndex<T>(s: seq<T>, k: nat, x: T, i: nat)
    requires k <= |s| && i <= |s|
    ensures (s[..k] + [x] + s[k..])[i] == if i < k then s[i] else if i == k then x else s[i - 1]
  {}
}
