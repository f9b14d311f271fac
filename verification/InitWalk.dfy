/**
 The walk over a nested type that pcc's initializers make: beginit, instk and
 gotscal keep a stack of the arrays and structures around the next scalar.
 */
module InitWalk {
  import opened Arithmetic

  /** Types as initializers see them; offsets and sizes in bits. */
  datatype Ty = Scalar(size: nat) | Arr(dim: nat, elem: Ty) | Struct(members: seq<Member>, size: nat)

  datatype Member = Member(off: nat, ty: Ty)

  /** The deepest nesting the stack has room for. */
  const DEPTH: nat := 10

  // ---- Types -------------------------------------------------------------

  function Size(t: Ty): nat {
    match t
    case Scalar(s) => s
    case Arr(d, e) => d * Size(e)
    case Struct(_, s) => s
  }

  /** The deepest of the first n members. */
  function MemberDepth(t: Ty, n: nat): nat
    requires t.Struct? && n <= |t.members|
    decreases t, 0, n
  {
    if n == 0 then 0
    else
      var d, r := Depth(t.members[n - 1].ty), MemberDepth(t, n - 1);
      if d > r then d else r
  }

  function Depth(t: Ty): (d: nat)
    ensures d >= 1
    decreases t, 1, 0
  {
    match t
    case Scalar(_) => 1
    case Arr(_, e) => 1 + Depth(e)
    case Struct(ms, _) => 1 + MemberDepth(t, |ms|)
  }

  lemma {:induction false} MemberIsShallow(t: Ty, i: nat, n: nat)
    requires t.Struct? && i < n <= |t.members|
    ensures Depth(t.members[i].ty) <= MemberDepth(t, n)
  {
    if i < n - 1 {
      MemberIsShallow(t, i, n - 1);
    }
  }

  /** Members lie one after the other inside the structure. */
  predicate InOrder(ms: seq<Member>, size: nat, i: nat)
    requires i < |ms|
  {
    ms[i].off + Size(ms[i].ty) <= if i + 1 < |ms| then ms[i + 1].off else size
  }

  /** No empty arrays or structures. */
  predicate Inner(t: Ty) {
    match t
    case Scalar(s) => s > 0
    case Arr(d, e) => d > 0 && Inner(e)
    case Struct(ms, s) => ms != [] && forall i :: 0 <= i < |ms| ==> Inner(ms[i].ty) && InOrder(ms, s, i)
  }

  /** The outermost array may still lack its dimension. */
  predicate WellFormed(t: Ty) {
    if t.Arr? then Inner(t.elem) else Inner(t)
  }

  // ---- Scalars in declaration order --------------------------------------

  datatype Leaf = Leaf(off: nat, size: nat)

  function Leaves(t: Ty, off: nat): seq<Leaf>
    decreases t, 2, 0
  {
    match t
    case Scalar(s) => [Leaf(off, s)]
    case Arr(_, _) => Elements(t, off, 0)
    case Struct(_, _) => Members(t, off, 0)
  }

  /** Of the elements from the i-th on. */
  function Elements(t: Ty, off: nat, i: nat): seq<Leaf>
    requires t.Arr?
    decreases t, 1, t.dim - i
  {
    if i >= t.dim then [] else Leaves(t.elem, off + i * Size(t.elem)) + Elements(t, off, i + 1)
  }

  /** Of the members from the i-th on. */
  function Members(t: Ty, off: nat, i: nat): seq<Leaf>
    requires t.Struct?
    decreases t, 1, |t.members| - i
  {
    if i >= |t.members| then [] else Leaves(t.members[i].ty, off + t.members[i].off) + Members(t, off, i + 1)
  }

  // ---- The stack ---------------------------------------------------------

  /** in_t, in_off, in_n and in_x. */
  datatype Frame = Frame(ty: Ty, off: nat, n: nat, x: nat)

  /** The outermost array takes as many elements as it is given. */
  function Widened(t: Ty, d: nat): Ty {
    if t.Arr? then t.(dim := d) else t
  }

  /** Scalars of a frame after the element or member being worked on. */
  function After(f: Frame): seq<Leaf> {
    match f.ty
    case Scalar(_) => []
    case Arr(_, _) => Elements(f.ty, f.off, f.n + 1)
    case Struct(_, _) => Members(f.ty, f.off, f.x + 1)
  }

  /** Scalars still to come below the top of the stack; the bottom frame is widened to dimension d. */
  function AfterAll(stk: seq<Frame>, d: nat): seq<Leaf> {
    if stk == [] then []
    else
      var f := stk[|stk| - 1];
      After(if |stk| == 1 then f.(ty := Widened(f.ty, d)) else f) + AfterAll(stk[..|stk| - 1], d)
  }

  predicate FrameOk(stk: seq<Frame>, i: nat)
    requires i < |stk|
  {
    (if i == 0 then WellFormed(stk[i].ty) else Inner(stk[i].ty)) && i + Depth(stk[i].ty) <= Depth(stk[0].ty)
  }

  /** The top of the stack is the scalar to initialize next. */
  ghost predicate AtScalar(stk: seq<Frame>) {
    stk != [] && stk[|stk| - 1].ty.Scalar?
  }

  /** All scalars still to come, the top one first. */
  function Rest(stk: seq<Frame>, d: nat): seq<Leaf>
    requires AtScalar(stk)
  {
    var top := stk[|stk| - 1];
    [Leaf(top.off, top.ty.size)] + AfterAll(stk[..|stk| - 1], d)
  }

  class InitStack {
    var stk: seq<Frame>

    ghost predicate Valid()
      reads this
    {
      Sound(stk)
    }

    /** beginit: the stack for the variable's own type. */
    constructor (ty: Ty, ghost d: nat)
      requires WellFormed(ty) && Depth(ty) <= DEPTH
      ensures Valid() && AtScalar(stk) && stk[0].ty == ty && (d > 0 ==> Rest(stk, d) == Leaves(Widened(ty, d), 0))
    {
      stk := [];
      new;
      Instk(ty, 0, d);
    }

    /** Stacks a type and its first element or member, down to a scalar. */
    method Instk(ty: Ty, off: nat, ghost d: nat)
      requires Room(stk, ty)
      modifies this
      ensures Valid() && AtScalar(stk) && old(stk) < stk
      ensures old(stk) != [] ==> Rest(stk, d) == Leaves(ty, off) + AfterAll(old(stk), d)
      ensures old(stk) == [] ==> stk[0].ty == ty && (d > 0 ==> Rest(stk, d) == Leaves(Widened(ty, d), off))
    {
      var t: Ty, o: nat := ty, off;
      ghost var base := stk;
      while !t.Scalar?
        invariant Stacking(base, ty, off, d, stk, t, o)
        decreases t
      {
        StackMore(base, ty, off, d, stk, t, o);
        stk := stk + [Frame(t, o, 0, 0)];
        match t {
          case Arr(_, e) => t := e;
          case Struct(ms, _) => t, o := ms[0].ty, o + ms[0].off;
        }
      }
      StackScalar(base, ty, off, d, stk, t, o);
      stk := stk + [Frame(t, o, 0, 0)];
    }

    /**
     A scalar is done: moves to the next one, leaving every array and structure that
     is complete; only the outermost array is never complete.
     */
    method Gotscal(ghost d: nat) returns (more: bool)
      requires Valid() && AtScalar(stk)
      modifies this
      ensures Valid() && stk[0].ty == old(stk)[0].ty && (more ==> AtScalar(stk))
      ensures d > 0 && Rest(old(stk), d)[1..] != [] ==> more && Rest(stk, d) == Rest(old(stk), d)[1..]
      ensures !more ==> d > 0 ==> Rest(old(stk), d)[1..] == []
    {
      ghost var rest := AfterAll(stk[..|stk| - 1], d);
      assert Rest(stk, d)[1..] == rest;
      while |stk| > 1
        invariant Valid() && stk[0].ty == old(stk)[0].ty && AfterAll(stk[..|stk| - 1], d) == rest
        decreases |stk|
      {
        ghost var was := stk;
        MovedSound(was);
        var f := Next(stk[|stk| - 2]);
        stk := stk[..|stk| - 2] + [f];
        var done := match f.ty
          case Scalar(_) => true
          case Arr(dim, _) => f.n >= dim && |stk| > 1
          case Struct(ms, _) => f.x >= |ms|;
        if !done {
          if HasNext(Below(was, d)) {
            MoveOn(was, d);
          } else {
            Overrun(was);
            LeaveFrame(was, d);
          }
          var (t, o) := Current(f);
          Instk(t, o, d);
          return true;
        }
        LeaveFrame(was, d);
      }
      more := false;
    }
  }

  // ---- gotscal -----------------------------------------------------------

  /** Another element or member follows the one being worked on. */
  predicate HasNext(f: Frame) {
    match f.ty
    case Scalar(_) => false
    case Arr(dim, _) => f.n + 1 < dim
    case Struct(ms, _) => f.x + 1 < |ms|
  }

  function Next(f: Frame): Frame {
    match f.ty
    case Scalar(_) => f
    case Arr(_, _) => f.(n := f.n + 1)
    case Struct(_, _) => f.(x := f.x + 1)
  }

  /** The element or member a frame is working on, and its offset. */
  function Current(f: Frame): (Ty, nat)
    requires f.ty.Arr? || (f.ty.Struct? && f.x < |f.ty.members|)
  {
    match f.ty
    case Arr(_, e) => (e, f.off + f.n * Size(e))
    case Struct(ms, _) => (ms[f.x].ty, f.off + ms[f.x].off)
  }

  lemma AfterNext(f: Frame)
    ensures if HasNext(f) then After(f) == Leaves(Current(Next(f)).0, Current(Next(f)).1) + After(Next(f))
      else After(f) == []
  {
  }

  lemma CurrentFits(f: Frame)
    requires f.ty.Arr? || (f.ty.Struct? && f.x < |f.ty.members|)
    requires WellFormed(f.ty)
    ensures Inner(Current(f).0) && Depth(Current(f).0) < Depth(f.ty)
  {
    if f.ty.Struct? {
      MemberIsShallow(f.ty, f.x, |f.ty.members|);
    }
  }

  /** The frames below the top, with the top of them moved on to its next element or member. */
  function Moved(stk: seq<Frame>): seq<Frame>
    requires |stk| > 1
  {
    var n := |stk| - 2;
    stk[..n] + [Next(stk[n])]
  }

  ghost predicate Sound(stk: seq<Frame>) {
    stk != [] && Depth(stk[0].ty) <= DEPTH && forall i :: 0 <= i < |stk| ==> FrameOk(stk, i)
  }

  lemma MovedSound(stk: seq<Frame>)
    requires Sound(stk) && |stk| > 1
    ensures Sound(Moved(stk)) && Moved(stk)[0].ty == stk[0].ty
  {
    forall i | 0 <= i < |Moved(stk)| ensures FrameOk(Moved(stk), i) {
      assert FrameOk(stk, i);
    }
  }

  /** What the frame below the top, widened at the bottom, still has to come. */
  function Below(stk: seq<Frame>, d: nat): Frame
    requires |stk| > 1
  {
    var f := stk[|stk| - 2];
    if |stk| == 2 then f.(ty := Widened(f.ty, d)) else f
  }

  lemma MovedRest(stk: seq<Frame>, d: nat)
    requires |stk| > 1
    ensures var n := |stk| - 2; var f := Below(stk, d);
      && AfterAll(stk[..n + 1], d) == After(f) + AfterAll(stk[..n], d)
      && AfterAll(Moved(stk), d) == After(Next(f)) + AfterAll(stk[..n], d)
      && Moved(stk)[..n] == stk[..n]
  {
    var n := |stk| - 2;
    assert stk[..n] + [stk[n]] == stk[..n + 1];
    AfterPush(stk[..n], stk[n], d);
    AfterPush(stk[..n], Next(stk[n]), d);
  }

  /** Moving on within the frame below: the next element or member comes first. */
  lemma MoveOn(stk: seq<Frame>, d: nat)
    requires Sound(stk) && |stk| > 1 && HasNext(Below(stk, d))
    ensures var u := Moved(stk); var g := u[|u| - 1];
      && (g.ty.Arr? || (g.ty.Struct? && g.x < |g.ty.members|))
      && Room(u, Current(g).0)
      && Leaves(Current(g).0, Current(g).1) + AfterAll(u, d) == AfterAll(stk[..|stk| - 1], d)
  {
    var n := |stk| - 2;
    var u := Moved(stk);
    MovedSound(stk);
    SameCurrent(stk, d);
    assert FrameOk(u, n);
    CurrentFits(u[n]);
    MovedLeaves(stk, d, Leaves(Current(u[n]).0, Current(u[n]).1));
  }

  /** Widening does not change where the frame below goes next. */
  lemma SameCurrent(stk: seq<Frame>, d: nat)
    requires |stk| > 1 && HasNext(Below(stk, d))
    ensures var f, g := Next(Below(stk, d)), Next(stk[|stk| - 2]);
      && (g.ty.Arr? || (g.ty.Struct? && g.x < |g.ty.members|))
      && (f.ty.Arr? || (f.ty.Struct? && f.x < |f.ty.members|)) && Current(f) == Current(g)
  {
  }

  lemma MovedLeaves(stk: seq<Frame>, d: nat, here: seq<Leaf>)
    requires |stk| > 1 && HasNext(Below(stk, d))
    requires var f := Next(Below(stk, d));
      (f.ty.Arr? || (f.ty.Struct? && f.x < |f.ty.members|)) && here == Leaves(Current(f).0, Current(f).1)
    ensures here + AfterAll(Moved(stk), d) == AfterAll(stk[..|stk| - 1], d)
  {
    var n, f := |stk| - 2, Below(stk, d);
    MovedRest(stk, d);
    AfterNext(f);
    Assoc(here, After(Next(f)), AfterAll(stk[..n], d));
  }

  /** The outermost array goes on past its dimension. */
  lemma Overrun(stk: seq<Frame>)
    requires Sound(stk) && |stk| == 2 && stk[0].ty.Arr?
    ensures Room(Moved(stk), stk[0].ty.elem)
  {
    MovedSound(stk);
    assert FrameOk(stk, 0);
    CurrentFits(stk[0]);
  }

  /** A frame that has nothing more to come is left behind. */
  lemma LeaveFrame(stk: seq<Frame>, d: nat)
    requires |stk| > 1 && !HasNext(Below(stk, d))
    ensures var u := Moved(stk); AfterAll(u[..|u| - 1], d) == AfterAll(stk[..|stk| - 1], d)
  {
    MovedRest(stk, d);
    AfterNext(Below(stk, d));
  }

  /** instk is working on type t at offset o, part of the type it was given. */
  ghost predicate Stacking(base: seq<Frame>, ty: Ty, off: nat, d: nat, stk: seq<Frame>, t: Ty, o: nat) {
    && base <= stk && Room(stk, t) && (stk == base ==> t == ty && o == off)
    && (if base != [] then Leaves(t, o) + AfterAll(stk, d) == Leaves(ty, off) + AfterAll(base, d)
        else stk != [] ==>
          stk[0].ty == ty && (d > 0 ==> Leaves(t, o) + AfterAll(stk, d) == Leaves(Widened(ty, d), off)))
  }

  lemma StackMore(base: seq<Frame>, ty: Ty, off: nat, d: nat, stk: seq<Frame>, t: Ty, o: nat)
    requires Stacking(base, ty, off, d, stk, t, o) && !t.Scalar?
    ensures Stacking(base, ty, off, d, stk + [Frame(t, o, 0, 0)], FirstOf(t, o).0, FirstOf(t, o).1)
  {
    Descend(stk, t, o, d);
  }

  lemma StackScalar(base: seq<Frame>, ty: Ty, off: nat, d: nat, stk: seq<Frame>, t: Ty, o: nat)
    requires Stacking(base, ty, off, d, stk, t, o) && t.Scalar?
    ensures var u := stk + [Frame(t, o, 0, 0)];
      && Sound(u) && AtScalar(u) && base < u
      && (base != [] ==> Rest(u, d) == Leaves(ty, off) + AfterAll(base, d))
      && (base == [] ==> u[0].ty == ty && (d > 0 ==> Rest(u, d) == Leaves(Widened(ty, d), off)))
  {
    PushRoom(stk, Frame(t, o, 0, 0));
    assert (stk + [Frame(t, o, 0, 0)])[..|stk|] == stk;
    assert stk == [] ==> AfterAll(stk, d) == [];
  }

  /** The type may go on top of the stack. */
  ghost predicate Room(stk: seq<Frame>, t: Ty) {
    && (forall i :: 0 <= i < |stk| ==> FrameOk(stk, i))
    && if stk == [] then WellFormed(t) && Depth(t) <= DEPTH
       else Inner(t) && |stk| + Depth(t) <= Depth(stk[0].ty) <= DEPTH
  }

  /** The type of the first element or member, and its offset. */
  function FirstOf(t: Ty, o: nat): (Ty, nat)
    requires !t.Scalar? && WellFormed(t)
  {
    if t.Arr? then (t.elem, o) else (t.members[0].ty, o + t.members[0].off)
  }

  lemma AfterPush(stk: seq<Frame>, f: Frame, d: nat)
    ensures AfterAll(stk + [f], d) == After(if stk == [] then f.(ty := Widened(f.ty, d)) else f) + AfterAll(stk, d)
  {
    assert (stk + [f])[..|stk|] == stk;
  }

  lemma PushRoom(stk: seq<Frame>, f: Frame)
    requires Room(stk, f.ty)
    ensures var u := stk + [f]; Depth(u[0].ty) <= DEPTH && forall i :: 0 <= i < |u| ==> FrameOk(u, i)
  {
    var u := stk + [f];
    forall i | 0 <= i < |u| ensures FrameOk(u, i) {
      assert i < |stk| ==> FrameOk(stk, i);
    }
  }

  lemma FirstFits(t: Ty, o: nat)
    requires !t.Scalar? && WellFormed(t)
    ensures Inner(FirstOf(t, o).0) && Depth(FirstOf(t, o).0) < Depth(t)
  {
    if t.Struct? {
      MemberIsShallow(t, 0, |t.members|);
    }
  }

  /** The first element or member, then the others. */
  lemma FirstLeaves(t: Ty, o: nat)
    requires !t.Scalar? && WellFormed(t) && (t.Arr? ==> t.dim > 0)
    ensures Leaves(t, o) == Leaves(FirstOf(t, o).0, FirstOf(t, o).1) + After(Frame(t, o, 0, 0))
  {
    if t.Arr? {
      assert o + 0 * Size(t.elem) == o;
      assert Elements(t, o, 0) == Leaves(t.elem, o) + Elements(t, o, 1);
    }
  }

  /** Stacking an array or structure leaves its first element or member, and the others for later. */
  lemma Descend(stk: seq<Frame>, t: Ty, o: nat, d: nat)
    requires Room(stk, t) && !t.Scalar?
    ensures var (t1, o1) := FirstOf(t, o); var u := stk + [Frame(t, o, 0, 0)];
      && Room(u, t1)
      && (stk != [] ==> Leaves(t1, o1) + AfterAll(u, d) == Leaves(t, o) + AfterAll(stk, d))
      && (stk == [] && d > 0 ==> Leaves(t1, o1) + AfterAll(u, d) == Leaves(Widened(t, d), o))
  {
    var f := Frame(t, o, 0, 0);
    var (t1, o1) := FirstOf(t, o);
    PushRoom(stk, f);
    FirstFits(t, o);
    AfterPush(stk, f, d);
    if stk != [] {
      FirstLeaves(t, o);
      Assoc(Leaves(t1, o1), After(f), AfterAll(stk, d));
    } else if d > 0 {
      FirstLeaves(Widened(t, d), o);
      assert AfterAll([], d) == [];
    }
  }

  // ---- The k-th scalar ---------------------------------------------------

  /** After k calls of gotscal the top of the stack is the k-th scalar in declaration order. */
  method KthScalar(ty: Ty, k: nat, ghost d: nat) returns (leaf: Leaf)
    requires WellFormed(ty) && Depth(ty) <= DEPTH && d > 0 && k < |Leaves(Widened(ty, d), 0)|
    ensures leaf == Leaves(Widened(ty, d), 0)[k]
  {
    var st := new InitStack(ty, d);
    ghost var all := Leaves(Widened(ty, d), 0);
    var i := 0;
    while i < k
      invariant 0 <= i <= k && fresh(st) && st.Valid() && AtScalar(st.stk) && Rest(st.stk, d) == all[i..]
    {
      assert all[i..][1..] == all[i + 1..];
      var more := st.Gotscal(d);
      i := i + 1;
    }
    var top := st.stk[|st.stk| - 1];
    leaf := Leaf(top.off, top.ty.size);
  }

  // ---- Offsets only grow -------------------------------------------------

  predicate Before(ls: seq<Leaf>, i: nat, j: nat)
    requires i < |ls| && j < |ls|
  {
    ls[i].off + ls[i].size <= ls[j].off
  }

  predicate Within(ls: seq<Leaf>, i: nat, lo: nat, hi: nat)
    requires i < |ls|
  {
    lo <= ls[i].off && 0 < ls[i].size && ls[i].off + ls[i].size <= hi
  }

  /** Scalars one after the other, without overlap, inside a range. */
  ghost predicate Chain(ls: seq<Leaf>, lo: nat, hi: nat) {
    && (forall i :: 0 <= i < |ls| ==> Within(ls, i, lo, hi))
    && (forall i, j :: 0 <= i < j < |ls| ==> Before(ls, i, j))
  }

  lemma ChainJoin(a: seq<Leaf>, b: seq<Leaf>, lo: nat, mid: nat, mid2: nat, hi: nat)
    requires lo <= mid <= mid2 <= hi && Chain(a, lo, mid) && Chain(b, mid2, hi)
    ensures Chain(a + b, lo, hi)
  {
    var ls, n := a + b, |a|;
    forall i | 0 <= i < |ls| ensures Within(ls, i, lo, hi) {
      assert if i < n then Within(a, i, lo, mid) else Within(b, i - n, mid2, hi);
    }
    forall i, j | 0 <= i < j < |ls| ensures Before(ls, i, j) {
      if j < n {
        assert Before(a, i, j);
      } else if i >= n {
        assert Before(b, i - n, j - n);
      } else {
        assert Within(a, i, lo, mid) && Within(b, j - n, mid2, hi);
      }
    }
  }

  /** Scalars come in increasing order and do not overlap, in every well-formed type. */
  lemma {:induction false} LeavesOrdered(t: Ty, off: nat)
    requires Inner(t)
    ensures Chain(Leaves(t, off), off, off + Size(t))
    decreases t, 2, 0
  {
    match t
    case Scalar(_) =>
    case Arr(_, _) => ElementsOrdered(t, off, 0);
    case Struct(_, _) =>
      MembersOrdered(t, off, 0);
      ChainJoin([], Leaves(t, off), off, off, off + MemberStart(t, 0), off + t.size);
      assert [] + Leaves(t, off) == Leaves(t, off);
  }

  lemma {:induction false} ElementsOrdered(t: Ty, off: nat, i: nat)
    requires t.Arr? && Inner(t.elem) && i <= t.dim
    ensures i * Size(t.elem) <= Size(t) && Chain(Elements(t, off, i), off + i * Size(t.elem), off + Size(t))
    decreases t, 1, t.dim - i
  {
    var e := Size(t.elem);
    if i < t.dim {
      assert (i + 1) * e == i * e + e;
      LeavesOrdered(t.elem, off + i * e);
      ElementsOrdered(t, off, i + 1);
      ChainJoin(Leaves(t.elem, off + i * e), Elements(t, off, i + 1), off + i * e, off + (i + 1) * e,
        off + (i + 1) * e, off + Size(t));
    }
  }

  /** Where member i starts, or where the structure ends. */
  function MemberStart(t: Ty, i: nat): nat
    requires t.Struct? && i <= |t.members|
  {
    if i < |t.members| then t.members[i].off else t.size
  }

  lemma {:induction false} MembersOrdered(t: Ty, off: nat, i: nat)
    requires t.Struct? && Inner(t) && i <= |t.members|
    ensures MemberStart(t, i) <= t.size && Chain(Members(t, off, i), off + MemberStart(t, i), off + t.size)
    decreases t, 1, |t.members| - i
  {
    if i < |t.members| {
      var m := t.members[i];
      assert Inner(m.ty) && InOrder(t.members, t.size, i);
      LeavesOrdered(m.ty, off + m.off);
      MembersOrdered(t, off, i + 1);
      ChainJoin(Leaves(m.ty, off + m.off), Members(t, off, i + 1), off + m.off, off + m.off + Size(m.ty),
                off + MemberStart(t, i + 1), off + t.size);
    }
  }

  /** So inforce is never asked to go back. */
  lemma WalkOrdered(ty: Ty, d: nat)
    requires WellFormed(ty)
    ensures Chain(Leaves(Widened(ty, d), 0), 0, Size(Widened(ty, d)))
  {
    if ty.Arr? {
      ElementsOrdered(Widened(ty, d), 0, 0);
    } else {
      LeavesOrdered(ty, 0);
    }
  }
}
