/**
 A static initializer from its list of constants to the words emitted: beginit,
 doinit for every constant, and endinit.
 */
module Initializer {
  import opened Arithmetic
  import opened BitPacker
  import opened InitWalk

  /** A field that fits behind the bits of its word, or an aligned long. */
  predicate Placeable(l: Leaf) {
    if l.size < SZINT then l.off % 16 + l.size <= SZINT else l.size == SZINT && l.off % 16 == 0
  }

  // ---- The bits an initializer stands for --------------------------------

  /** The first n constants at their scalars' offsets, zeros between. */
  function Image(ls: seq<Leaf>, vs: seq<int>, n: nat): (b: seq<bool>)
    requires n <= |ls| && n <= |vs|
  {
    if n == 0 then []
    else
      var prev, l := Image(ls, vs, n - 1), ls[n - 1];
      prev + ZeroBits(if l.off >= |prev| then l.off - |prev| else 0) + Bits(vs[n - 1], l.size)
  }

  lemma {:induction false} ImageEnd(ls: seq<Leaf>, vs: seq<int>, n: nat, hi: nat)
    requires n <= |ls| && n <= |vs| && Chain(ls, 0, hi)
    ensures |Image(ls, vs, n)| == if n == 0 then 0 else ls[n - 1].off + ls[n - 1].size
    ensures n < |ls| ==> |Image(ls, vs, n)| <= ls[n].off
    ensures |Image(ls, vs, n)| <= hi
  {
    if n > 0 {
      ImageEnd(ls, vs, n - 1, hi);
      assert Within(ls, n - 1, 0, hi);
      if n < |ls| {
        assert Before(ls, n - 1, n);
      }
    }
  }

  /** Every constant sits, cut to its scalar's size, at its scalar's offset. */
  lemma {:induction false} ImageAt(ls: seq<Leaf>, vs: seq<int>, n: nat, hi: nat, i: nat)
    requires i < n <= |ls| && n <= |vs| && Chain(ls, 0, hi)
    ensures ls[i].off + ls[i].size <= |Image(ls, vs, n)|
    ensures Image(ls, vs, n)[ls[i].off..ls[i].off + ls[i].size] == Bits(vs[i], ls[i].size)
  {
    ImageEnd(ls, vs, n - 1, hi);
    ImageEnd(ls, vs, n, hi);
    var prev, b := Image(ls, vs, n - 1), Image(ls, vs, n);
    if i < n - 1 {
      ImageAt(ls, vs, n - 1, hi, i);
      assert b[..|prev|] == prev;
      SamePart(b, prev, ls[i].off, ls[i].off + ls[i].size);
    }
  }

  lemma SamePart(b: seq<bool>, prev: seq<bool>, lo: nat, hi: nat)
    requires prev <= b && lo <= hi <= |prev|
    ensures b[lo..hi] == prev[lo..hi]
  {
  }

  /** Bits outside every initialized scalar are zero. */
  lemma {:induction false} ImageGaps(ls: seq<Leaf>, vs: seq<int>, n: nat, hi: nat, j: nat)
    requires n <= |ls| && n <= |vs| && Chain(ls, 0, hi) && j < |Image(ls, vs, n)|
    requires forall i :: 0 <= i < n ==> !(ls[i].off <= j < ls[i].off + ls[i].size)
    ensures !Image(ls, vs, n)[j]
  {
    if n > 0 {
      ImageEnd(ls, vs, n - 1, hi);
      ImageEnd(ls, vs, n, hi);
      var prev := Image(ls, vs, n - 1);
      if j < |prev| {
        ImageGaps(ls, vs, n - 1, hi, j);
      } else {
        var l := ls[n - 1];
        assert !(l.off <= j < l.off + l.size);
        assert |prev| <= l.off && |Image(ls, vs, n)| == l.off + l.size;
        assert j < l.off;
      }
    }
  }

  // ---- doinit ------------------------------------------------------------

  /** One constant for the scalar on top of the stack. */
  method Doinit(p: Packer, l: Leaf, v: int) returns (ok: bool)
    requires p.Valid() && Placeable(l) && l.size > 0
    modifies p
    ensures p.Valid() && ok == (old(p.inoff) <= l.off)
    ensures ok ==> p.Contents() == old(p.Contents()) + ZeroBits(l.off - old(p.inoff)) + Bits(v, l.size)
  {
    ok := p.Inforce(l.off);
    if ok {
      Place(p, l, v);
    }
  }

  /** incode for a field, cinit for a long. */
  method Place(p: Packer, l: Leaf, v: int)
    requires p.Valid() && Placeable(l) && p.inoff == l.off
    modifies p
    ensures p.Valid() && p.Contents() == old(p.Contents()) + Bits(v, l.size)
  {
    Behind(p.inoff, |p.out|, p.inwd);
    if l.size < SZINT {
      var ok := p.Incode(v, l.size);
    } else {
      p.Cinit(v);
    }
  }

  lemma Behind(inoff: nat, n: nat, inwd: nat)
    requires inoff == 16 * n + inwd && inwd < 16
    ensures inoff % 16 == inwd
  {
  }

  /** beginit, then doinit and gotscal for every constant. */
  method Constants(ty: Ty, vs: seq<int>, ghost d: nat) returns (p: Packer)
    requires WellFormed(ty) && Depth(ty) <= DEPTH && d > 0 && |vs| <= |Leaves(Widened(ty, d), 0)|
    requires forall i :: 0 <= i < |vs| ==> Placeable(Leaves(Widened(ty, d), 0)[i])
    ensures fresh(p) && p.Valid() && p.Contents() == Image(Leaves(Widened(ty, d), 0), vs, |vs|)
  {
    WalkOrdered(ty, d);
    var st := new InitStack(ty, d);
    p := new Packer();
    ghost var all := Leaves(Widened(ty, d), 0);
    assert all[0..] == all;
    InTurn(st, p, vs, all, Size(Widened(ty, d)), d);
  }

  method InTurn(st: InitStack, p: Packer, vs: seq<int>, ghost all: seq<Leaf>, ghost hi: nat, ghost d: nat)
    requires |vs| <= |all| && d > 0 && Chain(all, 0, hi) && forall i :: 0 <= i < |vs| ==> Placeable(all[i])
    requires st.Valid() && AtScalar(st.stk) && Rest(st.stk, d) == all[0..]
    requires p.Valid() && p.Contents() == []
    modifies st, p
    ensures p.Valid() && p.Contents() == Image(all, vs, |vs|)
  {
    var k := 0;
    while k < |vs|
      invariant 0 <= k <= |vs| && p.Valid() && p.Contents() == Image(all, vs, k)
      invariant k < |all| ==> st.Valid() && AtScalar(st.stk) && Rest(st.stk, d) == all[k..]
    {
      OneConstant(st, p, vs[k], all, vs, k, hi, d);
      k := k + 1;
    }
  }

  /** doinit and gotscal for constant k. */
  method OneConstant(st: InitStack, p: Packer, v: int, ghost all: seq<Leaf>, ghost vs: seq<int>, ghost k: nat,
      ghost hi: nat, ghost d: nat)
    requires k < |all| && k < |vs| && v == vs[k] && d > 0 && Chain(all, 0, hi) && Placeable(all[k])
    requires st.Valid() && AtScalar(st.stk) && Rest(st.stk, d) == all[k..]
    requires p.Valid() && p.Contents() == Image(all, vs, k)
    modifies st, p
    ensures p.Valid() && p.Contents() == Image(all, vs, k + 1)
    ensures k + 1 < |all| ==> st.Valid() && AtScalar(st.stk) && Rest(st.stk, d) == all[k + 1..]
  {
    var top := st.stk[|st.stk| - 1];
    var l := Leaf(top.off, top.ty.size);
    assert l == all[k..][0] == all[k];
    assert Within(all, k, 0, hi);
    ImageEnd(all, vs, k, hi);
    var ok := Doinit(p, l, v);
    assert all[k..][1..] == all[k + 1..];
    var more := st.Gotscal(d);
  }

  // ---- endinit -----------------------------------------------------------

  /** Elements of a given size needed to hold x bits. */
  function Ceiling(x: nat, size: nat): nat
    requires size > 0
    decreases x
  {
    if x == 0 then 0 else 1 + Ceiling(if x > size then x - size else 0, size)
  }

  lemma {:induction false} CeilingFits(x: nat, size: nat)
    requires size > 0
    ensures SetOff(x, size) == Ceiling(x, size) * size
    decreases x
  {
    if x > 0 {
      CeilingFits(if x > size then x - size else 0, size);
    }
  }

  lemma CeilingIs(x: nat, size: nat)
    requires size > 0
    ensures SetOff(x, size) / size == Ceiling(x, size)
  {
    CeilingFits(x, size);
    DivisionIsUnique(SetOff(x, size), size, Ceiling(x, size), 0);
  }

  /** Elements begun, the last one filled out. */
  method Elements(total: nat, size: nat, ghost x: nat) returns (n: nat)
    requires size > 0 && total == SetOff(x, size)
    ensures n == Ceiling(x, size) && n * size == total
  {
    CeilingFits(x, size);
    CeilingIs(x, size);
    n := total / size;
  }

  function Larger(a: nat, b: nat): nat {
    if a >= b then a else b
  }

  lemma NoLess(n: nat, m: nat, size: nat)
    requires n <= m
    ensures n * size <= m * size
  {
    Mono(size, n, m);
  }

  /** Fills out part of the last element; counts the elements begun. */
  method AlignElement(p: Packer, size: nat) returns (n: nat)
    requires p.Valid() && size > 0
    modifies p
    ensures p.Valid() && n == Ceiling(old(p.inoff), size) && p.inoff == n * size >= old(p.inoff)
    ensures p.Contents() == old(p.Contents()) + ZeroBits(p.inoff - old(p.inoff))
  {
    ghost var x := p.inoff;
    p.Vfdalign(size);
    n := Elements(p.inoff, size, x);
  }

  /** Fills out the last element, then the elements not given; counts the elements. */
  method FillArray(p: Packer, dim: nat, size: nat) returns (n: nat, tooMany: bool)
    requires p.Valid() && size > 0
    modifies p
    ensures p.Valid() && n == Larger(dim, Ceiling(old(p.inoff), size)) && p.inoff == n * size >= old(p.inoff)
    ensures tooMany == (0 < dim < Ceiling(old(p.inoff), size))
    ensures p.Contents() == old(p.Contents()) + ZeroBits(p.inoff - old(p.inoff))
  {
    ghost var start, base := p.inoff, p.Contents();
    n := AlignElement(p, size);
    if dim >= n {
      NoLess(n, dim, size);
      ghost var at, aligned := p.inoff, p.Contents();
      var ok := p.Inforce(dim * size);
      PaddedTrans(base, aligned, p.Contents(), at - start, p.inoff - at, p.inoff - start);
      n := dim;
    }
    tooMany := dim != 0 && dim != n;
  }

  /** Bits of a variable, padding of the last word aside. */
  function Total(ty: Ty, dim: nat): nat {
    if ty.Arr? then dim * Size(ty.elem) else Size(ty)
  }

  /** Aligned to whole words, the packer has nothing waiting. */
  method PadOut(p: Packer, al: nat)
    requires p.Valid() && al > 0 && al % 16 == 0
    modifies p
    ensures p.Valid() && p.inwd == 0 && p.inoff == SetOff(old(p.inoff), al) >= old(p.inoff)
    ensures p.Contents() == old(p.Contents()) + ZeroBits(p.inoff - old(p.inoff))
  {
    SetOffWhole(p.inoff, al);
    p.Vfdalign(al);
    Behind(p.inoff, |p.out|, p.inwd);
  }

  /** Fills the variable up, and gives an array without a dimension as many elements as it needed. */
  method FillVariable(p: Packer, ty: Ty) returns (dim: nat, tooMany: bool)
    requires p.Valid() && if ty.Arr? then Size(ty.elem) > 0 else p.inoff <= Size(ty)
    modifies p
    ensures p.Valid() && p.inoff == Total(ty, dim) >= old(p.inoff)
    ensures ty.Arr? ==> dim == Larger(ty.dim, Ceiling(old(p.inoff), Size(ty.elem)))
    ensures tooMany == (ty.Arr? && 0 < ty.dim < Ceiling(old(p.inoff), Size(ty.elem)))
    ensures p.Contents() == old(p.Contents()) + ZeroBits(p.inoff - old(p.inoff))
  {
    dim, tooMany := 0, false;
    if ty.Arr? {
      dim, tooMany := FillArray(p, ty.dim, Size(ty.elem));
    } else {
      var ok := p.Inforce(Size(ty));
    }
  }

  /** The variable filled up, and the last word with it. */
  method Endinit(p: Packer, ty: Ty, al: nat) returns (dim: nat, tooMany: bool)
    requires p.Valid() && al > 0 && al % 16 == 0
    requires if ty.Arr? then Size(ty.elem) > 0 else p.inoff <= Size(ty)
    modifies p
    ensures p.Valid() && p.inwd == 0 && p.inoff == SetOff(Total(ty, dim), al) && old(p.inoff) <= Total(ty, dim)
    ensures ty.Arr? ==> dim == Larger(ty.dim, Ceiling(old(p.inoff), Size(ty.elem)))
    ensures tooMany == (ty.Arr? && 0 < ty.dim < Ceiling(old(p.inoff), Size(ty.elem)))
    ensures p.Contents() == old(p.Contents()) + ZeroBits(p.inoff - old(p.inoff))
  {
    ghost var start, base := p.inoff, p.Contents();
    dim, tooMany := FillVariable(p, ty);
    ghost var total, filled := p.inoff, p.Contents();
    PadOut(p, al);
    PaddedTrans(base, filled, p.Contents(), total - start, p.inoff - total, p.inoff - start);
  }

  lemma {:induction false} SetOffWhole(x: nat, al: nat)
    requires al > 0 && al % 16 == 0
    ensures SetOff(x, al) % 16 == 0
    decreases x
  {
    if x > 0 {
      SetOffWhole(if x > al then x - al else 0, al);
    }
  }

  /**
   The words hold the image and zeros behind it, up to the alignment; an array gets
   as many elements as the image needs, too many if it was declared with fewer.
   */
  ghost predicate Emitted(ty: Ty, image: seq<bool>, al: nat, words: seq<nat>, dim: nat, tooMany: bool)
    requires al > 0
  {
    && |image| <= Total(ty, dim) <= SetOff(Total(ty, dim), al)
    && WordBits(words) == image + ZeroBits(SetOff(Total(ty, dim), al) - |image|)
    && (ty.Arr? ==> Size(ty.elem) > 0 && dim == Larger(ty.dim, Ceiling(|image|, Size(ty.elem))))
    && tooMany == (ty.Arr? && 0 < ty.dim < dim)
  }

  /**
   The words emitted for a variable: every constant, cut to its scalar's size, at
   its scalar's offset, and zeros everywhere else, up to the alignment.
   */
  method Initialize(ty: Ty, vs: seq<int>, al: nat, ghost d: nat) returns (words: seq<nat>, dim: nat, tooMany: bool)
    requires WellFormed(ty) && Depth(ty) <= DEPTH && al > 0 && al % 16 == 0
    requires d > 0 && |vs| <= |Leaves(Widened(ty, d), 0)|
    requires forall i :: 0 <= i < |vs| ==> Placeable(Leaves(Widened(ty, d), 0)[i])
    ensures Emitted(ty, Image(Leaves(Widened(ty, d), 0), vs, |vs|), al, words, dim, tooMany)
  {
    var p := Constants(ty, vs, d);
    ConstantsFit(ty, vs, d);
    dim, tooMany := PutOut(p, ty, al, p.Contents());
    words := p.out;
  }

  /** endinit behind the image of the constants. */
  method PutOut(p: Packer, ty: Ty, al: nat, ghost image: seq<bool>) returns (dim: nat, tooMany: bool)
    requires p.Valid() && p.Contents() == image && al > 0 && al % 16 == 0
    requires if ty.Arr? then Size(ty.elem) > 0 else |image| <= Size(ty)
    modifies p
    ensures Emitted(ty, image, al, p.out, dim, tooMany)
  {
    assert |image| == p.inoff;
    dim, tooMany := Endinit(p, ty, al);
    p.AllOut();
  }

  lemma ConstantsFit(ty: Ty, vs: seq<int>, d: nat)
    requires WellFormed(ty) && |vs| <= |Leaves(Widened(ty, d), 0)|
    ensures if ty.Arr? then Size(ty.elem) > 0 else |Image(Leaves(Widened(ty, d), 0), vs, |vs|)| <= Size(ty)
  {
    SizePositive(if ty.Arr? then ty.elem else ty);
    WalkOrdered(ty, d);
    ImageEnd(Leaves(Widened(ty, d), 0), vs, |vs|, Size(Widened(ty, d)));
  }

  lemma {:induction false} SizePositive(t: Ty)
    requires Inner(t)
    ensures Size(t) > 0
  {
    match t
    case Scalar(_) =>
    case Arr(dim, e) =>
      SizePositive(e);
      AtLeastOnce(dim, Size(e));
    case Struct(ms, size) =>
      var n := |ms| - 1;
      assert Inner(ms[n].ty) && InOrder(ms, size, n);
      SizePositive(ms[n].ty);
  }
}
