/**
 optim on the nodes of the compiler: operators, pointers and constants are overwritten
 in place, and a node that drops out of the tree is marked free.
 */
module OptimNodes {
  import opened Arithmetic
  import opened Word
  import opened T = TreeOptimizer

  datatype Kind = KIcon | KName | KLeaf(k: nat) | KUnary(k: nat) | KDeref | KAddrOf | KBin(op: Op) | Free

  class Node {
    var op: Kind
    var left: Node?
    var right: Node?
    var lval: Int32
    var name: string
  }

  // ---- Trees in the heap -------------------------------------------------

  /** Which nodes a tree is made of. */
  datatype Shape = Tip(n: Node) | Single(n: Node, l: Shape) | Double(n: Node, l: Shape, r: Shape)

  ghost function Nodes(t: Shape): set<Node> {
    match t
    case Tip(n) => {n}
    case Single(n, l) => {n} + Nodes(l)
    case Double(n, l, r) => {n} + Nodes(l) + Nodes(r)
  }

  /** They exist, so that a call that touches none of them leaves them alone. */
  lemma {:induction false} Known(t: Shape)
    ensures forall n <- Nodes(t) :: allocated(n)
  {
    match t
    case Tip(_) =>
    case Single(_, l) => Known(l);
    case Double(_, l, r) => Known(l); Known(r);
  }

  /** No node is used twice. */
  ghost predicate Apart(t: Shape) {
    match t
    case Tip(_) => true
    case Single(n, l) => n !in Nodes(l) && Apart(l)
    case Double(n, l, r) => n !in Nodes(l) && n !in Nodes(r) && Nodes(l) !! Nodes(r) && Apart(l) && Apart(r)
  }

  /** The nodes hold the expression. */
  ghost predicate Stores(t: Shape, e: Expr)
    reads Nodes(t)
    decreases t
  {
    match t
    case Tip(n) =>
      (match e
       case Icon(c, name) => n.op == KIcon && n.lval == c && n.name == name
       case Name(c, name) => n.op == KName && n.lval == c && n.name == name
       case Leaf(k) => n.op == KLeaf(k)
       case _ => false)
    case Single(n, l) =>
      && n.left == l.n
      && (match e
          case Unary(k, x) => n.op == KUnary(k) && Stores(l, x)
          case Deref(x) => n.op == KDeref && Stores(l, x)
          case AddrOf(x) => n.op == KAddrOf && Stores(l, x)
          case _ => false)
    case Double(n, l, r) =>
      n.left == l.n && n.right == r.n && e.Bin? && n.op == KBin(e.op) && Stores(l, e.l) && Stores(r, e.r)
  }

  /** What is left of t is u; every node that dropped out is free. */
  ghost predicate Freed(t: Shape, u: Shape)
    reads Nodes(t)
  {
    Nodes(u) <= Nodes(t) && forall n <- Nodes(t) - Nodes(u) :: n.op == Free
  }

  /** The nodes of t now hold e under q. */
  ghost predicate Became(t: Shape, q: Node, u: Shape, e: Expr)
    reads Nodes(t), Nodes(u)
  {
    q == u.n && Apart(u) && Stores(u, e) && Freed(t, u)
  }

  /** A tree of two operands under p. */
  ghost predicate Joined(t: Shape, p: Node, o: Op, l: Expr, r: Expr)
    reads Nodes(t)
  {
    t.Double? && t.n == p && Apart(t) && Stores(t, Bin(o, l, r))
  }

  function KindOf(e: Expr): Kind {
    match e
    case Icon(_, _) => KIcon
    case Name(_, _) => KName
    case Leaf(k) => KLeaf(k)
    case Unary(k, _) => KUnary(k)
    case Deref(_) => KDeref
    case AddrOf(_) => KAddrOf
    case Bin(o, _, _) => KBin(o)
  }

  /** What the root node tells about the expression. */
  lemma RootOf(t: Shape, e: Expr)
    requires Stores(t, e)
    ensures t.n in Nodes(t) && t.n.op == KindOf(e)
    ensures t.Double? <==> e.Bin?
    ensures e.Icon? ==> t == Tip(t.n) && t.n.lval == e.lval && t.n.name == e.name
  {
  }

  /** Nodes hold one expression only. */
  lemma {:induction false} StoresOne(t: Shape, e: Expr, f: Expr)
    requires Stores(t, e) && Stores(t, f)
    ensures e == f
    decreases t
  {
    match t
    case Tip(_) =>
    case Single(_, l) => StoresOne(l, e.e, f.e);
    case Double(_, l, r) =>
      StoresOne(l, e.l, f.l);
      StoresOne(r, e.r, f.r);
  }

  /** A node in use is not free, so the free ones are exactly those that dropped out. */
  lemma {:induction false} FreeIffDropped(t: Shape, u: Shape, e: Expr, n: Node)
    requires Freed(t, u) && Stores(u, e) && n in Nodes(t)
    ensures n.op == Free <==> n !in Nodes(u)
  {
    InUse(u, e);
  }

  lemma {:induction false} InUse(t: Shape, e: Expr)
    requires Stores(t, e)
    ensures forall n <- Nodes(t) :: n.op != Free
    decreases t
  {
    match t
    case Tip(_) =>
    case Single(_, l) => InUse(l, e.e);
    case Double(_, l, r) =>
      InUse(l, e.l);
      InUse(r, e.r);
  }

  /** Two trees under a new root. */
  lemma Join(p: Node, o: Op, a: Shape, b: Shape, l: Expr, r: Expr)
    requires Apart(a) && Apart(b) && Nodes(a) !! Nodes(b) && p !in Nodes(a) + Nodes(b)
    requires Stores(a, l) && Stores(b, r)
    requires p.op == KBin(o) && p.left == a.n && p.right == b.n
    ensures Joined(Double(p, a, b), p, o, l, r)
  {
  }

  // ---- conval and nncon --------------------------------------------------

  /** Adds one constant to another in place, unless a name stands in the way. */
  method Conval(p: Node, o: Op, q: Node) returns (done: bool)
    requires p != q && p.op == KIcon && q.op == KIcon && Folds(o)
    modifies p
    ensures p.op == KIcon && p.left == old(p.left) && p.right == old(p.right)
    ensures var a, b := Icon(old(p.lval), old(p.name)), Icon(q.lval, q.name);
            && done == CanFold(a, o, b)
            && Icon(p.lval, p.name) == if done then T.Conval(a, o, b) else a
  {
    if p.name != "" && q.name != "" {
      return false;
    }
    if q.name != "" && !o.Plus? {
      return false;
    }
    if p.name != "" && !o.Plus? && !o.Minus? {
      return false;
    }
    match o {
      case Plus =>
        p.lval := Wrap32(p.lval + q.lval);
        if p.name == "" {
          p.name := q.name;
        }
      case Minus => p.lval := Wrap32(p.lval - q.lval);
      case Mul => p.lval := Wrap32(p.lval * q.lval);
      case Log(l) => p.lval := Wrap32(Bitwise(l, p.lval, q.lval, 32));
    }
    return true;
  }

  /** nncon on a node. */
  predicate Number(n: Node)
    reads n
  {
    n.op == KIcon && n.name == ""
  }

  // ---- The steps for commutative operators -------------------------------

  /** Constants go to the right. */
  method SwapSides(p: Node, ghost t: Shape, o: Op, ghost l: Expr, ghost r: Expr) returns (ghost u: Shape)
    requires Joined(t, p, o, l, r)
    modifies p
    ensures Nodes(u) == Nodes(t) && Joined(u, p, o, Swap(l, r).0, Swap(l, r).1)
  {
    u := t;
    RootOf(t.l, l);
    RootOf(t.r, r);
    var a, b := p.left, p.right;
    if Number(a) || (a.op == KIcon && b.op != KIcon) {
      p.left, p.right := b, a;
      u := Double(p, t.r, t.l);
    }
  }

  /** The three trees under two nodes. */
  lemma Hanging(p: Node, t: Shape, o: Op, l: Expr, r: Expr)
    requires Joined(t, p, o, l, r) && r.Bin?
    ensures t.r.Double?
    ensures var x, sp, y, z := t.l, t.r.n, t.r.l, t.r.r;
            && Nodes(t) == {p, sp} + Nodes(x) + Nodes(y) + Nodes(z)
            && Stores(x, l) && Stores(y, r.l) && Stores(z, r.r)
            && Apart(x) && Apart(y) && Apart(z)
            && Nodes(x) !! Nodes(y) && Nodes(x) !! Nodes(z) && Nodes(y) !! Nodes(z)
            && {p, sp} !! Nodes(x) + Nodes(y) + Nodes(z)
  {
    RootOf(t.r, r);
    var s := t.r;
    assert Stores(s, r) && Apart(s) && Nodes(s) == {s.n} + Nodes(s.l) + Nodes(s.r);
  }

  /** Operators tower to the left: three pointers turn round. */
  method TowerLeft(p: Node, ghost t: Shape, o: Op, ghost l: Expr, ghost r: Expr) returns (ghost u: Shape)
    requires Joined(t, p, o, l, r)
    modifies Nodes(t)
    ensures Nodes(u) == Nodes(t) && Joined(u, p, o, Tower(o, l, r).0, Tower(o, l, r).1)
  {
    u := t;
    RootOf(t.r, r);
    var t1, sp := p.left, p.right;
    if sp.op == KBin(o) {
      ghost var x, y, z := t.l, t.r.l, t.r.r;
      Hanging(p, t, o, l, r);
      var t2, t3 := sp.left, sp.right;
      p.left := sp;
      sp.left := t1;
      sp.right := t2;
      p.right := t3;
      ghost var s := Double(sp, x, y);
      u := Double(p, s, z);
      Join(sp, o, x, y, l, r.l);
      Join(p, o, s, z, Bin(o, l, r.l), r.r);
    }
  }

  /** A constant at the right of the left operand joins the right one, and its two nodes go. */
  method Merge(p: Node, ghost t: Shape, o: Op, k: Op, ghost l: Expr, ghost r: Expr) returns (done: bool, ghost u: Shape)
    requires Joined(t, p, o, l, r) && Folds(k)
    modifies Nodes(t)
    ensures done == (l.Bin? && l.op == k && r.Icon? && l.r.Icon? && CanFold(r, k, l.r))
    ensures done ==> Joined(u, p, o, l.l, T.Conval(r, k, l.r)) && Nodes(u) < Nodes(t)
    ensures !done ==> u == t && Joined(t, p, o, l, r)
    ensures Freed(t, u)
  {
    u, done := t, false;
    RootOf(t.l, l);
    RootOf(t.r, r);
    var left, right := p.left, p.right;
    if left.op == KBin(k) && right.op == KIcon {
      ghost var x, y := t.l.l, t.l.r;
      assert Nodes(t.l) == {left} + Nodes(x) + Nodes(y) && Apart(t.l) && Apart(x);
      assert Stores(x, l.l) && Stores(y, l.r);
      RootOf(y, l.r);
      var c := left.right;
      if c.op == KIcon {
        assert right in Nodes(t.r) && right !in Nodes(t.l) && right !in Nodes(x);
        Known(t);
        done := Conval(right, k, c);
        assert Stores(x, l.l) && Stores(t.l, l);
        if done {
          c.op := Free;
          left.op := Free;
          p.left := left.left;
          u := Double(p, x, t.r);
          assert Nodes(t) - Nodes(u) == {left, c};
          assert Stores(x, l.l) && Stores(t.r, T.Conval(r, k, l.r));
        }
      }
    }
  }

  /** The loop at zapleft. */
  method Collapse(p: Node, ghost t: Shape, o: Op, ghost l: Expr, ghost r: Expr) returns (ghost u: Shape)
    requires Joined(t, p, o, l, r) && Folds(o)
    modifies Nodes(t)
    ensures Joined(u, p, o, Zapleft(o, l, r).0, Zapleft(o, l, r).1) && Freed(t, u)
  {
    u := t;
    ghost var a, b := l, r;
    var more := true;
    while more
      invariant Joined(u, p, o, a, b) && Freed(t, u)
      invariant Zapleft(o, a, b) == Zapleft(o, l, r)
      invariant !more ==> !Joins(o, a, b)
      decreases Nodes(u), more
    {
      ghost var v;
      Known(t);
      more, v := Merge(p, u, o, o, a, b);
      if more {
        a, b := a.l, T.Conval(b, o, a.r);
      }
      u := v;
    }
  }

  /** The last steps for a commutative operator: folding, shifting, subtracting. */
  method Reshape(p: Node, ghost t: Shape, o: Op, ghost l: Expr, ghost r: Expr) returns (q: Node, ghost u: Shape)
    requires Joined(t, p, o, l, r) && Folds(o) && !o.Minus?
    modifies Nodes(t)
    ensures Became(t, q, u, T.Shape(o, l, r))
  {
    RootOf(t.l, l);
    RootOf(t.r, r);
    Known(t);
    var left, right := p.left, p.right;
    if left.op == KIcon && right.op == KIcon {
      var done := Conval(left, o, right);
      if done {
        right.op := Free;
        p.op := Free;
        return left, t.l;
      }
    }
    if o.Mul? && Number(right) {
      var i := Ispow2(right.lval);
      Log2Small(right.lval);
      if i == 0 {
        right.op := Free;
        p.op := Free;
        return left, t.l;
      }
      if i > 0 {
        p.op := KBin(Ls);
        right.lval := i;
      }
    }
    if o.Plus? && Number(right) && right.lval < 0 {
      right.lval := Wrap32(0 - right.lval);
      p.op := KBin(Minus);
    }
    return p, t;
  }

  /** The case of the commutative operators. */
  method Gather(p: Node, ghost t: Shape, o: Op, ghost l: Expr, ghost r: Expr) returns (q: Node, ghost u: Shape)
    requires Joined(t, p, o, l, r) && Folds(o) && !o.Minus?
    modifies Nodes(t)
    ensures Became(t, q, u, Commute(o, l, r))
  {
    Known(t);
    ghost var t1 := SwapSides(p, t, o, l, r);
    ghost var (l1, r1) := Swap(l, r);
    ghost var t2 := TowerLeft(p, t1, o, l1, r1);
    ghost var (l2, r2) := Tower(o, l1, r1);
    ghost var t3 := t2;
    ghost var (l3, r3) := Unsubtract(o, l2, r2);
    if o.Plus? {
      var done;
      done, t3 := Merge(p, t2, o, Minus, l2, r2);
    }
    ghost var t4 := Collapse(p, t3, o, l3, r3);
    ghost var (l4, r4) := Zapleft(o, l3, r3);
    q, u := Reshape(p, t4, o, l4, r4);
  }

  // ---- optim -------------------------------------------------------------

  /** Every & is over something that has become a name; anything else is an error. */
  ghost predicate Addressable(e: Expr) {
    match e
    case Bin(_, l, r) => Addressable(l) && Addressable(r)
    case Unary(_, x) => Addressable(x)
    case Deref(x) => Addressable(x)
    case AddrOf(x) => Addressable(x) && T.Optim(x).Name?
    case _ => true
  }

  /** optim: rewrites the tree under p in place and returns its new root, or stops at a bad &. */
  method Optim(p: Node, ghost t: Shape, ghost e: Expr) returns (q: Node, ok: bool, ghost u: Shape)
    requires p == t.n && Apart(t) && Stores(t, e)
    modifies Nodes(t)
    ensures ok == Addressable(e)
    ensures ok ==> Became(t, q, u, T.Optim(e))
    decreases e, 2
  {
    RootOf(t, e);
    match p.op {
      case KBin(o) => q, ok, u := OptimBinary(p, t, e);
      case KUnary(_) => q, ok, u := OptimUnary(p, t, e);
      case KDeref => q, ok, u := OptimUnary(p, t, e);
      case KAddrOf => q, ok, u := OptimUnary(p, t, e);
      case _ => q, ok, u := p, true, t;
    }
  }

  /** Operators of one operand: & of a name and * of a constant paint over their operand. */
  method OptimUnary(p: Node, ghost t: Shape, ghost e: Expr) returns (q: Node, ok: bool, ghost u: Shape)
    requires p == t.n && t.Single? && Apart(t) && Stores(t, e)
    modifies Nodes(t)
    ensures ok == Addressable(e)
    ensures ok ==> Became(t, q, u, T.Optim(e))
    decreases e, 0
  {
    Known(t);
    var left;
    ghost var s;
    left, ok, s := Optim(p.left, t.l, e.e);
    q, u := p, Single(p, s);
    if !ok {
      return;
    }
    RootOf(s, T.Optim(e.e));
    p.left := left;
    if p.op == KAddrOf {
      if left.op != KName {
        return q, false, u;
      }
      left.op := KIcon;
      p.op := Free;
      return left, true, s;
    }
    if p.op == KDeref && left.op == KIcon {
      left.op := KName;
      p.op := Free;
      return left, true, s;
    }
  }

  /** The right operand first, then the left one, then the node itself. */
  method OptimBinary(p: Node, ghost t: Shape, ghost e: Expr) returns (q: Node, ok: bool, ghost u: Shape)
    requires p == t.n && t.Double? && Apart(t) && Stores(t, e)
    modifies Nodes(t)
    ensures ok == Addressable(e)
    ensures ok ==> Became(t, q, u, T.Optim(e))
    decreases e, 0
  {
    Known(t);
    q := p;
    ok, u := OptimRight(p, t, e.op, e.l, e.r);
    if ok {
      ok, u := OptimLeft(p, u, e.op, e.l, T.Optim(e.r));
      if ok {
        q, u := OptimTop(p, u, e.op, T.Optim(e.l), T.Optim(e.r));
      }
    }
  }

  method OptimRight(p: Node, ghost t: Shape, ghost o: Op, ghost l: Expr, ghost r: Expr)
    returns (ok: bool, ghost u: Shape)
    requires Joined(t, p, o, l, r)
    modifies Nodes(t)
    ensures ok == Addressable(r)
    ensures ok ==> Joined(u, p, o, l, T.Optim(r)) && Freed(t, u)
    decreases r, 3
  {
    Known(t);
    ghost var s;
    p.right, ok, s := Optim(p.right, t.r, r);
    u := Double(p, t.l, s);
  }

  method OptimLeft(p: Node, ghost t: Shape, ghost o: Op, ghost l: Expr, ghost r: Expr)
    returns (ok: bool, ghost u: Shape)
    requires Joined(t, p, o, l, r)
    modifies Nodes(t)
    ensures ok == Addressable(l)
    ensures ok ==> Joined(u, p, o, T.Optim(l), r) && Freed(t, u)
    decreases l, 3
  {
    Known(t);
    ghost var s;
    p.left, ok, s := Optim(p.left, t.l, l);
    u := Double(p, s, t.r);
  }

  /** The switch over operators, once the operands are done. */
  method OptimTop(p: Node, ghost t: Shape, ghost o: Op, ghost l: Expr, ghost r: Expr) returns (q: Node, ghost u: Shape)
    requires Joined(t, p, o, l, r)
    modifies Nodes(t)
    ensures Became(t, q, u, Rewrite(o, l, r))
  {
    q, u := p, t;
    RootOf(t.l, l);
    RootOf(t.r, r);
    Known(t);
    var left, right := p.left, p.right;
    match p.op {
      case KBin(op) =>
        if op.Minus? && Number(right) {
          right.lval := Wrap32(0 - right.lval);
          p.op := KBin(Plus);
          q, u := Gather(p, t, Plus, l, Icon(right.lval, ""));
        } else if op.Plus? || op.Mul? || op.Log? {
          q, u := Gather(p, t, op, l, r);
        } else if op.Div? && Number(right) && right.lval == 1 {
          right.op := Free;
          p.op := Free;
          q, u := left, t.l;
        } else if op.Rel? && left.op == KIcon {
          p.left, p.right := right, left;
          p.op := KBin(Rel(RevRel(op.r)));
          u := Double(p, t.r, t.l);
        }
    }
  }
}
