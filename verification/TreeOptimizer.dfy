/**
 The tree rewriting of pcc's optim: constants gathered to the right of towers of
 commutative operators, multiplications turned into shifts, comparisons reversed.
 */
module TreeOptimizer {
  import opened Arithmetic
  import opened Word

  // ---- Trees -------------------------------------------------------------

  datatype Relation = EQ | NE | LE | LT | GE | GT | ULE | ULT | UGE | UGT

  /** Binary covers the operators that optim leaves alone. */
  datatype Op = Plus | Minus | Mul | Log(l: Logic) | Ls | Div | Rel(r: Relation) | Binary(k: nat)

  /** A constant or a memory cell may carry one symbolic name; "" is no name. */
  datatype Expr =
    | Icon(lval: Int32, name: string)
    | Name(lval: Int32, name: string)
    | Leaf(k: nat)
    | Unary(k: nat, e: Expr)
    | Deref(e: Expr)
    | AddrOf(e: Expr)
    | Bin(op: Op, l: Expr, r: Expr)

  // ---- Meaning -----------------------------------------------------------

  /** Addresses of names, contents of memory, other leaves, and the other operators. */
  datatype Env = Env(addr: string -> int, mem: int -> int, leaf: nat -> int, un: (nat, int) -> int,
    bin: (nat, int, int) -> int)

  predicate Holds(r: Relation, a: int, b: int) {
    match r
    case EQ => a == b
    case NE => a != b
    case LE => a <= b
    case LT => a < b
    case GE => a >= b
    case GT => a > b
    case ULE => Unsigned32(a) <= Unsigned32(b)
    case ULT => Unsigned32(a) < Unsigned32(b)
    case UGE => Unsigned32(a) >= Unsigned32(b)
    case UGT => Unsigned32(a) > Unsigned32(b)
  }

  /** Division truncates toward zero. */
  function Quotient(a: int, b: int): int
    requires b != 0
  {
    if (a >= 0) == (b > 0) then Abs(a) / Abs(b) else -(Abs(a) / Abs(b))
  }

  function Abs(a: int): nat {
    if a >= 0 then a else -a
  }

  function Apply(o: Op, a: int, b: int, env: Env): int {
    match o
    case Plus => Wrap32(a + b)
    case Minus => Wrap32(a - b)
    case Mul => Wrap32(a * b)
    case Log(l) => Wrap32(Bitwise(l, a, b, 32))
    case Ls => if 0 <= b < 32 then Wrap32(a * Pow2(b)) else 0
    case Div => if b == 0 then 0 else Wrap32(Quotient(a, b))
    case Rel(r) => if Holds(r, a, b) then 1 else 0
    case Binary(k) => Wrap32(env.bin(k, a, b))
  }

  function NamePart(name: string, env: Env): int {
    if name == "" then 0 else env.addr(name)
  }

  /** A name's address plus a displacement. */
  function Place(lval: int, name: string, env: Env): int {
    Wrap32(lval + NamePart(name, env))
  }

  /** The 32-bit value of a tree. */
  function Value(e: Expr, env: Env): (v: int)
    ensures Is32(v)
  {
    match e
    case Icon(c, name) => Place(c, name, env)
    case Name(c, name) => Wrap32(env.mem(Place(c, name, env)))
    case Leaf(k) => Wrap32(env.leaf(k))
    case Unary(k, x) => Wrap32(env.un(k, Value(x, env)))
    case Deref(x) => Wrap32(env.mem(Value(x, env)))
    case AddrOf(x) =>
      if x.Name? then Place(x.lval, x.name, env)
      else if x.Deref? then Value(x.e, env)
      else 0
    case Bin(o, l, r) => Apply(o, Value(l, env), Value(r, env), env)
  }

  // ---- conval ------------------------------------------------------------

  /** The operators optim folds. */
  predicate Folds(o: Op) {
    o.Plus? || o.Minus? || o.Mul? || o.Log?
  }

  /** Two names never fold, and a name only on the left of a difference or in a sum. */
  predicate CanFold(p: Expr, o: Op, q: Expr)
    requires p.Icon? && q.Icon? && Folds(o)
  {
    && (p.name == "" || q.name == "")
    && (q.name != "" ==> o.Plus?)
    && (p.name != "" ==> o.Plus? || o.Minus?)
  }

  function Conval(p: Expr, o: Op, q: Expr): Expr
    requires p.Icon? && q.Icon? && Folds(o) && CanFold(p, o, q)
  {
    match o
    case Plus => Icon(Wrap32(p.lval + q.lval), if p.name == "" then q.name else p.name)
    case Minus => Icon(Wrap32(p.lval - q.lval), p.name)
    case Mul => Icon(Wrap32(p.lval * q.lval), p.name)
    case Log(l) => Icon(Wrap32(Bitwise(l, p.lval, q.lval, 32)), p.name)
  }

  // ---- The rewriting -----------------------------------------------------

  /** nncon: a constant without a name. */
  predicate Nncon(e: Expr) {
    e.Icon? && e.name == ""
  }

  /** The exponent of a power of two, or -1. */
  function Log2(c: int): (i: int)
    ensures -1 <= i && (c > 0 ==> i < c) && (c <= 0 ==> i == -1)
  {
    if c <= 0 then -1
    else if c == 1 then 0
    else if c % 2 != 0 then -1
    else
      var i := Log2(c / 2);
      if i < 0 then -1 else i + 1
  }

  /** The left operand ends in a constant that folds with the right one. */
  predicate Joins(o: Op, l: Expr, r: Expr)
    requires Folds(o)
  {
    l.Bin? && l.op == o && l.r.Icon? && r.Icon? && CanFold(r, o, l.r)
  }

  /** The zapleft loop: x o c1 o c2 becomes x o c. */
  function Zapleft(o: Op, l: Expr, r: Expr): (Expr, Expr)
    requires Folds(o)
    decreases l
  {
    if Joins(o, l, r) then Zapleft(o, l.l, Conval(r, o, l.r)) else (l, r)
  }

  /** The last steps for a commutative operator. */
  function Shape(o: Op, l: Expr, r: Expr): Expr
    requires Folds(o)
  {
    if l.Icon? && r.Icon? && CanFold(l, o, r) then Conval(l, o, r)
    else if o.Mul? && Nncon(r) && Log2(r.lval) == 0 then l
    else if o.Mul? && Nncon(r) && Log2(r.lval) > 0 then Bin(Ls, l, Icon(Log2(r.lval), ""))
    else if o.Plus? && Nncon(r) && r.lval < 0 then Bin(Minus, l, Icon(Wrap32(0 - r.lval), ""))
    else Bin(o, l, r)
  }

  /** Constants to the right. */
  function Swap(l: Expr, r: Expr): (Expr, Expr) {
    if Nncon(l) || (l.Icon? && !r.Icon?) then (r, l) else (l, r)
  }

  /** Operators tower to the left. */
  function Tower(o: Op, l: Expr, r: Expr): (Expr, Expr) {
    if r.Bin? && r.op == o then (Bin(o, l, r.l), r.r) else (l, r)
  }

  predicate SubtractsFirst(o: Op, l: Expr, r: Expr) {
    o.Plus? && l.Bin? && l.op.Minus? && r.Icon? && l.r.Icon? && CanFold(r, Minus, l.r)
  }

  /** x - c1 + c2 becomes x + (c2 - c1). */
  function Unsubtract(o: Op, l: Expr, r: Expr): (Expr, Expr) {
    if SubtractsFirst(o, l, r) then (l.l, Conval(r, Minus, l.r)) else (l, r)
  }

  function Commute(o: Op, l: Expr, r: Expr): Expr
    requires Folds(o) && !o.Minus?
  {
    var (l1, r1) := Swap(l, r);
    var (l2, r2) := Tower(o, l1, r1);
    var (l3, r3) := Unsubtract(o, l2, r2);
    var (l4, r4) := Zapleft(o, l3, r3);
    Shape(o, l4, r4)
  }

  function RevRel(r: Relation): Relation {
    match r
    case EQ => EQ
    case NE => NE
    case LE => GE
    case LT => GT
    case GE => LE
    case GT => LT
    case ULE => UGE
    case ULT => UGT
    case UGE => ULE
    case UGT => ULT
  }

  function Rewrite(o: Op, l: Expr, r: Expr): Expr {
    match o
    case Minus => if Nncon(r) then Commute(Plus, l, Icon(Wrap32(0 - r.lval), "")) else Bin(o, l, r)
    case Plus => Commute(o, l, r)
    case Mul => Commute(o, l, r)
    case Log(_) => Commute(o, l, r)
    case Div => if Nncon(r) && r.lval == 1 then l else Bin(o, l, r)
    case Rel(rel) => if l.Icon? then Bin(Rel(RevRel(rel)), r, l) else Bin(o, l, r)
    case _ => Bin(o, l, r)
  }

  function Optim(e: Expr): Expr {
    match e
    case Bin(o, l, r) => Rewrite(o, Optim(l), Optim(r))
    case Unary(k, x) => Unary(k, Optim(x))
    case Deref(x) =>
      var y := Optim(x);
      if y.Icon? then Name(y.lval, y.name) else Deref(y)
    case AddrOf(x) =>
      var y := Optim(x);
      if y.Name? then Icon(y.lval, y.name) else AddrOf(y)
    case _ => e
  }

  // ---- Algebra of the operators ------------------------------------------

  lemma {:induction false} BitwiseComm(l: Logic, x: int, y: int, n: nat)
    ensures Bitwise(l, x, y, n) == Bitwise(l, y, x, n)
    decreases n
  {
    if n > 0 {
      BitwiseComm(l, x / 2, y / 2, n - 1);
    }
  }

  lemma {:induction false} BitwiseAssoc(l: Logic, x: int, y: int, z: int, n: nat)
    ensures Bitwise(l, Bitwise(l, x, y, n), z, n) == Bitwise(l, x, Bitwise(l, y, z, n), n)
    decreases n
  {
    if n > 0 {
      BitwiseAssoc(l, x / 2, y / 2, z / 2, n - 1);
    }
  }

  /** Only the low n bits matter. */
  lemma {:induction false} BitwiseLow(l: Logic, x: int, y: int, n: nat, k: int)
    ensures Bitwise(l, x + Pow2(n) * k, y, n) == Bitwise(l, x, y, n)
    decreases n
  {
    if n > 0 {
      assert Pow2(n) * k == 2 * (Pow2(n - 1) * k);
      BitwiseLow(l, x / 2, y / 2, n - 1, k);
    }
  }

  lemma BitwiseWrap(l: Logic, x: int, y: int)
    ensures Bitwise(l, Wrap32(x), y, 32) == Bitwise(l, x, y, 32)
  {
    WordPowers();
    var k := WordOf(x);
    BitwiseLow(l, x, y, 32, k);
  }

  lemma ApplyComm(o: Op, a: int, b: int, env: Env)
    requires Folds(o) && !o.Minus?
    ensures Apply(o, a, b, env) == Apply(o, b, a, env)
  {
    if o.Log? {
      BitwiseComm(o.l, a, b, 32);
    }
  }

  lemma PlusAssoc(a: int, b: int, c: int)
    ensures Wrap32(Wrap32(a + b) + c) == Wrap32(a + Wrap32(b + c))
  {
    WrapAdd(a + b, c);
    WrapAdd(b + c, a);
  }

  lemma MulAssoc(a: int, b: int, c: int)
    ensures Wrap32(Wrap32(a * b) * c) == Wrap32(a * Wrap32(b * c))
  {
    WrapMul(a * b, c);
    WrapMul(b * c, a);
    assert (a * b) * c == (b * c) * a;
  }

  lemma LogAssoc(l: Logic, a: int, b: int, c: int)
    ensures Bitwise(l, Wrap32(Bitwise(l, a, b, 32)), c, 32) == Bitwise(l, a, Wrap32(Bitwise(l, b, c, 32)), 32)
  {
    BitwiseWrap(l, Bitwise(l, a, b, 32), c);
    BitwiseWrap(l, Bitwise(l, b, c, 32), a);
    BitwiseComm(l, a, Bitwise(l, b, c, 32), 32);
    BitwiseComm(l, a, Wrap32(Bitwise(l, b, c, 32)), 32);
    BitwiseAssoc(l, a, b, c, 32);
  }

  lemma ApplyAssoc(o: Op, a: int, b: int, c: int, env: Env)
    requires Folds(o) && !o.Minus?
    ensures Apply(o, Apply(o, a, b, env), c, env) == Apply(o, a, Apply(o, b, c, env), env)
  {
    match o
    case Plus => PlusAssoc(a, b, c);
    case Mul => MulAssoc(a, b, c);
    case Log(l) => LogAssoc(l, a, b, c);
  }

  // ---- Every step keeps the value ----------------------------------------

  lemma PlaceSum(a: int, x: int, b: int, y: int)
    ensures Wrap32(Wrap32(a + x) + Wrap32(b + y)) == Wrap32(Wrap32(a + b) + (x + y))
  {
    WrapAdd(a + x, Wrap32(b + y));
    WrapAdd(b + y, a + x);
    WrapAdd(a + b, x + y);
  }

  lemma PlaceDifference(a: int, x: int, b: int)
    ensures Wrap32(Wrap32(a + x) - b) == Wrap32(Wrap32(a - b) + x)
  {
    WrapAdd(a + x, -b);
    WrapAdd(a - b, x);
  }

  /** Folding two constants gives the value of the operator on them. */
  lemma ConvalValue(p: Expr, o: Op, q: Expr, env: Env)
    requires p.Icon? && q.Icon? && Folds(o) && CanFold(p, o, q)
    ensures Value(Conval(p, o, q), env) == Apply(o, Value(p, env), Value(q, env), env)
  {
    match o
    case Plus => PlaceSum(p.lval, NamePart(p.name, env), q.lval, NamePart(q.name, env));
    case Minus => PlaceDifference(p.lval, NamePart(p.name, env), q.lval);
    case Mul =>
    case Log(_) =>
  }

  lemma SwapValue(o: Op, l: Expr, r: Expr, env: Env)
    requires Folds(o) && !o.Minus?
    ensures Value(Bin(o, Swap(l, r).0, Swap(l, r).1), env) == Value(Bin(o, l, r), env)
  {
    ApplyComm(o, Value(l, env), Value(r, env), env);
  }

  lemma Regrouped(o: Op, x: Expr, y: Expr, z: Expr, env: Env)
    requires Folds(o) && !o.Minus?
    ensures Value(Bin(o, Bin(o, x, y), z), env) == Value(Bin(o, x, Bin(o, y, z)), env)
  {
    var a, b, c := Value(x, env), Value(y, env), Value(z, env);
    assert Value(Bin(o, x, y), env) == Apply(o, a, b, env) && Value(Bin(o, y, z), env) == Apply(o, b, c, env);
    ApplyAssoc(o, a, b, c, env);
  }

  lemma TowerValue(o: Op, l: Expr, r: Expr, env: Env)
    requires Folds(o) && !o.Minus?
    ensures Value(Bin(o, Tower(o, l, r).0, Tower(o, l, r).1), env) == Value(Bin(o, l, r), env)
  {
    if r.Bin? && r.op == o {
      Regrouped(o, l, r.l, r.r, env);
    }
  }

  lemma UnsubtractValue(o: Op, l: Expr, r: Expr, env: Env)
    ensures Value(Bin(o, Unsubtract(o, l, r).0, Unsubtract(o, l, r).1), env) == Value(Bin(o, l, r), env)
  {
    if SubtractsFirst(o, l, r) {
      var x, a, c := Value(l.l, env), Value(l.r, env), Value(r, env);
      ConvalValue(r, Minus, l.r, env);
      ShiftedBack(x, a, c);
      assert Value(l, env) == Wrap32(x - a);
      assert Value(Bin(o, l.l, Conval(r, Minus, l.r)), env) == Wrap32(x + Wrap32(c - a));
    }
  }

  lemma ShiftedBack(x: int, a: int, c: int)
    ensures Wrap32(x + Wrap32(c - a)) == Wrap32(Wrap32(x - a) + c)
  {
    WrapAdd(c - a, x);
    WrapAdd(x - a, c);
  }

  /** One turn of the zapleft loop. */
  lemma ZapStep(o: Op, l: Expr, r: Expr, env: Env)
    requires Folds(o) && !o.Minus? && Joins(o, l, r)
    ensures Value(Bin(o, l.l, Conval(r, o, l.r)), env) == Value(Bin(o, l, r), env)
  {
    var x, a, c := Value(l.l, env), Value(l.r, env), Value(r, env);
    ConvalValue(r, o, l.r, env);
    ApplyComm(o, c, a, env);
    ApplyAssoc(o, x, a, c, env);
    assert l == Bin(o, l.l, l.r) && Value(l, env) == Apply(o, x, a, env);
  }

  lemma {:induction false} ZapleftValue(o: Op, l: Expr, r: Expr, env: Env)
    requires Folds(o) && !o.Minus?
    ensures Value(Bin(o, Zapleft(o, l, r).0, Zapleft(o, l, r).1), env) == Value(Bin(o, l, r), env)
    decreases l
  {
    if Joins(o, l, r) {
      ZapleftValue(o, l.l, Conval(r, o, l.r), env);
      ZapStep(o, l, r, env);
    }
  }

  /** What the exponent means. */
  lemma {:induction false} Log2Means(c: int)
    ensures Log2(c) >= 0 ==> c == Pow2(Log2(c))
    decreases c
  {
    if c > 1 && c % 2 == 0 {
      Log2Means(c / 2);
    }
  }

  lemma {:induction false} Log2OfPower(i: nat)
    ensures Log2(Pow2(i)) == i
  {
    if i > 0 {
      var c := Pow2(i - 1);
      assert 2 * c > 1 && 2 * c % 2 == 0 && 2 * c / 2 == c;
      Log2OfPower(i - 1);
    }
  }

  lemma Log2Small(c: Int32)
    ensures Log2(c) < 31
  {
    var i := Log2(c);
    Log2Means(c);
    WordPowers();
    HalfOf(31);
    assert Pow2(31) == TWO31 && Is32(c);
    if i >= 31 {
      Pow2Mono(31, i);
    }
  }

  lemma HalfOf(n: nat)
    ensures Pow2(n + 1) == 2 * Pow2(n)
  {
  }

  /** Multiplying by a power of two is shifting. */
  lemma ShiftValue(l: Expr, r: Expr, env: Env)
    requires Nncon(r) && Log2(r.lval) > 0
    ensures Value(Bin(Ls, l, Icon(Log2(r.lval), "")), env) == Value(Bin(Mul, l, r), env)
  {
    var v, i := Value(l, env), Log2(r.lval);
    Log2Means(r.lval);
    Log2Small(r.lval);
    PlainValue(r, env);
    PlainValue(Icon(i, ""), env);
    assert Apply(Ls, v, i, env) == Wrap32(v * Pow2(i));
  }

  lemma TimesOne(l: Expr, r: Expr, env: Env)
    requires Nncon(r) && Log2(r.lval) == 0
    ensures Value(Bin(Mul, l, r), env) == Value(l, env)
  {
    Log2Means(r.lval);
  }

  /** Adding a negative constant is subtracting a positive one; the least number is its own negative. */
  lemma SubtractValue(l: Expr, r: Expr, env: Env)
    requires Nncon(r)
    ensures Value(Bin(Minus, l, Icon(Wrap32(0 - r.lval), "")), env) == Value(Bin(Plus, l, r), env)
  {
    WrapSub(Value(l, env), 0 - r.lval);
  }

  lemma ShapeValue(o: Op, l: Expr, r: Expr, env: Env)
    requires Folds(o) && !o.Minus?
    ensures Value(Shape(o, l, r), env) == Value(Bin(o, l, r), env)
  {
    if l.Icon? && r.Icon? && CanFold(l, o, r) {
      ConvalValue(l, o, r, env);
    } else if o.Mul? && Nncon(r) && Log2(r.lval) == 0 {
      TimesOne(l, r, env);
    } else if o.Mul? && Nncon(r) && Log2(r.lval) > 0 {
      ShiftValue(l, r, env);
    } else if o.Plus? && Nncon(r) && r.lval < 0 {
      SubtractValue(l, r, env);
    }
  }

  lemma CommuteValue(o: Op, l: Expr, r: Expr, env: Env)
    requires Folds(o) && !o.Minus?
    ensures Value(Commute(o, l, r), env) == Value(Bin(o, l, r), env)
  {
    var (l1, r1) := Swap(l, r);
    var (l2, r2) := Tower(o, l1, r1);
    var (l3, r3) := Unsubtract(o, l2, r2);
    var (l4, r4) := Zapleft(o, l3, r3);
    SwapValue(o, l, r, env);
    TowerValue(o, l1, r1, env);
    UnsubtractValue(o, l2, r2, env);
    ZapleftValue(o, l3, r3, env);
    ShapeValue(o, l4, r4, env);
  }

  lemma RevRelValue(r: Relation, a: int, b: int)
    ensures Holds(RevRel(r), b, a) == Holds(r, a, b)
  {
  }

  lemma MinusValue(l: Expr, r: Expr, env: Env)
    requires Nncon(r)
    ensures Value(Commute(Plus, l, Icon(Wrap32(0 - r.lval), "")), env) == Value(Bin(Minus, l, r), env)
  {
    var n := Icon(Wrap32(0 - r.lval), "");
    PlainValue(n, env);
    PlainValue(r, env);
    CommuteValue(Plus, l, n, env);
    NegatedTwice(Value(l, env), r.lval);
    assert Value(Bin(Plus, l, n), env) == Wrap32(Value(l, env) + n.lval);
  }

  lemma PlainValue(e: Expr, env: Env)
    requires Nncon(e) && Is32(e.lval)
    ensures Value(e, env) == e.lval
  {
  }

  lemma DivValue(l: Expr, r: Expr, env: Env)
    requires Nncon(r) && r.lval == 1
    ensures Value(Bin(Div, l, r), env) == Value(l, env)
  {
    ByOne(Value(l, env));
  }

  lemma RelValue(rel: Relation, l: Expr, r: Expr, env: Env)
    ensures Value(Bin(Rel(RevRel(rel)), r, l), env) == Value(Bin(Rel(rel), l, r), env)
  {
    RevRelValue(rel, Value(l, env), Value(r, env));
  }

  lemma RewriteValue(o: Op, l: Expr, r: Expr, env: Env)
    ensures Value(Rewrite(o, l, r), env) == Value(Bin(o, l, r), env)
  {
    match o
    case Minus => if Nncon(r) { MinusValue(l, r, env); }
    case Plus => CommuteValue(o, l, r, env);
    case Mul => CommuteValue(o, l, r, env);
    case Log(_) => CommuteValue(o, l, r, env);
    case Rel(rel) => if l.Icon? { RelValue(rel, l, r, env); }
    case Div => if Nncon(r) && r.lval == 1 { DivValue(l, r, env); }
    case _ =>
  }

  lemma NegatedTwice(a: int, c: int)
    ensures Wrap32(a + Wrap32(0 - c)) == Wrap32(a - c)
  {
    WrapAdd(0 - c, a);
  }

  lemma ByOne(a: int)
    ensures Quotient(a, 1) == a
  {
  }

  /** Addresses are taken of memory cells only, as the front end sees to. */
  predicate Proper(e: Expr) {
    match e
    case Bin(_, l, r) => Proper(l) && Proper(r)
    case Unary(_, x) => Proper(x)
    case Deref(x) => Proper(x)
    case AddrOf(x) => (x.Name? || x.Deref?) && Proper(x)
    case _ => true
  }

  /** The rewritten tree has the same 32-bit value in every environment. */
  lemma {:induction false} OptimKeepsValue(e: Expr, env: Env)
    requires Proper(e)
    ensures Value(Optim(e), env) == Value(e, env)
  {
    match e
    case Bin(o, l, r) =>
      OptimKeepsValue(l, env);
      OptimKeepsValue(r, env);
      RewriteValue(o, Optim(l), Optim(r), env);
    case Unary(_, x) => OptimKeepsValue(x, env);
    case Deref(x) => OptimKeepsValue(x, env);
    case AddrOf(x) =>
      OptimKeepsValue(x, env);
      if x.Deref? {
        OptimKeepsValue(x.e, env);
      }
    case _ =>
  }

  // ---- What the rewriting achieves ---------------------------------------

  /** A node to which none of the rewriting steps applies any more. */
  predicate Normal(e: Expr) {
    e.Bin? ==>
      match e.op
      case Plus => Collected(e.op, e.l, e.r) && (Nncon(e.r) ==> e.r.lval >= 0)
      case Mul => Collected(e.op, e.l, e.r) && (Nncon(e.r) ==> Log2(e.r.lval) < 0)
      case Log(_) => Collected(e.op, e.l, e.r)
      case Minus => Nncon(e.r) ==> e.r.lval > 0 || e.r.lval == -TWO31
      case Div => Nncon(e.r) ==> e.r.lval != 1
      case Rel(_) => e.l.Icon? ==> e.r.Icon?
      case _ => true
  }

  /** No constant on the left of anything else, and no two constants left that could be one. */
  predicate Collected(o: Op, l: Expr, r: Expr)
    requires Folds(o)
  {
    && (l.Icon? ==> r.Icon? && !CanFold(l, o, r))
    && !Joins(o, l, r)
  }

  lemma {:induction false} ZapleftDone(o: Op, l: Expr, r: Expr)
    requires Folds(o) && (l.Icon? ==> r.Icon?)
    ensures var (l1, r1) := Zapleft(o, l, r); !Joins(o, l1, r1) && (l1.Icon? ==> r1.Icon?)
    decreases l
  {
    if Joins(o, l, r) {
      ZapleftDone(o, l.l, Conval(r, o, l.r));
    }
  }

  /** The operands of a commutative node once constants have been gathered. */
  function Gathered(o: Op, l: Expr, r: Expr): (Expr, Expr)
    requires Folds(o) && !o.Minus?
  {
    var (l1, r1) := Swap(l, r);
    var (l2, r2) := Tower(o, l1, r1);
    var (l3, r3) := Unsubtract(o, l2, r2);
    Zapleft(o, l3, r3)
  }

  /** A product that came down to a factor of one, which is dropped. */
  predicate TimesUnit(o: Op, l: Expr, r: Expr)
    requires Folds(o) && !o.Minus?
  {
    var (l1, r1) := Gathered(o, l, r);
    o.Mul? && Nncon(r1) && r1.lval == 1 && !(l1.Icon? && CanFold(l1, o, r1))
  }

  lemma ShapeNormal(o: Op, l: Expr, r: Expr)
    requires Folds(o) && !o.Minus? && !Joins(o, l, r) && (l.Icon? ==> r.Icon?)
    requires !(o.Mul? && Nncon(r) && r.lval == 1 && !(l.Icon? && CanFold(l, o, r)))
    ensures Normal(Shape(o, l, r))
  {
    if o.Mul? && Nncon(r) && Log2(r.lval) == 0 {
      Log2Means(r.lval);
    }
  }

  lemma CommuteNormal(o: Op, l: Expr, r: Expr)
    requires Folds(o) && !o.Minus? && !TimesUnit(o, l, r)
    ensures Normal(Commute(o, l, r))
  {
    var (l1, r1) := Swap(l, r);
    var (l2, r2) := Tower(o, l1, r1);
    var (l3, r3) := Unsubtract(o, l2, r2);
    var (l4, r4) := Zapleft(o, l3, r3);
    ZapleftDone(o, l3, r3);
    ShapeNormal(o, l4, r4);
  }

  /** Nothing is left to rewrite at the root, unless a factor of one was dropped from a product. */
  lemma {:induction false} OptimNormal(e: Expr)
    requires e.Bin? && e.op.Mul? ==> !TimesUnit(Mul, Optim(e.l), Optim(e.r))
    requires e.Bin? && e.op.Div? ==> !(Nncon(Optim(e.r)) && Optim(e.r).lval == 1)
    ensures Normal(Optim(e))
  {
    if e.Bin? {
      var l, r := Optim(e.l), Optim(e.r);
      match e.op
      case Minus => if Nncon(r) { CommuteNormal(Plus, l, Icon(Wrap32(0 - r.lval), "")); }
      case Plus => CommuteNormal(e.op, l, r);
      case Mul => CommuteNormal(e.op, l, r);
      case Log(_) => CommuteNormal(e.op, l, r);
      case _ =>
    }
  }

  /** Only numbers and operators that fold. */
  predicate Numeric(e: Expr) {
    match e
    case Icon(_, name) => name == ""
    case Bin(o, l, r) => Folds(o) && Numeric(l) && Numeric(r)
    case _ => false
  }

  /** Such a tree becomes one constant. */
  lemma {:induction false} NumbersFold(e: Expr)
    requires Numeric(e)
    ensures Nncon(Optim(e))
  {
    if e.Bin? {
      NumbersFold(e.l);
      NumbersFold(e.r);
    }
  }

  // ---- ispow2 ------------------------------------------------------------

  lemma {:induction false} AndSelf(d: nat, n: nat)
    requires d < Pow2(n)
    ensures Bitwise(And, d, d, n) == d
    decreases n
  {
    if n > 0 {
      AndSelf(d / 2, n - 1);
    }
  }

  /** A positive number is a power of two when it has no bit in common with its predecessor. */
  lemma {:induction false} PowerTest(c: nat, n: nat)
    requires 0 < c < Pow2(n)
    ensures Bitwise(And, c, c - 1, n) == 0 <==> Log2(c) >= 0
    decreases n
  {
    var d := c / 2;
    if c % 2 == 0 {
      assert (c - 1) / 2 == d - 1 && (c - 1) % 2 == 1;
      PowerTest(d, n - 1);
    } else {
      assert (c - 1) / 2 == d && (c - 1) % 2 == 0;
      AndSelf(d, n - 1);
    }
  }

  /** ispow2. */
  method Ispow2(c: Int32) returns (i: int)
    ensures i == Log2(c)
  {
    WordPowers();
    assert Is32(c);
    if c > 0 {
      PowerTest(c, 32);
    }
    if c <= 0 || Bitwise(And, c, c - 1, 32) != 0 {
      return -1;
    }
    var x: int := c;
    i := 0;
    while x > 1
      invariant x >= 1 && i >= 0 && Log2(x) >= 0 && i + Log2(x) == Log2(c)
      decreases x
    {
      x := x / 2;
      i := i + 1;
    }
  }
}
