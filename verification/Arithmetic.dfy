/**
 Powers, bitwise operators, division facts and regrouping that the other modules share.
 */
module Arithmetic {
  function Power(b: nat, n: nat): (p: nat)
    requires b > 0
    ensures p > 0
  {
    if n == 0 then 1 else b * Power(b, n - 1)
  }

  function Pow2(n: nat): (p: nat)
    ensures p >= 1
    ensures n > 0 ==> p == 2 * Power(2, n - 1)
  {
    Power(2, n)
  }

  lemma {:induction false} Pow2Mono(a: nat, b: nat)
    requires a <= b
    ensures Pow2(a) <= Pow2(b)
  {
    if a < b {
      Pow2Mono(a, b - 1);
    }
  }

  lemma {:induction false} Pow2Add(a: nat, b: nat)
    ensures Pow2(a + b) == Pow2(a) * Pow2(b)
  {
    if b > 0 {
      Pow2Add(a, b - 1);
      assert Pow2(a) * Pow2(b) == 2 * (Pow2(a) * Pow2(b - 1));
    }
  }

  /** The numbers of values of 16 and 32 bits. */
  lemma WordPowers()
    ensures Pow2(16) == 0x1_0000 && Pow2(32) == 0x1_0000_0000
  {
    assert Pow2(4) == 16 && Pow2(8) == 256 by { Pow2Add(4, 4); }
    Pow2Add(8, 8);
    Pow2Add(16, 16);
  }

  // ---- Bitwise operators -------------------------------------------------

  datatype Logic = And | Or | Er

  function Bit(l: Logic, a: int, b: int): nat {
    match l
    case And => if a == 1 && b == 1 then 1 else 0
    case Or => if a == 1 || b == 1 then 1 else 0
    case Er => if a != b then 1 else 0
  }

  /** A bitwise operator on the low n bits. */
  function Bitwise(l: Logic, x: int, y: int, n: nat): nat
    decreases n
  {
    if n == 0 then 0 else 2 * Bitwise(l, x / 2, y / 2, n - 1) + Bit(l, x % 2, y % 2)
  }

  // ---- Appending ---------------------------------------------------------

  lemma Assoc<T>(a: seq<T>, b: seq<T>, c: seq<T>)
    ensures (a + b) + c == a + (b + c)
  {
  }

  lemma FrontMore<T>(s: seq<T>, i: nat)
    requires i < |s|
    ensures s[..i + 1] == s[..i] + [s[i]]
  {
  }

  lemma NextOf<T>(a: seq<T>, b: seq<T>, i: nat)
    requires i < |b|
    ensures var all := a + b[i..]; all == a + [b[i]] + b[i + 1..] && all[..|a|] == a && all[|a|] == b[i]
  {
  }

  // ---- Division ----------------------------------------------------------

  lemma AtLeastOnce(k: int, r: nat)
    requires k >= 1
    ensures r * k >= r
  {
    assert r * k == r * (k - 1) + r;
  }

  /** Quotient and remainder are determined by the division equation. */
  lemma DivisionIsUnique(x: int, r: nat, q: int, rest: nat)
    requires 0 < r && rest < r && x == r * q + rest
    ensures x / r == q && x % r == rest
  {
    var p, s := x / r, x % r;
    assert r * (p - q) == rest - s;
    if p > q {
      AtLeastOnce(p - q, r);
    } else if p < q {
      AtLeastOnce(q - p, r);
    }
  }

  lemma MultipleMod(q: int, r: nat)
    requires 0 < r
    ensures (r * q) % r == 0
  {
    DivisionIsUnique(r * q, r, q, 0);
  }

  lemma OneMultipleMore(x: int, r: nat)
    requires 0 < r
    ensures (x + r) % r == x % r
  {
    DivisionIsUnique(x + r, r, x / r + 1, x % r);
  }

  /** Adding a multiple does not change the remainder. */
  lemma AddMultiple(x: int, k: int, r: nat)
    requires 0 < r
    ensures (x + r * k) % r == x % r
  {
    var q, rest := x / r, x % r;
    assert x + r * k == r * (q + k) + rest;
    DivisionIsUnique(x + r * k, r, q + k, rest);
  }

  /** Remainders may be taken before adding. */
  lemma ModAddLeft(x: int, y: int, r: nat)
    requires 0 < r
    ensures (x % r + y) % r == (x + y) % r
  {
    var q := x / r;
    assert x + y == (x % r + y) + r * q;
    AddMultiple(x % r + y, q, r);
  }

  lemma Regroup(b: int, p: int, q: int, r: int)
    ensures b * (p * q + r) == (b * p) * q + b * r
  {
    assert b * (p * q + r) == b * (p * q) + b * r;
    assert b * (p * q) == (b * p) * q;
  }

  lemma DigitFits(b: nat, p: nat, r: nat, d: nat)
    requires r < p && d < b
    ensures b * r + d < b * p
  {
    assert b * p == b * (p - 1) + b;
    Mono(b, r, p - 1);
  }

  lemma Mono(b: nat, r: int, s: int)
    requires r <= s
    ensures b * r <= b * s
  {
    assert b * s == b * r + b * (s - r);
  }

  /** A remainder split into its last digit and the rest. */
  lemma ModSplit(x: int, b: nat, p: nat)
    requires 0 < b && 0 < p
    ensures 0 < b * p && x % (b * p) == b * (x / b % p) + x % b
  {
    var y, d := x / b, x % b;
    var q, r := y / p, y % p;
    DigitFits(b, p, r, d);
    Regroup(b, p, q, r);
    DivisionIsUnique(x, b * p, q, b * r + d);
  }

  lemma DivideTwice(x: int, b: nat, p: nat)
    requires 0 < b && 0 < p
    ensures 0 < b * p && x / b / p == x / (b * p)
  {
    var y, d := x / b, x % b;
    var q, r := y / p, y % p;
    assert x == b * y + d && y == p * q + r;
    DigitFits(b, p, r, d);
    Regroup(b, p, q, r);
    DivisionIsUnique(x, b * p, q, b * r + d);
  }
}
