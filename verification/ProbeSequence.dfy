/**
 The quadratic rehash of ld68: 1103 probes of a 2206-bucket table, all different
 because 1103 is prime.
 */
module ProbeSequence {
  import opened Arithmetic


  const NSYM: nat := 1103
  const HSIZE: nat := 2206

  /** Bucket of probe k from bucket h. */
  function Probe(h: nat, k: nat): (b: nat)
    ensures b < HSIZE
  {
    (h + k * k) % HSIZE
  }

  /** One step of the rehash: add the next odd number and wrap once. */
  lemma ProbeStep(h: nat, k: nat)
    ensures var n := Probe(h, k) + 2 * k + 1;
      k < NSYM ==> Probe(h, k + 1) == if n >= HSIZE then n - HSIZE else n
  {
    var m := h + k * k;
    assert (k + 1) * (k + 1) == k * k + 2 * k + 1;
    if k < NSYM {
      ModAdd(m, 2 * k + 1);
    }
  }

  lemma ModAdd(m: nat, d: nat)
    requires d < HSIZE
    ensures (m + d) % HSIZE == if m % HSIZE + d >= HSIZE then m % HSIZE + d - HSIZE else m % HSIZE + d
  {}

  // ---- 1103 is prime -----------------------------------------------------

  /** A proper factorization would have a factor below 34. */
  lemma Prime(a: nat, b: nat)
    requires 1 < a && 1 < b
    ensures a * b != NSYM
  {
    if a <= b {
      SmallFactor(a, b);
    } else {
      SmallFactor(b, a);
    }
  }

  lemma SmallFactor(a: nat, b: nat)
    requires 1 < a <= b
    ensures a * b != NSYM
  {
    if a >= 34 {
      Mono(34, 34, b);
      Mono(b, 34, a);
    } else {
      NoSmallFactor(a, b);
    }
  }

  lemma NotDivisor(a: nat)
    requires 1 < a < NSYM
    ensures NSYM % a != 0
  {
    var d := NSYM / a;
    assert NSYM == d * a + NSYM % a;
    if d > 1 {
      Prime(a, d);
    }
  }

  lemma NoSmallFactor(a: nat, b: nat)
    requires 2 <= a < 34
    ensures a * b != 1103
  {
    match a {
      case 2 => assert 2 * b != 1103;
      case 3 => assert 3 * b != 1103;
      case 4 => assert 4 * b != 1103;
      case 5 => assert 5 * b != 1103;
      case 6 => assert 6 * b != 1103;
      case 7 => assert 7 * b != 1103;
      case 8 => assert 8 * b != 1103;
      case 9 => assert 9 * b != 1103;
      case 10 => assert 10 * b != 1103;
      case 11 => assert 11 * b != 1103;
      case 12 => assert 12 * b != 1103;
      case 13 => assert 13 * b != 1103;
      case 14 => assert 14 * b != 1103;
      case 15 => assert 15 * b != 1103;
      case 16 => assert 16 * b != 1103;
      case 17 => assert 17 * b != 1103;
      case 18 => assert 18 * b != 1103;
      case 19 => assert 19 * b != 1103;
      case 20 => assert 20 * b != 1103;
      case 21 => assert 21 * b != 1103;
      case 22 => assert 22 * b != 1103;
      case 23 => assert 23 * b != 1103;
      case 24 => assert 24 * b != 1103;
      case 25 => assert 25 * b != 1103;
      case 26 => assert 26 * b != 1103;
      case 27 => assert 27 * b != 1103;
      case 28 => assert 28 * b != 1103;
      case 29 => assert 29 * b != 1103;
      case 30 => assert 30 * b != 1103;
      case 31 => assert 31 * b != 1103;
      case 32 => assert 32 * b != 1103;
      case 33 => assert 33 * b != 1103;
    }
  }

  /** Euclid's lemma for 1103, by descent on the first factor. */
  lemma {:induction false} Euclid(a: nat, b: nat) returns (q: nat)
    requires 0 < a < NSYM && (a * b) % NSYM == 0
    ensures b == NSYM * q
    decreases a
  {
    if a == 1 {
      q := b / NSYM;
    } else {
      var d, r := NSYM / a, NSYM % a;
      var m := (a * b) / NSYM;
      NotDivisor(a);
      Descent(a, b, d, r, m);
      MultipleMod(b - d * m, NSYM);
      q := Euclid(r, b);
    }
  }

  lemma Descent(a: int, b: int, d: int, r: int, m: int)
    requires NSYM == d * a + r && a * b == NSYM * m
    ensures r * b == NSYM * (b - d * m)
  {
    calc {
      r * b;
      (NSYM - d * a) * b;
      NSYM * b - d * a * b;
      { assert d * a * b == d * (a * b); }
      NSYM * b - d * (NSYM * m);
      NSYM * (b - d * m);
    }
  }

  /** Two different probes below 1103 never hit the same bucket. */
  lemma ProbesDiffer(h: nat, i: nat, j: nat)
    requires i < j < NSYM
    ensures Probe(h, i) != Probe(h, j)
  {
    if Probe(h, i) == Probe(h, j) {
      var s, t := (h + i * i) / HSIZE, (h + j * j) / HSIZE;
      var q := 2 * (t - s);
      assert j * j - i * i == HSIZE * (t - s);
      assert (j - i) * (j + i) == j * j - i * i;
      assert (j - i) * (j + i) == NSYM * q;
      MultipleMod(q, NSYM);
      var e := Euclid(j - i, j + i);
      assert e == 1;
      // j + i is 1103, so j - i is odd, and so is the difference of the squares
      OddProduct(j - i, t - s);
    }
  }

  lemma OddProduct(d: int, u: int)
    requires d % 2 == 1
    ensures d * NSYM != HSIZE * u
  {
    assert d - 2 * u != 0;
    assert d * NSYM - HSIZE * u == NSYM * (d - 2 * u);
  }
}
