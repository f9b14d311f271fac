/**
 The field packer of pcc68: bit fields and runs of zeros gathered into 16-bit
 words, most significant bit first.
 */
module BitPacker {
  import opened Arithmetic

  const SZINT: nat := 32

  // ---- Bits --------------------------------------------------------------

  /** The low n bits of a number, most significant first. */
  function Bits(x: int, n: nat): (b: seq<bool>)
    ensures |b| == n
    decreases n
  {
    if n == 0 then [] else Bits(x / 2, n - 1) + [x % 2 == 1]
  }

  function ZeroBits(n: nat): (b: seq<bool>)
    ensures |b| == n
  {
    seq(n, _ => false)
  }

  lemma {:induction false} BitsOfZero(n: nat)
    ensures Bits(0, n) == ZeroBits(n)
  {
    if n > 0 {
      BitsOfZero(n - 1);
    }
  }

  lemma SplitStep(a: int, k: nat, b: nat)
    requires k > 0 && b < Pow2(k)
    ensures (a * Pow2(k) + b) / 2 == a * Pow2(k - 1) + b / 2 && (a * Pow2(k) + b) % 2 == b % 2
  {
    assert a * Pow2(k) == 2 * (a * Pow2(k - 1));
  }

  /** High part, then low part. */
  lemma {:induction false} BitsSplit(a: int, n: nat, k: nat, b: nat)
    requires b < Pow2(k)
    ensures Bits(a * Pow2(k) + b, n + k) == Bits(a, n) + Bits(b, k)
    decreases k
  {
    if k > 0 {
      SplitStep(a, k, b);
      BitsSplit(a, n, k - 1, b / 2);
    } else {
      assert a * Pow2(0) + b == a;
    }
  }

  /** Only the low n bits count. */
  lemma {:induction false} BitsMod(x: int, n: nat)
    ensures Bits(x % Pow2(n), n) == Bits(x, n)
    decreases n
  {
    if n > 0 {
      ModSplit(x, 2, Pow2(n - 1));
      assert x % Pow2(n) == 2 * (x / 2 % Pow2(n - 1)) + x % 2;
      BitsMod(x / 2, n - 1);
    }
  }

  lemma {:induction false} OrBits(x: nat, y: nat, n: nat, i: nat)
    requires i < n
    ensures Bits(Bitwise(Or, x, y, n), n)[i] == (Bits(x, n)[i] || Bits(y, n)[i])
    decreases n
  {
    var r := Bitwise(Or, x, y, n);
    assert r / 2 == Bitwise(Or, x / 2, y / 2, n - 1) && (r % 2 == 1 <==> x % 2 == 1 || y % 2 == 1);
    if i < n - 1 {
      OrBits(x / 2, y / 2, n - 1, i);
    }
  }

  /** The bits of 16-bit words in order. */
  function WordBits(ws: seq<nat>): (b: seq<bool>)
    ensures |b| == 16 * |ws|
  {
    if ws == [] then [] else WordBits(ws[..|ws| - 1]) + Bits(ws[|ws| - 1], 16)
  }

  lemma OneMoreWord(ws: seq<nat>, w: nat)
    ensures WordBits(ws + [w]) == WordBits(ws) + Bits(w, 16)
  {
    assert (ws + [w])[..|ws|] == ws;
  }

  // ---- The word being built ----------------------------------------------

  /** The word shows the first 32 of the waiting bits, and the others are zeros. */
  ghost predicate Shown(word: nat, rest: seq<bool>) {
    && (forall i :: 0 <= i < SZINT ==> Bits(word, SZINT)[i] == (i < |rest| && rest[i]))
    && (forall i :: SZINT <= i < |rest| ==> !rest[i])
  }

  lemma LongBits(x: int)
    ensures Bits(x, SZINT) == Bits(x / 65536 % 65536, 16) + Bits(x % 65536, 16)
    ensures Bits(x / 65536 % 65536, 16) == Bits(x / 65536, 16)
  {
    WordPowers();
    BitsSplit(x / 65536, 16, 16, x % 65536);
    assert x / 65536 * Pow2(16) + x % 65536 == x;
    BitsMod(x / 65536, 16);
  }

  /** The upper half of the word, and the word with the upper half shifted out. */
  lemma Halves(word: nat)
    ensures Bits(word / 65536 % 65536, 16) == Bits(word, SZINT)[..16]
    ensures Bits(word * 65536, SZINT) == Bits(word, SZINT)[16..] + ZeroBits(16)
  {
    WordPowers();
    LongBits(word);
    BitsMod(word, 16);
    BitsSplit(word, 16, 16, 0);
    BitsOfZero(16);
  }

  function HighHalf(word: nat): nat {
    word / 65536 % 65536
  }

  /** A shift that loses the high bits of the 32-bit word. */
  function ShiftOut(word: nat): nat {
    word * 65536 % 0x1_0000_0000
  }

  lemma ShiftedOut(word: nat)
    ensures Bits(ShiftOut(word), SZINT) == Bits(word, SZINT)[16..] + ZeroBits(16)
  {
    WordPowers();
    Pow2Add(16, 16);
    assert Pow2(SZINT) == 0x1_0000_0000;
    BitsMod(word * 65536, SZINT);
    Halves(word);
  }

  lemma EmitStep(word: nat, rest: seq<bool>)
    requires Shown(word, rest) && |rest| >= 16
    ensures Bits(HighHalf(word), 16) == rest[..16]
    ensures Shown(ShiftOut(word), rest[16..])
  {
    Halves(word);
    ShiftedOut(word);
    forall i | 0 <= i < 16 ensures Bits(word / 65536 % 65536, 16)[i] == rest[i] {
      assert Bits(word, SZINT)[i] == rest[i];
    }
    forall i | 0 <= i < SZINT ensures Bits(ShiftOut(word), SZINT)[i] == (i < |rest[16..]| && rest[16..][i]) {
      if i < 16 {
        assert Bits(word, SZINT)[16 + i] == (16 + i < |rest| && rest[16 + i]);
      }
    }
  }

  /** A field in its place in the word: after the waiting bits, before zeros. */
  lemma FieldBits(f: nat, sz: nat, inwd: nat, k: nat)
    requires f < Pow2(sz)
    ensures Bits(f * Pow2(k), inwd + sz + k) == ZeroBits(inwd) + Bits(f, sz) + ZeroBits(k)
  {
    BitsSplit(f, inwd + sz, k, 0);
    BitsOfZero(k);
    BitsSplit(0, inwd, sz, f);
    assert 0 * Pow2(sz) + f == f;
    BitsOfZero(inwd);
  }

  lemma FieldPlaced(lval: int, sz: nat, inwd: nat)
    requires inwd + sz <= SZINT
    ensures Bits(Placed(lval, sz, inwd), SZINT) == ZeroBits(inwd) + Bits(lval, sz) + ZeroBits(SZINT - sz - inwd)
  {
    FieldBits(lval % Pow2(sz), sz, inwd, SZINT - sz - inwd);
    BitsMod(lval, sz);
  }

  /** The masked field shifted to its place behind inwd bits. */
  function Placed(lval: int, sz: nat, inwd: nat): nat
    requires inwd + sz <= SZINT
  {
    (lval % Pow2(sz) as nat) * Pow2(SZINT - sz - inwd)
  }

  lemma FieldShown(word: nat, rest: seq<bool>, lval: int, sz: nat)
    requires Shown(word, rest) && |rest| + sz <= SZINT
    ensures Shown(Bitwise(Or, word, Placed(lval, sz, |rest|), SZINT), rest + Bits(lval, sz))
  {
    FieldPlaced(lval, sz, |rest|);
    OrShown(word, Placed(lval, sz, |rest|), rest, Bits(lval, sz));
  }

  lemma OrShown(word: nat, y: nat, rest: seq<bool>, f: seq<bool>)
    requires Shown(word, rest) && |rest| + |f| <= SZINT
    requires Bits(y, SZINT) == ZeroBits(|rest|) + f + ZeroBits(SZINT - |f| - |rest|)
    ensures Shown(Bitwise(Or, word, y, SZINT), rest + f)
  {
    forall i | 0 <= i < SZINT ensures Bits(Bitwise(Or, word, y, SZINT), SZINT)[i] == (i < |rest + f| && (rest + f)[i]) {
      OrBits(word, y, SZINT, i);
      assert Bits(word, SZINT)[i] == (i < |rest| && rest[i]);
    }
  }

  lemma Rejoin(a: seq<bool>, p: seq<bool>)
    requires |p| >= 16
    ensures (a + p[..16]) + p[16..] == a + p
  {
  }

  lemma Extend(a: seq<bool>, p: seq<bool>, q: seq<bool>)
    ensures a + (p + q) == (a + p) + q
  {
  }

  lemma ZeroRuns(base: seq<bool>, a: nat, b: nat)
    ensures (base + ZeroBits(a)) + ZeroBits(b) == base + ZeroBits(a + b)
  {
    Extend(base, ZeroBits(a), ZeroBits(b));
    assert ZeroBits(a) + ZeroBits(b) == ZeroBits(a + b);
  }

  lemma WholeLongs(x: nat)
    ensures 0 <= x / SZINT && SZINT * (x / SZINT) <= x
  {
  }

  lemma PaddedTrans(a: seq<bool>, b: seq<bool>, c: seq<bool>, m: nat, n: nat, total: nat)
    requires b == a + ZeroBits(m) && c == b + ZeroBits(n) && total == m + n
    ensures c == a + ZeroBits(total)
  {
    ZeroRuns(a, m, n);
  }

  lemma WordAligned(inoff: nat, n: nat, inwd: nat)
    requires inoff == 16 * n + inwd && inwd < 16 && inoff % SZINT == 0
    ensures inwd == 0
  {
  }

  lemma Longs(base: seq<bool>, k: nat)
    ensures ((base + ZeroBits(SZINT * k)) + ZeroBits(16)) + ZeroBits(16) == base + ZeroBits(SZINT * (k + 1))
  {
    assert ZeroBits(SZINT * k) + (ZeroBits(16) + ZeroBits(16)) == ZeroBits(SZINT * (k + 1));
    Extend(base, ZeroBits(SZINT * k), ZeroBits(16) + ZeroBits(16));
    Extend(base + ZeroBits(SZINT * k), ZeroBits(16), ZeroBits(16));
  }

  class Packer {
    /** The bits waiting, left-justified in a 32-bit word, and how many they are. */
    var word: nat
    var inwd: nat
    /** Bits defined so far. */
    var inoff: nat
    /** The words emitted. */
    var out: seq<nat>
    ghost var pending: seq<bool>

    ghost predicate Valid()
      reads this
    {
      inwd < 16 && |pending| == inwd && Shown(word, pending) && inoff == 16 * |out| + inwd
    }

    /** All bits given so far. */
    ghost function Contents(): (b: seq<bool>)
      reads this
      requires Valid()
      ensures |b| == inoff
    {
      WordBits(out) + pending
    }

    lemma AllOut()
      requires Valid() && inwd == 0
      ensures Contents() == WordBits(out)
    {
      assert pending == [];
    }

    constructor ()
      ensures Valid() && Contents() == []
    {
      word, inwd, inoff, out, pending := 0, 0, 0, [], [];
      new;
      BitsOfZero(SZINT);
    }

    /** The upper half of the word goes out and the rest moves up. */
    method EmitWord()
      requires |pending| == inwd >= 16 && Shown(word, pending)
      modifies this`word, this`inwd, this`out, this`pending
      ensures |pending| == inwd == old(inwd) - 16 && Shown(word, pending) && |out| == |old(out)| + 1
      ensures WordBits(out) + pending == old(WordBits(out) + pending)
    {
      EmitStep(word, pending);
      OneMoreWord(out, HighHalf(word));
      Rejoin(WordBits(out), pending);
      out := out + [HighHalf(word)];
      word := ShiftOut(word);
      pending := pending[16..];
      inwd := inwd - 16;
    }

    /** Emits every full 16-bit word. */
    method Emit()
      requires |pending| == inwd && Shown(word, pending) && inoff == 16 * |out| + inwd
      modifies this`word, this`inwd, this`out, this`pending
      ensures Valid() && Contents() == old(WordBits(out) + pending)
    {
      while inwd >= 16
        invariant |pending| == inwd && Shown(word, pending) && inoff == 16 * |out| + inwd
        invariant WordBits(out) + pending == old(WordBits(out) + pending)
      {
        EmitWord();
      }
    }

    /** One field; refused when it does not fit behind the waiting bits. */
    method Incode(lval: int, sz: nat) returns (ok: bool)
      requires Valid() && sz < SZINT
      modifies this
      ensures ok == (old(inwd) + sz <= SZINT) && Valid()
      ensures Contents() == old(Contents()) + if ok then Bits(lval, sz) else []
    {
      if sz + inwd > SZINT {
        return false;
      }
      FieldShown(word, pending, lval, sz);
      Extend(WordBits(out), pending, Bits(lval, sz));
      word := Bitwise(Or, word, Placed(lval, sz, inwd), SZINT);
      pending := pending + Bits(lval, sz);
      inwd, inoff := inwd + sz, inoff + sz;
      Emit();
      ok := true;
    }

    /** A long that fills its own words. */
    method Cinit(lval: int)
      requires Valid() && inwd == 0
      modifies this
      ensures Valid() && inwd == 0 && Contents() == old(Contents()) + Bits(lval, SZINT)
    {
      assert pending == [] && Contents() == WordBits(out);
      out := LongWords(out, lval);
      inoff := inoff + SZINT;
    }

    /** A run of zero bits. */
    method Vfdzero(n: int)
      requires Valid()
      modifies this
      ensures Valid() && inoff == old(inoff) + if n > 0 then n else 0
      ensures Contents() == old(Contents()) + ZeroBits(if n > 0 then n else 0)
    {
      if n <= 0 {
        return;
      }
      Extend(WordBits(out), pending, ZeroBits(n));
      pending := pending + ZeroBits(n);
      inwd, inoff := inwd + n, inoff + n;
      Emit();
    }

    /** Whole zero longs, past the word being built. */
    method Zecode(n: int)
      requires Valid() && inwd == 0
      modifies this
      ensures Valid() && inwd == 0 && inoff == old(inoff) + if n > 0 then SZINT * n else 0
      ensures Contents() == old(Contents()) + ZeroBits(if n > 0 then SZINT * n else 0)
    {
      if n <= 0 {
        return;
      }
      ghost var base := Contents();
      assert base == base + ZeroBits(SZINT * 0);
      var i := 0;
      while i < n
        invariant 0 <= i <= n && |out| == |old(out)| + 2 * i
        invariant WordBits(out) == base + ZeroBits(SZINT * i)
        modifies this`out
      {
        out := ZeroLong(out);
        Longs(base, i);
        i := i + 1;
      }
      inoff := inoff + n * SZINT;
    }

    /** Extends the bits with zeros up to offset n; going back is an error. */
    method Inforce(n: nat) returns (ok: bool)
      requires Valid()
      modifies this
      ensures Valid() && ok == (old(inoff) <= n)
      ensures Contents() == old(Contents()) + if ok then ZeroBits(n - old(inoff)) else []
    {
      if inoff == n {
        return true;
      }
      if inoff > n {
        return false;
      }
      var wb := RoundUp(inoff, SZINT);
      SetOffMultiple(inoff, SZINT);
      if wb >= n {
        Vfdzero(n - inoff);
      } else {
        PastWords(wb, n);
      }
      ok := true;
    }

    /** The case of inforce that leaves the current word: fills it, then goes on. */
    method PastWords(wb: nat, n: nat)
      requires Valid() && inoff <= wb < n && wb % SZINT == 0
      modifies this
      ensures Valid() && Contents() == old(Contents()) + ZeroBits(n - old(inoff))
    {
      ghost var base, start := Contents(), inoff;
      Vfdzero(wb - inoff);
      assert inoff == wb;
      WordAligned(wb, |out|, inwd);
      ghost var filled := Contents();
      SkipLongs(n);
      PaddedTrans(base, filled, Contents(), wb - start, n - wb, n - start);
    }

    /** Whole longs until near to n, then the remainder. */
    method SkipLongs(n: nat)
      requires Valid() && inwd == 0 && inoff < n
      modifies this
      ensures Valid() && Contents() == old(Contents()) + ZeroBits(n - old(inoff))
    {
      var rest := (n - inoff) / SZINT;
      WholeLongs(n - inoff);
      ghost var base, start := Contents(), inoff;
      Zecode(rest);
      ghost var near, skipped := inoff, Contents();
      Vfdzero(n - inoff);
      PaddedTrans(base, skipped, Contents(), near - start, n - near, n - start);
    }

    /** Extends the bits with zeros to the next multiple of n. */
    method Vfdalign(n: nat)
      requires Valid() && n > 0
      modifies this
      ensures Valid() && inoff == SetOff(old(inoff), n) >= old(inoff)
      ensures Contents() == old(Contents()) + ZeroBits(SetOff(old(inoff), n) - old(inoff))
    {
      var m := RoundUp(inoff, n);
      var ok := Inforce(m);
    }
  }

  /** One long appended to the words. */
  method LongWords(out: seq<nat>, lval: int) returns (more: seq<nat>)
    ensures |more| == |out| + 2 && WordBits(more) == WordBits(out) + Bits(lval, SZINT)
  {
    var hi, lo := lval / 65536 % 65536, lval % 65536;
    LongBits(lval);
    OneMoreWord(out, hi);
    OneMoreWord(out + [hi], lo);
    Extend(WordBits(out), Bits(hi, 16), Bits(lo, 16));
    more := out + [hi] + [lo];
  }

  /** One long of zeros appended to the words. */
  method ZeroLong(out: seq<nat>) returns (more: seq<nat>)
    ensures |more| == |out| + 2 && WordBits(more) == (WordBits(out) + ZeroBits(16)) + ZeroBits(16)
  {
    BitsOfZero(16);
    OneMoreWord(out, 0);
    OneMoreWord(out + [0], 0);
    more := out + [0] + [0];
  }

  /** The next multiple of y. */
  function SetOff(x: nat, y: nat): (r: nat)
    requires y > 0
    ensures x <= r < x + y
    decreases x
  {
    if x == 0 then 0 else y + SetOff(if x > y then x - y else 0, y)
  }

  lemma {:induction false} SetOffMultiple(x: nat, y: nat)
    requires y > 0
    ensures SetOff(x, y) % y == 0
    decreases x
  {
    if x > 0 {
      var z := if x > y then x - y else 0;
      SetOffMultiple(z, y);
      OneMultipleMore(SetOff(z, y), y);
    } else {
      DivisionIsUnique(0, y, 0, 0);
    }
  }

  lemma NearMultiples(x: nat, y: nat, a: nat, b: nat)
    requires y > 0 && a % y == 0 && b % y == 0 && x <= a < x + y && x <= b < x + y
    ensures a == b
  {
    var p, q := a / y, b / y;
    assert a - b == y * (p - q);
    if p > q {
      AtLeastOnce(p - q, y);
    } else if p < q {
      AtLeastOnce(q - p, y);
    }
  }

  lemma RoundedUp(x: nat, y: nat)
    requires y > 0 && x % y != 0
    ensures (x / y + 1) * y == SetOff(x, y)
  {
    var q, r := x / y, (x / y + 1) * y;
    assert r == y * (q + 1) == y * q + y;
    assert x == y * q + x % y;
    MultipleMod(q + 1, y);
    SetOffMultiple(x, y);
    NearMultiples(x, y, r, SetOff(x, y));
  }

  lemma RoundedAlready(x: nat, y: nat)
    requires y > 0 && x % y == 0
    ensures x == SetOff(x, y)
  {
    SetOffMultiple(x, y);
    NearMultiples(x, y, x, SetOff(x, y));
  }

  /** The SETOFF macro. */
  method RoundUp(x: nat, y: nat) returns (r: nat)
    requires y > 0
    ensures r == SetOff(x, y)
  {
    if x % y != 0 {
      RoundedUp(x, y);
      r := (x / y + 1) * y;
    } else {
      RoundedAlready(x, y);
      r := x;
    }
  }
}
