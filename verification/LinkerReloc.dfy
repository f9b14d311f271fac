/**
 Patching the words of a module's text or data, most significant byte first as
 for the 68000.
 */
module LinkerReloc {
  import opened Arithmetic
  import opened BufferedOutput
  import opened LinkerModel

  // ---- Words -------------------------------------------------------------

  function Value(s: seq<Byte>): nat {
    if s == [] then 0 else 256 * Value(s[..|s| - 1]) + s[|s| - 1]
  }

  /** The low n bytes of a number. */
  function Digits(x: int, n: nat): (s: seq<Byte>)
    ensures |s| == n
    decreases n
  {
    if n == 0 then [] else Digits(x / 256, n - 1) + [x % 256]
  }

  /** A number cut to n bytes. */
  function Low(x: int, n: nat): nat
    decreases n
  {
    if n == 0 then 0 else 256 * Low(x / 256, n - 1) + x % 256
  }

  lemma {:induction false} LowMeans(x: int, n: nat)
    ensures Low(x, n) == x % Power(256, n)
    decreases n
  {
    if n > 0 {
      LowMeans(x / 256, n - 1);
      ModSplit(x, 256, Power(256, n - 1));
    }
  }

  /** A word written and read back is the number modulo its width. */
  lemma {:induction false} ReadBack(x: int, n: nat)
    ensures Value(Digits(x, n)) == Low(x, n)
    decreases n
  {
    if n > 0 {
      ReadBack(x / 256, n - 1);
      assert Digits(x, n)[..n - 1] == Digits(x / 256, n - 1);
    }
  }

  // ---- Relocation entries ------------------------------------------------

  datatype Target = External(symno: nat) | Segment(kind: Kind)

  datatype Reloc = Reloc(address: nat, length: nat, pcrel: bool, target: Target)

  /** Bytes in the word; length codes are 0, 1 and 2. */
  function Width(r: Reloc): nat {
    if r.length == 0 then 1 else if r.length == 1 then 2 else 4
  }

  predicate InBounds(r: Reloc, size: nat) {
    r.length <= 2 && r.address + Width(r) <= size
  }

  predicate AllInBounds(rs: seq<Reloc>, size: nat) {
    forall i :: 0 <= i < |rs| ==> InBounds(rs[i], size)
  }

  predicate Overlap(r: Reloc, q: Reloc) {
    r.address < q.address + Width(q) && q.address < r.address + Width(r)
  }

  ghost predicate NoOverlap(rs: seq<Reloc>) {
    forall i, j :: 0 <= i < j < |rs| ==> !Overlap(rs[i], rs[j])
  }

  function WordAt(code: seq<Byte>, r: Reloc): nat
    requires InBounds(r, |code|)
  {
    Value(code[r.address..r.address + Width(r)])
  }

  /** The word of an entry is a number, as far as it fits. */
  predicate Carries(s: seq<Byte>, r: Reloc, x: int) {
    InBounds(r, |s|) && WordAt(s, r) == Low(x, Width(r))
  }

  /** The same entry in a stream where its segment starts at base. */
  function Moved(r: Reloc, base: nat): Reloc {
    r.(address := base + r.address)
  }

  function Patch(code: seq<Byte>, r: Reloc, x: int): (c: seq<Byte>)
    requires InBounds(r, |code|)
    ensures |c| == |code|
  {
    code[..r.address] + Digits(x, Width(r)) + code[r.address + Width(r)..]
  }

  /** What a word becomes when a number is added to it. */
  function Added(word: nat, x: int, width: nat): nat {
    Low(word + x, width)
  }

  /** One entry applied: its word grows by a number. */
  function Bump(code: seq<Byte>, r: Reloc, y: int): (c: seq<Byte>)
    requires InBounds(r, |code|)
    ensures |c| == |code|
  {
    Patch(code, r, WordAt(code, r) + y)
  }

  lemma AddedIs(word: nat, before: int, x: int, after: int, width: nat)
    requires word == Low(before, width) && after == before + x
    ensures Added(word, x, width) == Low(after, width)
  {
    LowMeans(before, width);
    LowMeans(word + x, width);
    LowMeans(after, width);
    ModAddLeft(before, x, Power(256, width));
  }

  lemma PatchAt(code: seq<Byte>, r: Reloc, y: int)
    requires InBounds(r, |code|)
    ensures WordAt(Patch(code, r, WordAt(code, r) + y), r) == Added(WordAt(code, r), y, Width(r))
  {
    var x := WordAt(code, r) + y;
    assert Patch(code, r, x)[r.address..r.address + Width(r)] == Digits(x, Width(r));
    ReadBack(x, Width(r));
  }

  lemma PatchElsewhere(code: seq<Byte>, r: Reloc, x: int, q: Reloc)
    requires InBounds(r, |code|) && InBounds(q, |code|) && !Overlap(r, q)
    ensures WordAt(Patch(code, r, x), q) == WordAt(code, q)
  {
    assert Patch(code, r, x)[q.address..q.address + Width(q)] == code[q.address..q.address + Width(q)];
  }

  /** The first n entries applied in turn, each adding its own amount. */
  function Relocated(code: seq<Byte>, rs: seq<Reloc>, add: seq<int>, n: nat): (c: seq<Byte>)
    requires n <= |rs| == |add|
    requires AllInBounds(rs, |code|)
    ensures |c| == |code|
  {
    if n == 0 then code
    else
      var c := Relocated(code, rs, add, n - 1);
      Bump(c, rs[n - 1], add[n - 1])
  }

  lemma OneMoreEntry(code: seq<Byte>, rs: seq<Reloc>, add: seq<int>, n: nat)
    requires n < |rs| == |add| && AllInBounds(rs, |code|)
    ensures Relocated(code, rs, add, n + 1) == Bump(Relocated(code, rs, add, n), rs[n], add[n])
  {
  }

  /** What word i holds once n entries have been applied. */
  function WordAfter(code: seq<Byte>, rs: seq<Reloc>, add: seq<int>, n: nat, i: nat): nat
    requires n <= |rs| == |add| && i < |rs| && InBounds(rs[i], |code|)
  {
    if i < n then Added(WordAt(code, rs[i]), add[i], Width(rs[i])) else WordAt(code, rs[i])
  }

  lemma NextEntry(code: seq<Byte>, c: seq<Byte>, rs: seq<Reloc>, add: seq<int>, n: nat, i: nat)
    requires n < |rs| == |add| && i < |rs| && NoOverlap(rs) && |c| == |code|
    requires InBounds(rs[i], |code|) && InBounds(rs[n], |code|)
    requires WordAt(c, rs[i]) == WordAfter(code, rs, add, n, i)
    ensures WordAt(Bump(c, rs[n], add[n]), rs[i]) == WordAfter(code, rs, add, n + 1, i)
  {
    if i == n {
      PatchAt(c, rs[n], add[n]);
    } else {
      PatchElsewhere(c, rs[n], WordAt(c, rs[n]) + add[n], rs[i]);
    }
  }

  /** When no two entries overlap, every word grows by exactly its own amount, whatever the order. */
  lemma {:induction false} EachWord(code: seq<Byte>, rs: seq<Reloc>, add: seq<int>, n: nat, i: nat)
    requires n <= |rs| == |add| && i < |rs| && NoOverlap(rs)
    requires AllInBounds(rs, |code|)
    ensures WordAt(Relocated(code, rs, add, n), rs[i]) == WordAfter(code, rs, add, n, i)
  {
    if n > 0 {
      EachWord(code, rs, add, n - 1, i);
      NextEntry(code, Relocated(code, rs, add, n - 1), rs, add, n - 1, i);
    }
  }

  lemma ImageWord(code: seq<Byte>, rs: seq<Reloc>, add: seq<int>, i: nat, before: int, after: int)
    requires i < |rs| == |add| && NoOverlap(rs) && AllInBounds(rs, |code|)
    requires Carries(code, rs[i], before) && after == before + add[i]
    ensures Carries(Relocated(code, rs, add, |rs|), rs[i], after)
  {
    AddedIs(WordAt(code, rs[i]), before, add[i], after, Width(rs[i]));
    EachWord(code, rs, add, |rs|, i);
  }

  /** Bytes that no entry covers stay. */
  lemma {:induction false} OtherBytes(code: seq<Byte>, rs: seq<Reloc>, add: seq<int>, n: nat, b: nat)
    requires n <= |rs| == |add| && b < |code|
    requires AllInBounds(rs, |code|)
    requires forall j :: 0 <= j < n ==> !Covers(rs[j].address, Width(rs[j]), b)
    ensures Relocated(code, rs, add, n)[b] == code[b]
  {
    if n > 0 {
      OtherBytes(code, rs, add, n - 1, b);
      assert !Covers(rs[n - 1].address, Width(rs[n - 1]), b);
    }
  }
}
