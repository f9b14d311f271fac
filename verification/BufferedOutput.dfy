/**
 The biobufs of ld68: several buffered streams writing one file at different
 places through a single file descriptor.
 */
module BufferedOutput {
  import opened Arithmetic

  type Byte = x: int | 0 <= x < 256

  /** A file by address; addresses never written are absent. */
  type File = map<nat, Byte>

  // ---- Files as values ---------------------------------------------------

  predicate Covers(start: nat, n: nat, a: nat) {
    start <= a < start + n
  }

  /** write at a position. */
  function Overlaid(f: File, off: nat, data: seq<Byte>): File {
    f + map a: nat | off <= a < off + |data| && Covers(off, |data|, a) :: data[a - off]
  }

  ghost predicate OnFile(f: File, start: nat, data: seq<Byte>) {
    forall a :: start <= a < start + |data| ==> a in f && f[a] == data[a - start]
  }

  predicate SameAt(f: File, g: File, a: nat) {
    (a in f <==> a in g) && (a in f ==> g[a] == f[a])
  }

  predicate ApartBy(s: nat, n: nat, t: nat, m: nat) {
    n == 0 || m == 0 || s + n <= t || t + m <= s
  }

  /** The files agree outside one stretch. */
  ghost predicate OnlyWithin(f: File, g: File, start: nat, n: nat) {
    forall a :: !Covers(start, n, a) ==> SameAt(f, g, a)
  }

  lemma WithinBoth(f: File, g: File, h: File, start: nat, n: nat, m: nat)
    requires OnlyWithin(f, g, start, n) && OnlyWithin(g, h, start, m) && n <= m
    ensures OnlyWithin(f, h, start, m)
  {
    forall a | !Covers(start, m, a) ensures SameAt(f, h, a) {
      assert !Covers(start, n, a);
      assert SameAt(f, g, a) && SameAt(g, h, a);
    }
  }

  lemma OverlayExtends(f: File, start: nat, done: seq<Byte>, off: nat, data: seq<Byte>, all: seq<Byte>)
    requires OnFile(f, start, done) && off == start + |done| && all == done + data
    ensures OnFile(Overlaid(f, off, data), start, all)
  {
  }

  lemma OverlayKeeps(f: File, off: nat, data: seq<Byte>, start: nat, done: seq<Byte>)
    requires OnFile(f, start, done) && ApartBy(off, |data|, start, |done|)
    ensures OnFile(Overlaid(f, off, data), start, done)
  {
  }

  // ---- Block boundaries --------------------------------------------------

  /** A multiple of the block size. */
  predicate AtBlock(x: nat, size: nat)
    requires 0 < size
    decreases x
  {
    x == 0 || (size <= x && AtBlock(x - size, size))
  }

  function LeftInBlock(x: nat, size: nat): (n: nat)
    requires 0 < size
    ensures 0 < n <= size
  {
    size - x % size
  }

  lemma NextBlock(x: nat, size: nat)
    requires 0 < size
    ensures AtBlock(x + size, size) <==> AtBlock(x, size)
  {
  }

  lemma {:induction false} BlocksAdd(x: nat, n: nat, size: nat)
    requires 0 < size && AtBlock(x, size) && AtBlock(n, size)
    ensures AtBlock(x + n, size)
    decreases n
  {
    if n > 0 {
      BlocksAdd(x, n - size, size);
      NextBlock(x + (n - size), size);
    }
  }

  /** The whole blocks among n bytes. */
  method WholeBlocks(n: nat, size: nat) returns (put: nat)
    requires 0 < size <= n
    ensures 0 < put <= n && AtBlock(put, size) && n - put < size
  {
    put := n - n % size;
    RemainderOff(n, size);
  }

  lemma {:induction false} RemainderOff(n: nat, size: nat)
    requires 0 < size
    ensures n % size <= n && AtBlock(n - n % size, size)
    decreases n
  {
    if n >= size {
      RemainderOff(n - size, size);
      OneMultipleMore(n - size, size);
      NextBlock(n - size - (n - size) % size, size);
    } else {
      DivisionIsUnique(n, size, 0, n);
    }
  }

  lemma RestOfBlock(x: nat, size: nat)
    requires 0 < size
    ensures AtBlock(x + LeftInBlock(x, size), size)
  {
    RemainderOff(x, size);
    NextBlock(x - x % size, size);
  }

  // ---- One biobuf --------------------------------------------------------

  class Biobuf {
    const buf: array<Byte>
    var nleft: nat
    var ptr: nat
    var off: nat
    /** Where bopen put the stream, and all it was given since. */
    ghost var start: nat
    ghost var stream: seq<Byte>

    /** The bytes given are those before the file offset, then those waiting in the buffer. */
    ghost predicate Valid()
      reads this, buf
    {
      && 0 < buf.Length && ptr + nleft <= buf.Length && (nleft == 0 ==> ptr > 0)
      && start <= off && off + ptr == start + |stream|
      && (forall k :: 0 <= k < ptr ==> buf[k] == stream[off - start + k])
    }

    /** A full buffer ends on a block boundary of the file. */
    ghost predicate Aligned()
      reads this
      requires 0 < buf.Length
    {
      AtBlock(off + ptr + nleft, buf.Length)
    }

    ghost predicate Saved(f: File)
      reads this, buf
      requires Valid()
    {
      OnFile(f, start, stream[..off - start])
    }

    lemma StaysSaved(f: File, at: nat, data: seq<Byte>)
      requires Valid() && Saved(f) && ApartBy(at, |data|, start, |stream|)
      ensures Saved(Overlaid(f, at, data))
    {
      OverlayKeeps(f, at, data, start, stream[..off - start]);
    }

    /** What pushing the buffer out does to the file. */
    lemma PushSaves(f: File)
      requires Valid() && Saved(f)
      ensures OnFile(Overlaid(f, off, buf[..ptr]), start, stream)
    {
      ghost var done, rest := stream[..off - start], buf[..ptr];
      assert rest == stream[off - start..];
      assert stream == done + rest;
      OverlayExtends(f, start, done, off, buf[..ptr], stream);
    }

    /** The same for bytes written past the empty buffer. */
    lemma DirectSaves(f: File, p: seq<Byte>)
      requires Valid() && Saved(f) && ptr == 0
      ensures OnFile(Overlaid(f, off, p), start, stream + p)
      ensures OnlyWithin(f, Overlaid(f, off, p), start, |stream + p|)
    {
      assert stream[..off - start] == stream;
      OverlayExtends(f, start, stream, off, p, stream + p);
    }

    lemma PushStays(f: File)
      requires Valid()
      ensures OnlyWithin(f, Overlaid(f, off, buf[..ptr]), start, |stream|)
    {
    }

    /** bopen. */
    constructor (size: nat, off: nat)
      requires 0 < size
      ensures Valid() && Aligned() && fresh(buf) && buf.Length == size
      ensures this.off == start == off && stream == [] && ptr == 0
    {
      buf := new Byte[size];
      nleft, ptr, this.off := LeftInBlock(off, size), 0, off;
      start, stream := off, [];
      new;
      RestOfBlock(off, size);
    }

    /** The bookkeeping once the buffer has been written out. */
    method Drain()
      requires Valid() && ptr > 0
      modifies this`off, this`ptr, this`nleft
      ensures Valid() && off == old(off) + old(ptr) && ptr == 0 && nleft == buf.Length
      ensures stream[..off - start] == stream == old(stream[..off - start]) + old(buf[..ptr])
      ensures old(Aligned()) && old(nleft) == 0 ==> Aligned() && AtBlock(off, buf.Length)
    {
      assert stream == stream[..off - start] + buf[..ptr];
      off := off + ptr;
      ptr, nleft := 0, buf.Length;
      NextBlock(off, buf.Length);
    }

    /** Accounts for bytes written past the empty buffer. */
    method Extend(p: seq<Byte>)
      requires Valid() && ptr == 0
      modifies this`off, this`stream
      ensures Valid() && off == old(off) + |p| && stream == old(stream) + p == stream[..off - start]
      ensures old(Aligned()) && AtBlock(|p|, buf.Length) ==> Aligned()
    {
      if Aligned() && AtBlock(|p|, buf.Length) {
        BlocksAdd(off + ptr + nleft, |p|, buf.Length);
      }
      stream := stream + p;
      off := off + |p|;
    }

    /** Copies what fits into the buffer. */
    method Stuff(p: seq<Byte>) returns (put: nat)
      requires Valid() && nleft > 0
      modifies this`nleft, this`ptr, this`stream, buf
      ensures Valid() && put == (if old(nleft) < |p| then old(nleft) else |p|)
      ensures stream == old(stream) + p[..put] && nleft == old(nleft) - put && ptr == old(ptr) + put
    {
      put := if nleft < |p| then nleft else |p|;
      ghost var was, from := stream, off - start;
      var i := 0;
      while i < put
        invariant 0 <= i <= put
        invariant forall k :: 0 <= k < ptr ==> buf[k] == was[from + k]
        invariant forall k :: ptr <= k < ptr + i ==> buf[k] == p[k - ptr]
        modifies buf
      {
        buf[ptr + i] := p[i];
        i := i + 1;
      }
      stream := was + p[..put];
      ptr, nleft := ptr + put, nleft - put;
    }
  }

  // ---- The streams together ----------------------------------------------

  class Output {
    var file: File
    /** Where the descriptor really stands, and where ld believes it stands. */
    var pos: nat
    var boffset: nat
    var biobufs: seq<Biobuf>
    /** The streams and their buffers. */
    ghost var Repr: set<object>

    constructor ()
      ensures Valid() && biobufs == [] && Repr == {} && file == map[]
    {
      file, pos, boffset, biobufs, Repr := map[], 0, 0, [], {};
    }

    /** Every stream is in order, what left its buffer is in the file, and no two streams overlap. */
    ghost predicate Valid()
      reads this, Repr
    {
      && boffset == pos && this !in Repr
      && (forall b :: b in biobufs ==> b in Repr && b.buf in Repr && InOrder(b, file))
      && (forall b, c :: b in biobufs && c in biobufs && b != c ==> Separate(b, c))
    }

    ghost predicate Room(b: Biobuf, n: nat)
      reads this, biobufs, b
    {
      forall c :: c in biobufs && c != b ==> Apart(b, n, c)
    }

    method Bopen(size: nat, off: nat) returns (b: Biobuf)
      requires Valid() && 0 < size
      modifies this`biobufs, this`Repr
      ensures Valid() && fresh(b) && fresh(b.buf) && biobufs == [b] + old(biobufs) && Repr == old(Repr) + {b, b.buf}
      ensures b.start == off && b.stream == [] && b.buf.Length == size && b.Aligned()
    {
      b := new Biobuf(size, off);
      var others := biobufs;
      assert forall c :: c in others ==> InOrder(c, file) && b.buf != c.buf;
      assert forall c, d :: c in others && d in others && c != d ==> Separate(c, d);
      biobufs := [b] + others;
      Repr := Repr + {b, b.buf};
      Joined(b, others);
    }

    /** lseek when the descriptor stands elsewhere, then write. */
    method WriteAt(off: nat, data: seq<Byte>)
      requires boffset == pos
      modifies this`file, this`pos, this`boffset
      ensures file == Overlaid(old(file), off, data) && boffset == pos == off + |data|
    {
      if boffset != off {
        pos := off;
      }
      file := Overlaid(file, pos, data);
      pos := pos + |data|;
      boffset := off + |data|;
    }

    /** A stream without bytes overlaps nothing. */
    lemma Joined(b: Biobuf, others: seq<Biobuf>)
      requires boffset == pos && this !in Repr && biobufs == [b] + others && InOrder(b, file) && b.stream == []
      requires b in Repr && b.buf in Repr
      requires forall c :: c in others ==> c in Repr && c.buf in Repr && InOrder(c, file) && b.buf != c.buf
      requires forall c, d :: c in others && d in others && c != d ==> Separate(c, d)
      ensures Valid()
    {
    }

    /** The streams are in order once the one just changed is. */
    lemma Rejoin(b: Biobuf, g: File)
      requires boffset == pos && this !in Repr && file == g && b in biobufs && InOrder(b, g)
      requires forall c :: c in biobufs ==> c in Repr && c.buf in Repr
      requires forall c :: c in biobufs && c != b ==> InOrder(c, g)
      requires forall c, d :: c in biobufs && d in biobufs && c != d ==> Separate(c, d)
      ensures Valid()
    {
    }

    /** The write in bflush1. */
    method PushOut(b: Biobuf)
      requires Valid() && b in biobufs && b.ptr > 0
      modifies this`file, this`pos, this`boffset, b`off, b`ptr, b`nleft
      ensures Valid() && b.ptr == 0 && b.nleft == b.buf.Length && b.off == old(b.off) + old(b.ptr)
      ensures old(b.Aligned()) && old(b.nleft) == 0 ==> b.Aligned() && AtBlock(b.off, b.buf.Length)
      ensures OnlyWithin(old(file), file, b.start, |b.stream|)
    {
      ghost var g := Overlaid(file, b.off, b.buf[..b.ptr]);
      b.PushSaves(file);
      b.PushStays(file);
      forall c | c in biobufs && c != b ensures InOrder(c, g) {
        assert InOrder(c, file) && Separate(b, c);
        c.StaysSaved(file, b.off, b.buf[..b.ptr]);
      }
      WriteAt(b.off, b.buf[..b.ptr]);
      b.Drain();
      Rejoin(b, g);
    }

    method Bflush1(b: Biobuf)
      requires Valid() && b in biobufs
      modifies this`file, this`pos, this`boffset, b`off, b`ptr, b`nleft
      ensures Valid()
      ensures b.ptr == 0 && (old(b.ptr) > 0 ==> b.nleft == b.buf.Length)
      ensures old(b.Aligned()) && old(b.nleft) == 0 ==> b.Aligned() && AtBlock(b.off, b.buf.Length)
      ensures OnlyWithin(old(file), file, b.start, |b.stream|)
    {
      if b.ptr > 0 {
        PushOut(b);
      }
    }

    /** Whole blocks written past the buffer. */
    method Direct(b: Biobuf, p: seq<Byte>)
      requires Valid() && b in biobufs && b.ptr == 0 && b.nleft == b.buf.Length
      requires Room(b, |p|) && AtBlock(|p|, b.buf.Length)
      modifies this`file, this`pos, this`boffset, b`off, b`stream
      ensures Valid() && b.stream == old(b.stream) + p
      ensures old(b.Aligned()) ==> b.Aligned()
      ensures OnlyWithin(old(file), file, b.start, |b.stream|)
    {
      ghost var g := Overlaid(file, b.off, p);
      b.DirectSaves(file, p);
      forall c | c in biobufs && c != b ensures InOrder(c, g) && Apart(b, |p|, c) {
        assert InOrder(c, file) && Separate(b, c);
        c.StaysSaved(file, b.off, p);
      }
      WriteAt(b.off, p);
      b.Extend(p);
      Rejoin(b, g);
    }

    /** What fits, into the buffer. */
    method Fill(b: Biobuf, p: seq<Byte>) returns (put: nat)
      requires Valid() && b in biobufs && b.nleft > 0 && Room(b, |p|)
      modifies b`nleft, b`ptr, b`stream, b.buf
      ensures Valid() && put == (if old(b.nleft) < |p| then old(b.nleft) else |p|)
      ensures b.stream == old(b.stream) + p[..put] && Room(b, |p| - put)
      ensures old(b.Aligned()) ==> b.Aligned()
    {
      forall c | c in biobufs && c != b ensures InOrder(c, file) && Separate(b, c) && Apart(b, |p|, c) {
        assert Separate(b, c);
      }
      put := b.Stuff(p);
      assert InOrder(b, file);
      Rejoin(b, file);
    }

    /** The whole blocks of what is left, written past the empty buffer. */
    method Blockwise(b: Biobuf, p: seq<Byte>) returns (put: nat)
      requires Valid() && b in biobufs && b.ptr == 0 && b.nleft == b.buf.Length <= |p| && Room(b, |p|)
      modifies this`file, this`pos, this`boffset, b`off, b`stream
      ensures Valid() && 0 < put <= |p|
      ensures b.stream == old(b.stream) + p[..put] && Room(b, |p| - put)
      ensures old(b.Aligned()) ==> b.Aligned()
      ensures OnlyWithin(old(file), file, b.start, |b.stream|)
    {
      put := WholeBlocks(|p|, b.buf.Length);
      Direct(b, p[..put]);
    }

    /** One round of bwrite. */
    method BwriteRound(b: Biobuf, p: seq<Byte>) returns (put: nat)
      requires Valid() && b in biobufs && Room(b, |p|) && 0 < |p|
      modifies this`file, this`pos, this`boffset, b`off, b`ptr, b`nleft, b`stream, b.buf
      ensures Valid() && put <= |p| && (put == 0 ==> old(b.nleft) == 0 && b.nleft > 0)
      ensures b.stream == old(b.stream) + p[..put] && Room(b, |p| - put)
      ensures old(b.Aligned()) ==> b.Aligned()
      ensures OnlyWithin(old(file), file, b.start, |b.stream|)
    {
      if b.nleft > 0 {
        put := Fill(b, p);
      } else if |p| >= b.buf.Length {
        ghost var f, n := file, |b.stream|;
        if b.ptr != 0 {
          Bflush1(b);
        }
        ghost var g := file;
        put := Blockwise(b, p);
        WithinBoth(f, g, file, b.start, n, |b.stream|);
      } else {
        Bflush1(b);
        put := 0;
      }
    }

    /** Gives the stream more bytes: the buffer first, whole blocks directly, the rest to the next buffer. */
    method Bwrite(p: seq<Byte>, b: Biobuf)
      requires Valid() && b in biobufs && Room(b, |p|)
      modifies this`file, this`pos, this`boffset, b`off, b`ptr, b`nleft, b`stream, b.buf
      ensures Valid() && b.stream == old(b.stream) + p
      ensures old(b.Aligned()) ==> b.Aligned()
      ensures OnlyWithin(old(file), file, b.start, |b.stream|)
    {
      var k := 0;
      while k < |p|
        invariant 0 <= k <= |p| && Valid() && b.stream == old(b.stream) + p[..k]
        invariant Room(b, |p| - k) && (old(b.Aligned()) ==> b.Aligned())
        invariant OnlyWithin(old(file), file, b.start, |b.stream|)
        decreases |p| - k, if b.nleft == 0 then 1 else 0
      {
        ghost var g, n := file, |b.stream|;
        var put := BwriteRound(b, p[k..]);
        WithinBoth(old(file), g, file, b.start, n, |b.stream|);
        assert p[..k] + p[k..][..put] == p[..k + put];
        k := k + put;
      }
      assert p[..k] == p;
    }

    /** The bputc macro and bflushc. */
    method Bputc(c: Byte, b: Biobuf)
      requires Valid() && b in biobufs && Room(b, 1)
      modifies this`file, this`pos, this`boffset, b`off, b`ptr, b`nleft, b`stream, b.buf
      ensures Valid() && b.stream == old(b.stream) + [c]
      ensures old(b.Aligned()) ==> b.Aligned()
      ensures OnlyWithin(old(file), file, b.start, |b.stream|)
    {
      if b.nleft == 0 {
        Bflush1(b);
      }
      var put := Fill(b, [c]);
    }

    /** Some stream of the chain covers the address. */
    ghost predicate Owned(a: nat)
      reads this, biobufs
    {
      exists b :: b in biobufs && Covers(b.start, |b.stream|, a)
    }

    /** Drains every stream: the file then holds each one whole, from where bopen put it. */
    method Bflush()
      requires Valid()
      modifies this`file, this`pos, this`boffset, biobufs`off, biobufs`ptr, biobufs`nleft
      ensures Valid()
      ensures forall b :: b in biobufs ==> OnFile(file, b.start, b.stream)
      ensures forall a :: !Owned(a) ==> SameAt(old(file), file, a)
    {
      var i := 0;
      while i < |biobufs|
        invariant 0 <= i <= |biobufs| && Valid()
        invariant forall j :: 0 <= j < i ==> biobufs[j].ptr == 0
        invariant forall a :: !Owned(a) ==> SameAt(old(file), file, a)
      {
        ghost var f := file;
        Bflush1(biobufs[i]);
        forall a | !Owned(a) ensures SameAt(old(file), file, a) {
          assert !Covers(biobufs[i].start, |biobufs[i].stream|, a);
          assert SameAt(f, file, a) && SameAt(old(file), f, a);
        }
        i := i + 1;
      }
      forall b | b in biobufs ensures OnFile(file, b.start, b.stream) {
        assert InOrder(b, file) && b.ptr == 0;
        assert b.stream[..b.off - b.start] == b.stream;
      }
    }
  }

  // ---- Any interleaving --------------------------------------------------

  /** bwrite or bputc on stream k. */
  datatype Call = Block(k: nat, p: seq<Byte>) | One(k: nat, c: Byte)

  function Bytes(c: Call): seq<Byte> {
    match c
    case Block(_, p) => p
    case One(_, x) => [x]
  }

  /** All the bytes a sequence of calls gives to stream k. */
  function Given(calls: seq<Call>, k: nat): seq<Byte> {
    if calls == [] then []
    else
      var last := calls[|calls| - 1];
      Given(calls[..|calls| - 1], k) + if last.k == k then Bytes(last) else []
  }

  ghost predicate InPlace(f: File, starts: seq<nat>, calls: seq<Call>, k: nat)
    requires k < |starts|
  {
    OnFile(f, starts[k], Given(calls, k))
  }

  predicate Disjoint(starts: seq<nat>, calls: seq<Call>, j: nat, k: nat)
    requires j < |starts| && k < |starts|
  {
    ApartBy(starts[j], |Given(calls, j)|, starts[k], |Given(calls, k)|)
  }

  lemma {:induction false} GivenGrows(calls: seq<Call>, n: nat, k: nat)
    requires n <= |calls|
    ensures |Given(calls[..n], k)| <= |Given(calls, k)|
    decreases |calls|
  {
    if n == |calls| {
      assert calls[..n] == calls;
    } else {
      GivenGrows(calls[..|calls| - 1], n, k);
      assert calls[..|calls| - 1][..n] == calls[..n];
    }
  }

  /** Buffer k carries what the calls gave to stream k, and there are no other buffers. */
  ghost predicate Fed(out: Output, bufs: seq<Biobuf>, starts: seq<nat>, calls: seq<Call>)
    reads out, bufs
  {
    && |bufs| == |starts|
    && (forall k :: 0 <= k < |bufs| ==> bufs[k] in out.biobufs)
    && (forall b :: b in out.biobufs ==> b in bufs)
    && (forall j, k :: 0 <= j < k < |bufs| ==> bufs[j] != bufs[k])
    && (forall k :: 0 <= k < |bufs| ==> bufs[k].start == starts[k] && bufs[k].stream == Given(calls, k))
  }

  ghost predicate AllDisjoint(starts: seq<nat>, calls: seq<Call>) {
    && (forall c :: c in calls ==> c.k < |starts|)
    && (forall j, k :: 0 <= j < |starts| && 0 <= k < |starts| && j != k ==> Disjoint(starts, calls, j, k))
  }

  lemma PrefixDisjoint(starts: seq<nat>, calls: seq<Call>, n: nat)
    requires AllDisjoint(starts, calls) && n <= |calls|
    ensures AllDisjoint(starts, calls[..n])
  {
    forall j, k | 0 <= j < |starts| && 0 <= k < |starts| && j != k ensures Disjoint(starts, calls[..n], j, k) {
      assert Disjoint(starts, calls, j, k);
      GivenGrows(calls, n, j);
      GivenGrows(calls, n, k);
    }
  }

  lemma OneMore<T>(s: seq<T>, n: nat)
    requires n < |s|
    ensures s[..n] + [s[n]] == s[..n + 1]
  {
  }

  lemma FedMore(out: Output, was: seq<Biobuf>, b: Biobuf, starts: seq<nat>)
    requires |was| == |starts| && b !in was && b.stream == [] && b in out.biobufs
    requires forall k :: 0 <= k < |was| ==> was[k] in out.biobufs && was[k].start == starts[k] && was[k].stream == []
    requires forall c :: c in out.biobufs ==> c == b || c in was
    requires forall j, k :: 0 <= j < k < |was| ==> was[j] != was[k]
    ensures Fed(out, was + [b], starts + [b.start], [])
  {
    forall c | c in out.biobufs ensures c in was + [b] {
    }
  }

  method OpenNext(out: Output, was: seq<Biobuf>, size: nat, starts: seq<nat>, off: nat) returns (bufs: seq<Biobuf>)
    requires 0 < size && out.Valid() && Fed(out, was, starts, [])
    modifies out`biobufs, out`Repr
    ensures fresh(out.Repr - old(out.Repr))
    ensures |bufs| == |was| + 1 && bufs[..|was|] == was && fresh(bufs[|was|]) && fresh(bufs[|was|].buf)
    ensures out.Valid() && Fed(out, bufs, starts + [off], [])
  {
    var b := out.Bopen(size, off);
    bufs := was + [b];
    FedMore(out, was, b, starts);
  }

  /** A fresh file with its streams opened one after the other. */
  method OpenAll(size: nat, starts: seq<nat>) returns (out: Output, bufs: seq<Biobuf>)
    requires 0 < size
    ensures fresh(out) && fresh(out.Repr)
    ensures out.Valid() && Fed(out, bufs, starts, []) && out.file == map[]
  {
    out := new Output();
    bufs := [];
    while |bufs| < |starts|
      invariant |bufs| <= |starts| && fresh(out) && fresh(out.Repr)
      invariant out.Valid() && Fed(out, bufs, starts[..|bufs|], []) && out.file == map[]
    {
      bufs := OpenNext(out, bufs, size, starts[..|bufs|], starts[|bufs|]);
      OneMore(starts, |bufs| - 1);
    }
    assert starts[..|bufs|] == starts;
  }

  /** One call, which leaves room for the calls so far and itself. */
  method Perform(out: Output, bufs: seq<Biobuf>, starts: seq<nat>, c: Call, ghost calls: seq<Call>)
    requires out.Valid() && Fed(out, bufs, starts, calls) && AllDisjoint(starts, calls + [c])
    modifies out`file, out`pos, out`boffset, out.Repr
    ensures out.Repr == old(out.Repr) && out.Valid() && Fed(out, bufs, starts, calls + [c])
    ensures forall a :: !out.Owned(a) ==> SameAt(old(out.file), out.file, a)
  {
    var b := bufs[c.k];
    MakesRoom(out, bufs, starts, c, calls);
    match c {
      case Block(_, p) => out.Bwrite(p, b);
      case One(_, x) => out.Bputc(x, b);
    }
    assert (calls + [c])[..|calls|] == calls;
  }

  lemma MakesRoom(out: Output, bufs: seq<Biobuf>, starts: seq<nat>, c: Call, calls: seq<Call>)
    requires Fed(out, bufs, starts, calls) && AllDisjoint(starts, calls + [c])
    ensures c.k < |bufs| && bufs[c.k] in out.biobufs && out.Room(bufs[c.k], |Bytes(c)|)
  {
    assert c in calls + [c] && (calls + [c])[..|calls|] == calls;
    forall d | d in out.biobufs && d != bufs[c.k] ensures Apart(bufs[c.k], |Bytes(c)|, d) {
      var j :| 0 <= j < |bufs| && bufs[j] == d;
      assert Disjoint(starts, calls + [c], c.k, j);
    }
  }

  method Finish(out: Output, bufs: seq<Biobuf>, starts: seq<nat>, ghost calls: seq<Call>) returns (f: File)
    requires out.Valid() && Fed(out, bufs, starts, calls)
    requires forall a :: a in out.file ==> out.Owned(a)
    modifies out`file, out`pos, out`boffset, out.biobufs
    ensures forall k :: 0 <= k < |starts| ==> InPlace(f, starts, calls, k)
    ensures forall a :: a in f ==> exists k :: 0 <= k < |starts| && Covers(starts[k], |Given(calls, k)|, a)
  {
    ghost var before := out.file;
    out.Bflush();
    f := out.file;
    forall a | a in f ensures exists k :: 0 <= k < |starts| && Covers(starts[k], |Given(calls, k)|, a) {
      assert out.Owned(a) by { assert !out.Owned(a) ==> SameAt(before, f, a); }
      var b :| b in out.biobufs && Covers(b.start, |b.stream|, a);
      var k :| 0 <= k < |bufs| && bufs[k] == b;
      assert Covers(starts[k], |Given(calls, k)|, a);
    }
  }

  /**
   Any interleaving of bwrite and bputc on streams whose bytes do not overlap, then
   bflush: the file holds every stream whole from the place it was opened at, and
   nothing else.
   */
  method Session(size: nat, starts: seq<nat>, calls: seq<Call>) returns (f: File)
    requires 0 < size && AllDisjoint(starts, calls)
    ensures forall k :: 0 <= k < |starts| ==> InPlace(f, starts, calls, k)
    ensures forall a :: a in f ==> exists k :: 0 <= k < |starts| && Covers(starts[k], |Given(calls, k)|, a)
  {
    var out, bufs := OpenAll(size, starts);
    var n := 0;
    while n < |calls|
      invariant 0 <= n <= |calls| && fresh(out) && fresh(out.Repr)
      invariant out.Valid() && Fed(out, bufs, starts, calls[..n])
      invariant forall a :: a in out.file ==> out.Owned(a)
    {
      PrefixDisjoint(starts, calls, n + 1);
      OneMore(calls, n);
      Perform(out, bufs, starts, calls[n], calls[..n]);
      n := n + 1;
    }
    assert calls[..n] == calls;
    assert forall i :: 0 <= i < |out.biobufs| ==> out.biobufs[i] in out.Repr;
    f := Finish(out, bufs, starts, calls);
  }

  ghost predicate InOrder(b: Biobuf, f: File)
    reads b, b.buf
  {
    b.Valid() && b.Saved(f)
  }

  ghost predicate Separate(b: Biobuf, c: Biobuf)
    reads b, c
  {
    b.buf != c.buf && Apart(b, 0, c)
  }

  ghost predicate Apart(b: Biobuf, n: nat, c: Biobuf)
    reads b, c
  {
    ApartBy(b.start, |b.stream| + n, c.start, |c.stream|)
  }
}
