/**
 lookup, enter and symfree of ld68 over allocated segments: fixed arrays of
 symbols and buckets that are filled and cleared in place.
 */
module LinkerSymbols {
  import opened Arithmetic
  import opened ProbeSequence
  import opened SymbolHash
  import opened SymbolTable

  const NOENTRY := Entry("", 0, 0, 0)

  class Segment {
    const entries: array<Entry>
    const buckets: array<int>
    var used: nat

    ghost predicate Valid()
      reads this
    {
      entries.Length == NSYM && buckets.Length == HSIZE && used <= NSYM
    }

    ghost function Contents(): Seg
      requires Valid()
      reads this, entries, buckets
    {
      Seg(entries[..used], buckets[..])
    }

    constructor ()
      ensures Valid() && fresh(entries) && fresh(buckets)
      ensures Contents() == EmptySeg()
    {
      entries := new Entry[NSYM](_ => NOENTRY);
      buckets := new int[HSIZE](_ => -1);
      used := 0;
    }

    /** lookup's probing of one segment. */
    method Probing(name: string) returns (r: ScanResult)
      requires Valid() && WellSeg(Contents())
      ensures r == Scan(Contents(), name, 0)
    {
      ghost var g := Contents();
      var h := HashOf(name);
      var b := h;
      var i := 1;
      ghost var k: nat := 0;
      assert h * 1 == h && Probe(h, 0) == h;
      while i < HSIZE
        invariant 0 <= k <= NSYM && i == 2 * k + 1 && b == Probe(h, k)
        invariant g == Contents() && h == Hash(name)
        invariant Scan(g, name, 0) == Scan(g, name, k)
        decreases NSYM - k
      {
        assert BucketOk(g, b) && buckets[b] == g.buckets[b];
        if buckets[b] < 0 {
          return Empty(b);
        }
        assert entries[buckets[b]] == g.syms[g.buckets[b]];
        if entries[buckets[b]].name == name {
          return Hit(b);
        }
        ProbeStep(h, k);
        b := b + i;
        i := i + 2;
        if b >= HSIZE {
          b := b - HSIZE;
        }
        k := k + 1;
      }
      r := Exhausted;
    }

    /** enter's changes to the segment. */
    method Put(e: Entry)
      requires Valid() && used < NSYM && e.hash < HSIZE
      modifies this`used, entries, buckets
      ensures Valid() && Contents() == Entered(old(Contents()), e) && used == old(used) + 1
    {
      buckets[e.hash] := used;
      entries[used] := e;
      used := used + 1;
    }

    /** symfree in one segment: take out the newest symbols until stop are left, or all of them. */
    method DropUntil(stop: int) returns (hit: bool)
      requires Valid() && WellSeg(Contents())
      modifies this`used, buckets
      ensures Valid() && hit == (0 <= stop <= old(used))
      ensures Contents() == Truncated(old(Contents()), if 0 <= stop <= old(used) then stop else 0)
      ensures used == if hit then stop else 0
    {
      ghost var g := Contents();
      Untouched(g);
      if used == stop {
        return true;
      }
      while used > 0
        invariant used <= |g.syms| && Valid() && entries[..] == old(entries[..])
        invariant Contents() == Truncated(g, used)
        invariant !(used <= stop <= |g.syms|)
      {
        var s := used - 1;
        assert entries[s] == g.syms[s] && SymOk(g, s);
        DropOne(g, s);
        buckets[entries[s].hash] := -1;
        used := s;
        if used == stop {
          return true;
        }
      }
      hit := false;
    }
  }

  /** Clearing the newest symbol's bucket is truncating by one. */
  lemma DropOne(g: Seg, s: nat)
    requires WellSeg(g) && s < |g.syms|
    ensures g.syms[s].hash < HSIZE
    ensures Truncated(g, s) == Seg(g.syms[..s], Truncated(g, s + 1).buckets[g.syms[s].hash := -1])
  {
    assert SymOk(g, s);
    forall b | 0 <= b < HSIZE && g.buckets[b] == s ensures b == g.syms[s].hash {
      assert BucketOk(g, b);
    }
  }

  lemma Untouched(g: Seg)
    requires WellSeg(g)
    ensures Truncated(g, |g.syms|) == g
  {
    forall b | 0 <= b < HSIZE ensures g.buckets[b] < |g.syms| { assert BucketOk(g, b); }
  }

  lemma WrapStep(x: int, c: int)
    ensures (2 * x + c) % 0x1_0000_0000 == (2 * (x % 0x1_0000_0000) + c) % 0x1_0000_0000
  {
    var q := x / 0x1_0000_0000;
    assert x == 0x1_0000_0000 * q + x % 0x1_0000_0000;
    assert 2 * x + c == 0x1_0000_0000 * (2 * q) + (2 * (x % 0x1_0000_0000) + c);
  }

  lemma MaskSign(x: int)
    ensures x % 0x1_0000_0000 % 0x8000_0000 == x % 0x8000_0000
  {
    var q := x / 0x1_0000_0000;
    assert x == 0x8000_0000 * (2 * q) + x % 0x1_0000_0000;
  }

  /** lookup's hash loop, on 32-bit integers. */
  method HashOf(name: string) returns (h: nat)
    ensures h == Hash(name) < HSIZE
  {
    var sh := 0;
    var i := 0;
    while i < |name|
      invariant 0 <= i <= |name| && sh == HashSum(name[..i]) % 0x1_0000_0000
    {
      assert name[..i+1][..i] == name[..i];
      WrapStep(HashSum(name[..i]), name[i] as int);
      sh := (2 * sh + name[i] as int) % 0x1_0000_0000;
      i := i + 1;
    }
    assert name[..|name|] == name;
    MaskSign(HashSum(name));
    h := sh % 0x8000_0000 % HSIZE;
  }

  class SymTab {
    var segs: seq<Segment>      // the allocated segments
    var csymseg: int            // current segment; -1 when symfree ran off the front
    var nextsym: Mark           // place behind the newest symbol
    ghost var Repr: set<object> // the segments and their arrays

    ghost predicate Distinct()
      reads this`segs
    {
      && (forall i, j :: 0 <= i < j < |segs| ==> segs[i] != segs[j])
      && (forall i, j :: 0 <= i < j < |segs| ==>
        segs[i].entries != segs[j].entries && segs[i].buckets != segs[j].buckets)
    }

    ghost function Table(): (t: seq<Seg>)
      requires forall s :: s in segs ==> s.Valid()
      reads this`segs, segs, set s | s in segs :: s.entries, set s | s in segs :: s.buckets
      ensures |t| == |segs|
    {
      var ss := segs;
      seq(|ss|, i requires 0 <= i < |ss| && ss[i].Valid()
                  reads ss, set s | s in ss :: s.entries, set s | s in ss :: s.buckets
                  => ss[i].Contents())
    }

    /** The segments are sound and only the current one is partly filled. */
    ghost predicate Shape()
      reads this`segs, this`csymseg, this`Repr, segs
    {
      && this !in Repr && Distinct() && (forall s :: s in segs ==> s.Valid())
      && (forall s :: s in segs ==> s in Repr && s.entries in Repr && s.buckets in Repr)
      && -1 <= csymseg < |segs|
      && (forall i :: 0 <= i < csymseg ==> segs[i].used == NSYM)
      && (forall i :: csymseg < i < |segs| ==> segs[i].used == 0)
    }

    ghost predicate Valid()
      reads this`segs, this`csymseg, this`Repr, segs, set s | s in segs :: s.entries, set s | s in segs :: s.buckets
    {
      Shape() && WellTable(Table())
    }

    constructor ()
      ensures Valid() && Table() == [] && nextsym == NoSym && csymseg == -1 && Repr == {}
    {
      segs, csymseg, nextsym, Repr := [], -1, NoSym, {};
    }

    /** lookup: where the name is, or the first place for it; segments are allocated on the way. */
    method Lookup(name: string) returns (w: Where)
      requires Valid()
      modifies this`segs, this`csymseg, this`Repr
      ensures Valid() && SameContents(old(Table()), Table()) && old(segs) <= segs && fresh(Repr - old(Repr))
      ensures w == LookupFrom(old(Table()), name, 0)
      ensures w.Vacant? || w.Found? ==> w.seg <= csymseg
      ensures w.Vacant? ==> csymseg == w.seg
      ensures old(csymseg) <= csymseg
    {
      ghost var t := Table();
      var g := 0;
      while g < NSEG
        invariant 0 <= g <= NSEG && g <= csymseg + 1 && old(csymseg) <= csymseg
        invariant Valid() && SameContents(t, Table()) && old(segs) <= segs && fresh(Repr - old(Repr))
        invariant Passed(t, name, 0, g)
      {
        LookupStep(t, name, g);
        var r := Visit(name, g, t);
        if r.Hit? {
          return Found(g, r.bucket);
        }
        if r.Exhausted? {
          return Botch(g);
        }
        if segs[g].used < NSYM {
          return Vacant(g, r.bucket);
        }
        g := g + 1;
      }
      LookupPasses(t, name, 0, NSEG);
      w := Overflow;
    }

    /** lookup's step to segment g. */
    method Visit(name: string, g: nat, ghost t: seq<Seg>) returns (r: ScanResult)
      requires Valid() && WellTable(t) && SameContents(t, Table())
      requires g < NSEG && g <= csymseg + 1 && Passed(t, name, 0, g)
      modifies this`segs, this`csymseg, this`Repr
      ensures Valid() && SameContents(t, Table()) && old(segs) <= segs && fresh(Repr - old(Repr))
      ensures csymseg == (if g > old(csymseg) then g else old(csymseg))
      ensures r == Scan(SegAt(t, g), name, 0) && |SegAt(t, g).syms| == segs[g].used
    {
      Reach(name, g, t);
      r := ProbeIn(name, g, t);
    }

    /** Segment g is allocated, and current if the current one was in front of it. */
    method Reach(name: string, g: nat, ghost t: seq<Seg>)
      requires Valid() && WellTable(t) && SameContents(t, Table())
      requires g < NSEG && g <= csymseg + 1 && Passed(t, name, 0, g)
      modifies this`segs, this`csymseg, this`Repr
      ensures Valid() && SameContents(t, Table()) && old(segs) <= segs && fresh(Repr - old(Repr))
      ensures g < |segs| && csymseg == (if g > old(csymseg) then g else old(csymseg))
    {
      if g == |segs| {
        AddSegment(t);
      }
      if g > csymseg {
        RaiseTo(g, name, t);
      }
    }

    method ProbeIn(name: string, g: nat, ghost t: seq<Seg>) returns (r: ScanResult)
      requires Valid() && SameContents(t, Table()) && g < |segs|
      ensures r == Scan(SegAt(t, g), name, 0) && |SegAt(t, g).syms| == segs[g].used
    {
      assert segs[g] in segs && Table()[g] == SegAt(t, g);
      r := segs[g].Probing(name);
    }

    /** The current segment moves on past full ones. */
    method RaiseTo(g: nat, name: string, ghost t: seq<Seg>)
      requires Valid() && WellTable(t) && SameContents(t, Table())
      requires csymseg < g < |segs| && g <= csymseg + 1 && Passed(t, name, 0, g)
      modifies this`csymseg
      ensures Valid() && csymseg == g && Table() == old(Table())
    {
      ghost var u := Table();
      PassedFull(t, u, name, g);
      forall i | 0 <= i < g ensures segs[i].used == NSYM {
        assert segs[i] in segs && u[i] == segs[i].Contents();
      }
      csymseg := g;
    }

    method AddSegment(ghost t: seq<Seg>)
      requires Valid() && |segs| < NSEG && SameContents(t, Table())
      modifies this`segs, this`Repr
      ensures Valid() && SameContents(t, Table()) && |segs| == |old(segs)| + 1 && old(segs) <= segs
      ensures fresh(Repr - old(Repr))
    {
      ghost var u := Table();
      var s := new Segment();
      segs := segs + [s];
      Repr := Repr + {s, s.entries, s.buckets};
      PadWell(u);
      assert Table() == u + [EmptySeg()];
    }

    /** enter: put the name where lookup left off, unless it is there already; t is the table before. */
    method Enter(w: Where, name: string, ntype: int, value: int, ghost t: seq<Seg>) returns (entered: bool)
      requires Valid() && t == Table() && w == LookupFrom(t, name, 0)
      requires w.Found? || (w.Vacant? && csymseg == w.seg)
      modifies this`nextsym, Repr
      ensures segs == old(segs) && csymseg == old(csymseg) && Shape()
      ensures entered == w.Vacant?
      ensures !entered ==> Table() == t && nextsym == old(nextsym)
      ensures entered ==> w.seg < |t| && w.bucket < |t[w.seg].buckets|
      ensures entered ==> nextsym == At(w.seg, |t[w.seg].syms| + 1)
      ensures entered ==> Table() == EnteredAt(t, w.seg, Entry(name, ntype, value, w.bucket))
    {
      if w.Found? {
        return false;
      }
      EnterNew(w, Entry(name, ntype, value, w.bucket), t);
      entered := true;
    }

    method EnterNew(w: Where, e: Entry, ghost t: seq<Seg>)
      requires Valid() && t == Table() && w == LookupFrom(t, e.name, 0) && w.Vacant? && csymseg == w.seg &&
        e.hash == w.bucket
      modifies this`nextsym, Repr
      ensures segs == old(segs) && csymseg == old(csymseg) && Shape()
      ensures w.seg < |t| && e.hash < |t[w.seg].buckets|
      ensures nextsym == At(w.seg, |t[w.seg].syms| + 1) && Table() == EnteredAt(t, w.seg, e)
    {
      VacantPlace(t, e.name);
      assert segs[w.seg] in segs && t[w.seg] == segs[w.seg].Contents();
      assert |t[w.seg].syms| == segs[w.seg].used;
      PutAt(w.seg, e);
      nextsym := At(w.seg, segs[w.seg].used);
      assert EnteredAt(t, w.seg, e) == t[w.seg := Entered(t[w.seg], e)];
    }

    /** enter's changes to the current segment. */
    method PutAt(g: nat, e: Entry)
      requires Shape() && g < |segs| && g == csymseg && segs[g].used < NSYM && e.hash < HSIZE
      modifies Repr
      ensures segs == old(segs) && csymseg == old(csymseg) && Shape()
      ensures e.hash < |old(Table())[g].buckets| && Table() == old(Table())[g := Entered(old(Table())[g], e)]
      ensures segs[g].used == old(segs[g].used) + 1
    {
      ghost var t := Table();
      var sp := segs[g];
      assert sp in segs && t[g] == sp.Contents();
      sp.Put(e);
      ghost var v := t[g := Entered(t[g], e)];
      forall i | 0 <= i < |segs| ensures segs[i].Contents() == v[i] {
        assert i != g ==> segs[i] != sp && segs[i] in segs && t[i] == old(segs[i].Contents());
      }
      assert Table() == v;
    }

    /** symfree has emptied everything behind the current segment without meeting the mark. */
    ghost predicate Freeing(saved: Mark, t: seq<Seg>, u: seq<Seg>, top: int)
      reads this`segs, this`csymseg, this`Repr, segs, set s | s in segs :: s.entries, set s | s in segs :: s.buckets
    {
      && Shape() && WellTable(t) && Table() == u && csymseg <= top < |t| && Emptied(t, u, csymseg)
      && (saved.At? && csymseg < saved.seg <= top ==> saved.off > |t[saved.seg].syms|)
    }

    /** symfree: back out to the mark; false is "symfree botch".  t is the table before. */
    method SymFree(saved: Mark, ghost t: seq<Seg>) returns (ok: bool)
      requires Valid() && t == Table()
      modifies this`nextsym, this`csymseg, Repr
      ensures segs == old(segs) && Shape()
      ensures ok <==> saved.NoSym? || (saved.seg <= old(csymseg) && GoodMark(t, saved))
      ensures ok && saved.At? ==> Table() == Restored(t, saved) && nextsym == saved && csymseg == saved.seg
      ensures !ok ==> nextsym == old(nextsym)
      ensures saved.NoSym? ==> Table() == Restored(t, NoSym) && nextsym == old(nextsym) && csymseg == -1
    {
      TailEmptied(t);
      ghost var u, top := t, csymseg;
      while csymseg >= 0
        invariant segs == old(segs) && nextsym == old(nextsym)
        invariant csymseg >= -1 && Freeing(saved, t, u, top)
      {
        var hit;
        hit, u := FreeStep(saved, t, u, top);
        if hit {
          return true;
        }
      }
      assert u == Restored(t, NoSym);
      ok := saved.NoSym?;
    }

    /** One trip of symfree's outer loop. */
    method FreeStep(saved: Mark, ghost t: seq<Seg>, ghost u: seq<Seg>, ghost top: int)
      returns (hit: bool, ghost v: seq<Seg>)
      requires csymseg >= 0 && Freeing(saved, t, u, top)
      modifies this`nextsym, this`csymseg, Repr
      ensures segs == old(segs)
      ensures hit ==> Shape() && saved.At? && saved.seg == csymseg <= top && GoodMark(t, saved)
      ensures hit ==> Table() == Restored(t, saved) && nextsym == saved
      ensures !hit ==> csymseg == old(csymseg) - 1 && nextsym == old(nextsym) && Freeing(saved, t, v, top)
    {
      hit, v := FreeSegment(if saved.At? && saved.seg == csymseg then saved.off else -1, t, u);
      FreedMeans(saved, t, u, csymseg, v);
      if hit {
        nextsym := saved;
      } else {
        Retreat(v);
      }
    }

    /** The segment before the current one becomes current. */
    method Retreat(ghost v: seq<Seg>)
      requires Shape() && csymseg >= 0 && segs[csymseg].used == 0 && Table() == v
      modifies this`csymseg
      ensures Shape() && csymseg == old(csymseg) - 1 && Table() == v
    {
      csymseg := csymseg - 1;
    }

    /** Segments behind the current one hold nothing. */
    lemma TailEmptied(t: seq<Seg>)
      requires Valid() && t == Table()
      ensures Emptied(t, t, csymseg)
    {
      forall i | csymseg < i < |t| ensures t[i] == Truncated(t[i], 0) {
        assert segs[i] in segs && t[i] == segs[i].Contents();
        Untouched(t[i]);
      }
    }

    /** symfree's work on the current segment; u and v are the tables around it. */
    method FreeSegment(stop: int, ghost t: seq<Seg>, ghost u: seq<Seg>) returns (hit: bool, ghost v: seq<Seg>)
      requires Shape() && WellTable(t) && csymseg >= 0 && u == Table() && Emptied(t, u, csymseg)
      modifies Repr
      ensures segs == old(segs) && csymseg == old(csymseg) && Shape() && |t| == |segs|
      ensures hit == (0 <= stop <= |t[csymseg].syms|)
      ensures Table() == v == u[csymseg := Truncated(t[csymseg], if hit then stop else 0)]
      ensures !hit ==> segs[csymseg].used == 0
    {
      var g := segs[csymseg];
      assert g in segs && u[csymseg] == g.Contents();
      hit := g.DropUntil(stop);
      v := u[csymseg := Truncated(t[csymseg], if hit then stop else 0)];
      forall i | 0 <= i < |segs| ensures segs[i].Contents() == v[i] {
        assert i != csymseg ==> segs[i] != g && segs[i] in segs && u[i] == old(segs[i].Contents());
      }
    }

    /** lookup and enter for one external symbol of a module; t is the table the module started from. */
    method Note(name: string, ntype: int, value: int, ghost t: seq<Seg>, ghost u: seq<Seg>)
      returns (ok: bool, entered: bool, ghost v: seq<Seg>)
      requires Valid() && u == Table() && WellTable(t) && Grows(t, u)
      modifies this, Repr
      ensures Valid() && v == Table() && Grows(t, v) && fresh(Repr - old(Repr))
      ensures ok <==> !LookupFrom(u, name, 0).Botch? && !LookupFrom(u, name, 0).Overflow?
      ensures ok ==> Holds(v, name) && (entered <==> !Holds(u, name))
      ensures ok && !entered ==> SameContents(u, v)
      ensures entered ==> EntersAs(u, v, name, ntype, value)
      ensures !entered ==> nextsym == old(nextsym)
      ensures entered ==> nextsym == Behind(u, name)
    {
      var w := Lookup(name);
      v := Table();
      ContentsGrow(t, u, v);
      SameLookup(u, v, name, 0);
      SameHolds(u, v, name);
      LookupSound(v, name);
      if w.Botch? || w.Overflow? {
        return false, false, v;
      }
      ghost var repr := Repr;
      entered := Enter(w, name, ntype, value, v);
      assert Repr == repr;
      if entered {
        var e := Entry(name, ntype, value, w.bucket);
        EnteredWellTable(v, e);
        EnterGrows(t, v, e);
        SameEntering(u, v, w.seg, e);
        v := EnteredAt(v, w.seg, e);
      }
      ok := true;
    }

    /** Name i of a module; was is the table the names before it left. */
    method NoteNext(names: seq<string>, i: nat, ghost start: Mark, ghost t: seq<Seg>, ghost was: seq<Seg>,
        ghost had: bool)
      returns (ok: bool, ghost grew: bool, ghost u: seq<Seg>)
      requires Valid() && was == Table() && WellTable(t) && Grows(t, was) && i < |names| &&
        NotedTo(t, names, i, was, had)
      requires LeftAt(start, nextsym, had)
      modifies this, Repr
      ensures Valid() && u == Table() && Grows(t, u) && fresh(Repr - old(Repr))
      ensures if ok then NotedTo(t, names, i + 1, u, grew) else !Fits(t, names)
      ensures LeftAt(start, nextsym, grew)
    {
      var entered;
      ok, entered, u := Note(names[i], 0, 0, t, was);
      grew := had || entered;
      NotedNext(t, names, i, was, had, u, ok, entered);
    }

    /** load1's lookup and enter for all of a module's external symbols; u is the table they leave. */
    method NoteAll(names: seq<string>) returns (ok: bool, ghost grew: bool, ghost u: seq<Seg>)
      requires Valid()
      modifies this, Repr
      ensures Valid() && u == Table() && Grows(old(Table()), u) && fresh(Repr - old(Repr))
      ensures ok <==> Fits(old(Table()), names)
      ensures ok ==> SameContents(Noted(old(Table()), names), u) && (grew <==> SomeNew(old(Table()), names))
      ensures LeftAt(old(nextsym), nextsym, grew)
    {
      ghost var t, start := Table(), nextsym;
      u, ok, grew := t, true, false;
      GrowsSelf(t);
      NothingNoted(t, names);
      var i := 0;
      while i < |names| && ok
        invariant 0 <= i <= |names| && Valid() && u == Table() && Grows(t, u) && fresh(Repr - old(Repr))
        invariant ok ==> NotedTo(t, names, i, u, grew)
        invariant !ok ==> !Fits(t, names)
        invariant LeftAt(start, nextsym, grew)
      {
        ok, grew, u := NoteNext(names, i, start, t, u, grew);
        i := i + 1;
      }
      AllNoted(t, names, u, grew, ok);
    }

    /**
     load1's symbols for a library member that turns out to define nothing: enter
     them, then back them out to wherever nextsym pointed before. ok is that no lookup
     failed, and u the table in between, which holds the old names and the new ones.
     symfree fails exactly when that place is behind no symbol of u, and the table is
     what it was exactly when the place was behind its newest symbol.
     */
    method LoadAndBackOut(names: seq<string>) returns (ok: bool, backed: bool, ghost grew: bool, ghost u: seq<Seg>)
      requires Valid() && (nextsym.At? ==> nextsym.off > 0)
      modifies this, Repr
      ensures Shape() && WellTable(u) && Grows(old(Table()), u)
      ensures ok <==> Fits(old(Table()), names)
      ensures ok ==> SameContents(Noted(old(Table()), names), u) && (grew <==> SomeNew(old(Table()), names))
      ensures ok ==> forall name :: Holds(u, name) <==> Holds(old(Table()), name) || name in names
      ensures ok ==> (backed <==> GoodMark(u, old(nextsym)))
      ensures ok && backed ==> Table() == Restored(u, old(nextsym)) && WellTable(Table())
      ensures ok && backed ==> (SameContents(old(Table()), Table()) <==> MarkOf(old(Table()), old(nextsym)))
      ensures ok && backed && old(nextsym).At? ==> nextsym == old(nextsym)
      ensures ok && old(nextsym).NoSym? ==> csymseg == -1 && if grew then nextsym.At? && nextsym.off > 0
        else nextsym.NoSym?
    {
      ghost var t := Table();
      var savnext := nextsym;
      ok, grew, u := NoteAll(names);
      backed := false;
      if ok {
        NotedNames(t, names, u);
        MarkReached(u, savnext);
        backed := SymFree(savnext, u);
        Outcome(t, u, savnext);
      }
    }

    /** What backing out to a mark comes to. */
    lemma Outcome(t: seq<Seg>, u: seq<Seg>, mark: Mark)
      requires WellTable(t) && WellTable(u) && Grows(t, u) && (mark.At? ==> mark.off > 0)
      ensures GoodMark(u, mark) ==>
        WellTable(Restored(u, mark)) && (SameContents(t, Restored(u, mark)) <==> MarkOf(t, mark))
    {
      if GoodMark(u, mark) {
        RestoredWellTable(u, mark);
        BackOutRestoresIff(t, u, mark);
      }
    }

    /** A segment with symbols is in use, so symfree gets to it. */
    lemma MarkReached(u: seq<Seg>, mark: Mark)
      requires Valid() && u == Table() && (mark.At? ==> mark.off > 0)
      ensures mark.At? && GoodMark(u, mark) ==> mark.seg <= csymseg
    {
      if mark.At? && GoodMark(u, mark) {
        assert segs[mark.seg] in segs && u[mark.seg] == segs[mark.seg].Contents();
      }
    }
  }

  /** A table with its first name. */
  method OneName(name: string) returns (st: SymTab)
    ensures fresh(st) && fresh(st.Repr) && st.Valid() && st.nextsym == At(0, 1) && st.Table() != []
  {
    st := new SymTab();
    assert WellTable([]) && Grows([], []) && Behind([], name) == At(0, 1) && !Holds([], name) by {
      FreshTable(name);
    }
    var ok, entered;
    ghost var u;
    ok, entered, u := st.Note(name, 0, 0, [], []);
    assert Holds(u, name) && u != [];
  }

  /** The first archive member enters a name and is backed out: nextsym still points behind it. */
  method FirstDropped(name: string) returns (st: SymTab, ok: bool)
    ensures ok && fresh(st) && fresh(st.Repr) && st.Valid() && st.nextsym == At(0, 1)
    ensures st.Table() != [] && forall i :: 0 <= i < |st.Table()| ==> st.Table()[i].syms == []
  {
    st := OneName(name);
    ghost var u := st.Table();
    RestoredWellTable(u, NoSym);
    ok := st.SymFree(NoSym, u);
  }

  /**
   symfree botch is reachable: nextsym is behind no symbol of the table t the first
   member left, so backing out a next member that enters no symbol fails.
   */
  method BackOutTwice(name: string) returns (st: SymTab, first: bool, second: bool, ghost t: seq<Seg>)
    ensures first && !second && fresh(st) && st.nextsym == At(0, 1) && |st.segs| == |t|
    ensures WellTable(t) && t != [] && !GoodMark(t, st.nextsym) && forall i :: 0 <= i < |t| ==> t[i].syms == []
  {
    st, first := FirstDropped(name);
    t := st.Table();
    second := st.SymFree(st.nextsym, t);
  }

  /** A member that enters one name into a table without symbols. */
  method EntersOne(st: SymTab, name: string)
    requires st.Valid() && forall i :: 0 <= i < |st.Table()| ==> st.Table()[i].syms == []
    modifies st, st.Repr
    ensures st.Valid() && fresh(st.Repr - old(st.Repr))
    ensures |st.Table()| > 0 && |st.Table()[0].syms| == 1 &&
      st.Table()[0].syms[0] == Entry(name, 0, 0, ProbeOf(name, 0))
  {
    ghost var t := st.Table();
    EmptyLookup(t, name);
    GrowsSelf(t);
    var ok, entered;
    ghost var u;
    ok, entered, u := st.Note(name, 0, 0, t, t);
    assert u[0] == EnteredAt(t, 0, Entry(name, 0, 0, ProbeOf(name, 0)))[0];
  }

  /**
   And a next member that does enter a symbol is backed out too little: its name
   stays in the table of a link that never loads it.
   */
  method LeftBehind(name: string, later: string) returns (st: SymTab, first: bool, second: bool)
    ensures first && second && fresh(st) && st.Valid()
    ensures Holds(st.Table(), later) && LookupFrom(st.Table(), later, 0) == Found(0, ProbeOf(later, 0))
  {
    st, first := FirstDropped(name);
    var savnext := st.nextsym;
    EntersOne(st, later);
    ghost var u := st.Table();
    second := st.SymFree(savnext, u);
    RestoredWellTable(u, savnext);
    LookupFinds(st.Table(), 0, 0);
    assert Names(st.Table()[0], later);
  }

  /** Only the first segment holds symbols, and they are the first n of one hash value. */
  ghost predicate OnlyCrowd(u: seq<Seg>, n: nat) {
    WellTable(u) && Crowd(SegAt(u, 0), n) && forall i :: 0 < i < |u| ==> u[i] == EmptySeg()
  }

  /** Where lookup gets for the next such name. */
  lemma CrowdLookup(u: seq<Seg>, n: nat)
    requires OnlyCrowd(u, n) && n <= NSYM
    ensures var name := Pairs(n, PAIRS);
      && !Holds(u, name)
      && if n < NSYM then LookupFrom(u, name, 0).Vacant? && LookupFrom(u, name, 0).seg == 0
        else LookupFrom(u, name, 0) == Botch(0)
  {
    var name := Pairs(n, PAIRS);
    NotInCrowd(SegAt(u, 0), n, n);
    if n < NSYM {
      RoomForAbsent(SegAt(u, 0), name);
    } else {
      CrowdExhausts(SegAt(u, 0));
    }
    assert forall i :: 0 <= i < |u| ==> !Names(u[i], name);
  }

  lemma CrowdEntered(u: seq<Seg>, v: seq<Seg>, n: nat)
    requires OnlyCrowd(u, n) && n < NSYM && WellTable(v) && EntersAs(u, v, Pairs(n, PAIRS), 0, 0)
    ensures OnlyCrowd(v, n + 1)
  {
    CrowdLookup(u, n);
    var name := Pairs(n, PAIRS);
    var e := Entry(name, 0, 0, LookupFrom(u, name, 0).bucket);
    CrowdGrows(SegAt(u, 0), n, e);
    var x := EnteredAt(u, 0, e);
    forall i | 0 <= i < |v| ensures v[i] == if i == 0 then Entered(SegAt(u, 0), e) else EmptySeg() {
      assert v[i] == SegAt(x, i);
    }
  }

  /**
   "hash table botch" is reachable: 1103 names of one hash value go in, and the next
   lookup fails for a name that is in no segment, though no other one holds a symbol.
   */
  method HashBotch() returns (st: SymTab, entered: nat, w: Where)
    ensures fresh(st) && st.Valid() && entered == NSYM && OnlyCrowd(st.Table(), entered)
    ensures !Holds(st.Table(), Pairs(NSYM, PAIRS)) && w == LookupFrom(st.Table(), Pairs(NSYM, PAIRS), 0) == Botch(0)
  {
    st := new SymTab();
    ghost var u: seq<Seg> := [];
    entered := 0;
    while entered < NSYM
      invariant entered <= NSYM && fresh(st) && fresh(st.Repr) && st.Valid() && u == st.Table() && OnlyCrowd(u, entered)
    {
      u := NextOfCrowd(st, entered, u);
      entered := entered + 1;
    }
    var name := Pairs(NSYM, PAIRS);
    CrowdLookup(u, NSYM);
    w := st.Lookup(name);
    StillCrowd(u, st.Table(), NSYM);
    SameLookup(u, st.Table(), name, 0);
    SameHolds(u, st.Table(), name);
  }

  lemma StillCrowd(u: seq<Seg>, v: seq<Seg>, n: nat)
    requires OnlyCrowd(u, n) && WellTable(v) && SameContents(u, v)
    ensures OnlyCrowd(v, n)
  {
  }

  method NextOfCrowd(st: SymTab, n: nat, ghost u: seq<Seg>) returns (ghost v: seq<Seg>)
    requires st.Valid() && u == st.Table() && OnlyCrowd(u, n) && n < NSYM
    modifies st, st.Repr
    ensures st.Valid() && v == st.Table() && OnlyCrowd(v, n + 1) && fresh(st.Repr - old(st.Repr))
  {
    CrowdLookup(u, n);
    GrowsSelf(u);
    var ok, e;
    ok, e, v := st.Note(Pairs(n, PAIRS), 0, 0, u, u);
    CrowdEntered(u, v, n);
  }

  /** The first name goes into the first segment, also after everything was backed out. */
  lemma EmptyLookup(t: seq<Seg>, name: string)
    requires WellTable(t) && (t != [] ==> t[0].syms == [])
    ensures LookupFrom(t, name, 0) == Vacant(0, ProbeOf(name, 0))
  {
    assert BucketOk(SegAt(t, 0), ProbeOf(name, 0));
  }

  /** The first name goes into the first segment. */
  lemma FreshTable(name: string)
    ensures WellTable([]) && Grows([], []) && LookupFrom([], name, 0).Vacant? && Behind([], name) == At(0, 1) &&
      !Holds([], name)
  {
    assert BucketOk(EmptySeg(), ProbeOf(name, 0));
  }

  lemma ContentsGrow(t: seq<Seg>, u: seq<Seg>, v: seq<Seg>)
    requires WellTable(t) && WellTable(u) && Grows(t, u) && SameContents(u, v)
    ensures Grows(t, v)
  {
    assert Truncated(EmptySeg(), 0) == EmptySeg();
  }

  /** v is u with one more symbol, where lookup had left off, and perhaps more empty segments. */
  ghost predicate EntersAs(u: seq<Seg>, v: seq<Seg>, name: string, ntype: int, value: int)
    requires WellTable(u)
  {
    var w := LookupFrom(u, name, 0);
    && w.Vacant? && w.bucket < |SegAt(u, w.seg).buckets|
    && SameContents(EnteredAt(u, w.seg, Entry(name, ntype, value, w.bucket)), v)
  }

  /** Where nextsym points once the name has been entered. */
  ghost function Behind(u: seq<Seg>, name: string): Mark
    requires WellTable(u) && LookupFrom(u, name, 0).Vacant?
    ensures Behind(u, name).At? && Behind(u, name).off > 0
  {
    var i := LookupFrom(u, name, 0).seg;
    At(i, |SegAt(u, i).syms| + 1)
  }

  lemma SameEntering(u: seq<Seg>, v: seq<Seg>, i: nat, e: Entry)
    requires SameContents(u, v) && e.hash < |SegAt(u, i).buckets| && i < |v|
    ensures SegAt(u, i) == v[i] && SameContents(EnteredAt(u, i, e), EnteredAt(v, i, e))
  {
  }

  lemma SameHolds(u: seq<Seg>, v: seq<Seg>, name: string)
    requires SameContents(u, v)
    ensures Holds(u, name) <==> Holds(v, name)
  {
    if Holds(u, name) {
      var i :| 0 <= i < |u| && Names(u[i], name);
      assert Names(v[i], name);
    }
  }

  /** The table after symfree's work on segment gp. */
  lemma FreedMeans(saved: Mark, t: seq<Seg>, u: seq<Seg>, gp: nat, v: seq<Seg>)
    requires Emptied(t, u, gp) && gp < |t|
    requires var stop := if saved.At? && saved.seg == gp then saved.off else -1;
      v == u[gp := Truncated(t[gp], if 0 <= stop <= |t[gp].syms| then stop else 0)]
    ensures if saved.At? && saved.seg == gp && saved.off <= |t[gp].syms| then GoodMark(t, saved) &&
      v == Restored(t, saved)
            else Emptied(t, v, gp - 1)
  {}

  /** u is t with the segments behind gp emptied. */
  ghost predicate Emptied(t: seq<Seg>, u: seq<Seg>, gp: int) {
    |u| == |t| && forall i :: 0 <= i < |t| ==> u[i] == if i <= gp then t[i] else Truncated(t[i], 0)
  }

  /** What the scan of segment g means for the whole lookup. */
  lemma LookupStep(t: seq<Seg>, name: string, g: nat)
    requires WellTable(t) && g < NSEG && Passed(t, name, 0, g)
    ensures match Scan(SegAt(t, g), name, 0)
      case Hit(b) => LookupFrom(t, name, 0) == Found(g, b)
      case Exhausted => LookupFrom(t, name, 0) == Botch(g)
      case Empty(b) => if Full(SegAt(t, g)) then Passed(t, name, 0, g + 1) else LookupFrom(t, name, 0) == Vacant(g, b)
  {
    LookupPasses(t, name, 0, g);
  }

  lemma VacantPlace(t: seq<Seg>, name: string)
    requires WellTable(t) && LookupFrom(t, name, 0).Vacant?
    ensures var w := LookupFrom(t, name, 0);
      w.seg < NSEG && w.bucket < HSIZE && |SegAt(t, w.seg).syms| < NSYM
  {
    var n := LookupSaw(t, name, 0);
    var k := ScanSaw(SegAt(t, n), name, 0);
  }

  /** u is t with some more segments allocated. */
  ghost predicate SameContents(t: seq<Seg>, u: seq<Seg>) {
    |t| <= |u| && forall i :: 0 <= i < |u| ==> u[i] == SegAt(t, i)
  }

  lemma PadWell(t: seq<Seg>)
    requires WellTable(t) && |t| < NSEG
    ensures WellTable(t + [EmptySeg()])
  {
    var u := t + [EmptySeg()];
    forall i, j | 0 <= i < j < |u| ensures WellSeg(u[i]) && TurnedAway(u, i, j) {
      if j < |t| {
        assert TurnedAway(t, i, j);
      }
    }
  }

  /** Allocating segments changes no lookup. */
  lemma {:induction false} SameLookup(t: seq<Seg>, u: seq<Seg>, name: string, i: nat)
    requires WellTable(t) && WellTable(u) && SameContents(t, u) && i <= NSEG
    ensures LookupFrom(t, name, i) == LookupFrom(u, name, i)
    decreases NSEG - i
  {
    if i < NSEG {
      SameLookup(t, u, name, i + 1);
    }
  }

  lemma PassedFull(t: seq<Seg>, u: seq<Seg>, name: string, g: nat)
    requires WellTable(t) && SameContents(t, u) && Passed(t, name, 0, g) && g <= |u|
    ensures forall i :: 0 <= i < g ==> |u[i].syms| == NSYM
  {
    forall i | 0 <= i < g ensures |u[i].syms| == NSYM { assert Full(SegAt(t, i)); }
  }

  // ---- Names noted one after the other -----------------------------------

  /** Where nextsym is once some names went in, new ones among them or not. */
  ghost predicate LeftAt(start: Mark, mark: Mark, grew: bool) {
    if grew then mark.At? && mark.off > 0 else mark == start
  }

  /** Some of the names is not in the table. */
  ghost predicate SomeNew(t: seq<Seg>, names: seq<string>) {
    exists name :: name in names && !Holds(t, name)
  }

  /** The first i names fitted and made u out of t; grew tells whether any was new. */
  ghost predicate NotedTo(t: seq<Seg>, names: seq<string>, i: nat, u: seq<Seg>, grew: bool)
    requires i <= |names| && WellTable(t)
  {
    Fits(t, names[..i]) && SameContents(Noted(t, names[..i]), u) && (grew <==> SomeNew(t, names[..i]))
  }

  lemma NothingNoted(t: seq<Seg>, names: seq<string>)
    requires WellTable(t)
    ensures NotedTo(t, names, 0, t, false)
  {
    assert names[..0] == [];
  }

  lemma AllNoted(t: seq<Seg>, names: seq<string>, u: seq<Seg>, grew: bool, ok: bool)
    requires WellTable(t) && (ok ==> NotedTo(t, names, |names|, u, grew))
    ensures ok ==> Fits(t, names) && SameContents(Noted(t, names), u) && (grew <==> SomeNew(t, names))
  {
    assert names[..|names|] == names;
  }

  /** One name more; was and u are the tables around it. */
  lemma NotedNext(t: seq<Seg>, names: seq<string>, i: nat, was: seq<Seg>, grew: bool, u: seq<Seg>, ok: bool,
      entered: bool)
    requires WellTable(t) && WellTable(was) && WellTable(u) && i < |names| && NotedTo(t, names, i, was, grew)
    requires ok <==> FitsOne(was, names[i])
    requires ok ==> (entered <==> !Holds(was, names[i]))
    requires ok && !entered ==> SameContents(was, u)
    requires entered ==> EntersAs(was, u, names[i], 0, 0)
    ensures if ok then NotedTo(t, names, i + 1, u, grew || entered) else !Fits(t, names)
  {
    var x := Noted(t, names[..i]);
    SameLookup(x, was, names[i], 0);
    if ok {
      LookupSound(was, names[i]);
      NotedSame(x, was, u, names[i], entered);
      NotedMore(t, names, i);
      NewNext(t, names, i, was, entered);
    }
  }

  lemma NotedSame(x: seq<Seg>, was: seq<Seg>, u: seq<Seg>, name: string, entered: bool)
    requires WellTable(x) && WellTable(was) && SameContents(x, was) &&
      LookupFrom(x, name, 0) == LookupFrom(was, name, 0)
    requires entered <==> LookupFrom(was, name, 0).Vacant?
    requires if entered then EntersAs(was, u, name, 0, 0) else SameContents(was, u)
    ensures SameContents(NotedOne(x, name), u)
  {
    if entered {
      var w := LookupFrom(x, name, 0);
      var e := Entry(name, 0, 0, w.bucket);
      assert SegAt(x, w.seg) == SegAt(was, w.seg);
      var a, b := EnteredAt(x, w.seg, e), EnteredAt(was, w.seg, e);
      forall i | 0 <= i < |u| ensures u[i] == SegAt(a, i) {
        assert u[i] == SegAt(b, i);
      }
    }
  }

  lemma NewNext(t: seq<Seg>, names: seq<string>, i: nat, was: seq<Seg>, entered: bool)
    requires WellTable(t) && i < |names| && Fits(t, names[..i]) && SameContents(Noted(t, names[..i]), was)
    requires entered <==> !Holds(was, names[i])
    ensures SomeNew(t, names[..i + 1]) <==> SomeNew(t, names[..i]) || entered
  {
    var front := names[..i];
    NotedHolds(t, front, names[i]);
    SameHolds(Noted(t, front), was, names[i]);
    OneNewer(t, front, names[i]);
    FrontMore(names, i);
  }

  lemma OneNewer(t: seq<Seg>, front: seq<string>, last: string)
    ensures SomeNew(t, front + [last]) <==> SomeNew(t, front) || !Holds(t, last)
  {
    if name :| name in front && !Holds(t, name) {
      assert name in front + [last];
    }
    assert last in front + [last];
  }

  /** The names in the table after all of them fitted in. */
  lemma NotedNames(t: seq<Seg>, names: seq<string>, u: seq<Seg>)
    requires WellTable(t) && Fits(t, names) && SameContents(Noted(t, names), u)
    ensures forall name :: Holds(u, name) <==> Holds(t, name) || name in names
  {
    forall name ensures Holds(u, name) <==> Holds(t, name) || name in names {
      NotedHolds(t, names, name);
      SameHolds(Noted(t, names), u, name);
    }
  }
}
