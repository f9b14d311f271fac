/**
 The segmented symbol table seen as the sequence of its symbols, which is how the
 passes of ld68 number them: lookup is a search in the sequence, enter appends to it,
 and symfree cuts it at the place nextsym pointed to.
 */
module FlatTable {
  import opened Arithmetic
  import opened LinkerModel
  import opened ProbeSequence
  import opened SymbolHash
  import opened SymbolTable
  import opened LinkerSymbols

  function NamesOf(syms: seq<Entry>): (s: seq<string>)
    ensures |s| == |syms| && forall i :: 0 <= i < |s| ==> s[i] == syms[i].name
  {
    if syms == [] then [] else NamesOf(syms[..|syms| - 1]) + [syms[|syms| - 1].name]
  }

  /** The names in order of entry. */
  function Flat(t: seq<Seg>): seq<string> {
    if t == [] then [] else Flat(t[..|t| - 1]) + NamesOf(t[|t| - 1].syms)
  }

  /** symx: the number of a symbol, or of the place behind one. */
  function Symx(mark: Mark): nat {
    match mark
    case NoSym => 0
    case At(seg, off) => seg * NSYM + off
  }

  // ---- Numbering ---------------------------------------------------------

  lemma Prefix(t: seq<Seg>, i: nat)
    requires WellTable(t) && i <= |t|
    ensures WellTable(t[..i])
  {
    forall j, k | 0 <= j < k < i ensures WellSeg(t[..i][j]) && TurnedAway(t[..i], j, k) {
      assert TurnedAway(t, j, k);
    }
  }

  /** Full segments in front account for NSYM symbols each. */
  lemma {:induction false} FullInFront(t: seq<Seg>, i: nat)
    requires i <= |t| && forall j :: 0 <= j < i ==> Full(t[j])
    ensures |Flat(t[..i])| == i * NSYM
  {
    if i > 0 {
      FullInFront(t, i - 1);
      assert t[..i][..i - 1] == t[..i - 1];
    }
  }

  lemma FrontIsFull(t: seq<Seg>, i: nat)
    requires WellTable(t) && i < |t| && t[i].syms != []
    ensures forall j :: 0 <= j < i ==> Full(t[j])
  {
    forall j | 0 <= j < i ensures Full(t[j]) { assert TurnedAway(t, j, i); }
  }

  /** The symbol in slot s of segment i has number i * NSYM + s. */
  lemma {:induction false} FlatAt(t: seq<Seg>, i: nat, s: nat)
    requires WellTable(t) && i < |t| && s < |t[i].syms|
    ensures i * NSYM + s < |Flat(t)| && Flat(t)[i * NSYM + s] == t[i].syms[s].name
  {
    var n := |t| - 1;
    FrontIsFull(t, i);
    FullInFront(t, i);
    if i < n {
      Prefix(t, n);
      FlatAt(t[..n], i, s);
    }
  }

  /** Every number below the length belongs to a symbol. */
  lemma {:induction false} FlatFrom(t: seq<Seg>, k: nat) returns (i: nat, s: nat)
    requires WellTable(t) && k < |Flat(t)|
    ensures i < |t| && s < |t[i].syms| && k == i * NSYM + s
  {
    var n := |t| - 1;
    Prefix(t, n);
    if k < |Flat(t[..n])| {
      i, s := FlatFrom(t[..n], k);
    } else {
      i, s := n, k - |Flat(t[..n])|;
      FrontIsFull(t, n);
      FullInFront(t, n);
    }
  }

  /** One name, one symbol. */
  lemma SameName(t: seq<Seg>, a: nat, s: nat, b: nat, r: nat)
    requires WellTable(t) && a < |t| && s < |t[a].syms| && b < |t| && r < |t[b].syms|
    requires t[a].syms[s].name == t[b].syms[r].name
    ensures a == b && s == r
  {
    LookupFinds(t, a, s);
    LookupFinds(t, b, r);
    assert SymOk(t[a], s) && SymOk(t[b], r);
  }

  /** Names in the sequence are different. */
  lemma FlatDistinct(t: seq<Seg>, j: nat, k: nat)
    requires WellTable(t) && j < k < |Flat(t)|
    ensures Flat(t)[j] != Flat(t)[k]
  {
    var a, s := FlatFrom(t, j);
    var b, r := FlatFrom(t, k);
    FlatAt(t, a, s);
    FlatAt(t, b, r);
    if t[a].syms[s].name == t[b].syms[r].name {
      SameName(t, a, s, b, r);
    }
  }

  lemma FlatStep(t: seq<Seg>, i: nat)
    requires i < |t|
    ensures Flat(t[..i + 1]) == Flat(t[..i]) + NamesOf(t[i].syms)
  {
    assert t[..i + 1][..i] == t[..i];
  }

  // ---- lookup ------------------------------------------------------------

  /** The passes' table has the same names in the same order. */
  ghost predicate Numbered(table: seq<Sym>, t: seq<Seg>) {
    |table| == |Flat(t)| && forall k :: 0 <= k < |table| ==> table[k].name == Flat(t)[k]
  }

  lemma NumberedDistinct(table: seq<Sym>, t: seq<Seg>)
    requires WellTable(t) && Numbered(table, t)
    ensures LinkerModel.DistinctNames(table)
  {
    forall j, k | 0 <= j < k < |table| ensures table[j].name != table[k].name {
      FlatDistinct(t, j, k);
    }
  }

  /** Searching the sequence is looking up in the segments. */
  lemma FindIsLookup(table: seq<Sym>, t: seq<Seg>, name: string)
    requires WellTable(t) && Numbered(table, t)
    ensures var w := LookupFrom(t, name, 0);
      if w.Found? then w.seg < |t| && w.bucket < |t[w.seg].buckets| &&
        Find(table, name) == w.seg * NSYM + t[w.seg].buckets[w.bucket]
      else Find(table, name) == -1
  {
    var w := LookupFrom(t, name, 0);
    LookupSound(t, name);
    if w.Found? {
      var s := t[w.seg].buckets[w.bucket];
      FlatAt(t, w.seg, s);
      NumberedDistinct(table, t);
      FindIs(table, w.seg * NSYM + s);
    } else {
      AbsentIn(table, t, name);
    }
  }

  lemma AbsentIn(table: seq<Sym>, t: seq<Seg>, name: string)
    requires WellTable(t) && Numbered(table, t) && !Holds(t, name)
    ensures Find(table, name) == -1
  {
    var k := Find(table, name);
    if k >= 0 {
      var i, s := FlatFrom(t, k);
      FlatAt(t, i, s);
      assert SymbolHash.Names(t[i], name);
    }
  }

  // ---- enter -------------------------------------------------------------

  /** Segments without symbols add nothing. */
  lemma {:induction false} FlatPadded(t: seq<Seg>, u: seq<Seg>)
    requires |t| <= |u| && u[..|t|] == t && forall i :: |t| <= i < |u| ==> u[i].syms == []
    ensures Flat(u) == Flat(t)
  {
    if |t| == |u| {
      assert u == t;
    } else {
      var n := |u| - 1;
      assert u[..n][..|t|] == t;
      FlatPadded(t, u[..n]);
      assert Flat(u) == Flat(u[..n]) + [];
    }
  }

  /** One more symbol in the last segment in use. */
  lemma {:induction false} FlatMore(t: seq<Seg>, u: seq<Seg>, i: nat, e: Entry)
    requires |t| == |u| && i < |t| && u[..i] == t[..i] && u[i].syms == t[i].syms + [e]
    requires forall j :: i < j < |t| ==> t[j].syms == u[j].syms == []
    ensures Flat(u) == Flat(t) + [e.name]
  {
    assert t[..i + 1][..i] == t[..i] && u[..i + 1][..i] == u[..i];
    assert t[..i + 1][i] == t[i] && u[..i + 1][i] == u[i];
    FlatPadded(t[..i + 1], t);
    FlatPadded(u[..i + 1], u);
    assert NamesOf(u[i].syms) == NamesOf(t[i].syms) + [e.name];
    assert Flat(u[..i + 1]) == Flat(t[..i]) + (NamesOf(t[i].syms) + [e.name]);
  }

  /** Segments behind the first one with room are empty, also once it is allocated. */
  lemma EmptyBehind(t: seq<Seg>, i: nat)
    requires WellTable(t) && !Full(SegAt(t, i))
    ensures forall j :: i < j < |Padded(t, i)| ==> Padded(t, i)[j].syms == []
    ensures Flat(Padded(t, i)) == Flat(t)
  {
    var p := Padded(t, i);
    forall j | i < j < |p| ensures p[j].syms == [] {
      if j < |t| {
        assert TurnedAway(t, i, j);
      }
    }
    assert p[..|t|] == t;
    FlatPadded(t, p);
  }

  /** The number of the next symbol. */
  lemma NextNumber(p: seq<Seg>, i: nat)
    requires i < |p| && (forall j :: 0 <= j < i ==> Full(p[j])) && (forall j :: i < j < |p| ==> p[j].syms == [])
    ensures |Flat(p)| == i * NSYM + |p[i].syms|
  {
    FullInFront(p, i);
    FlatStep(p, i);
    FlatPadded(p[..i + 1], p);
  }

  /** enter gives the symbol the next number. */
  lemma EnterAppends(t: seq<Seg>, e: Entry)
    requires WellTable(t) && LookupFrom(t, e.name, 0).Vacant? && LookupFrom(t, e.name, 0).bucket == e.hash
    ensures var i := LookupFrom(t, e.name, 0).seg;
      && e.hash < |SegAt(t, i).buckets| && Flat(EnteredAt(t, i, e)) == Flat(t) + [e.name]
      && Symx(At(i, |SegAt(t, i).syms| + 1)) == |Flat(t)| + 1
  {
    var i := LookupSaw(t, e.name, 0);
    var k := ScanSaw(SegAt(t, i), e.name, 0);
    forall j | 0 <= j < i ensures Full(SegAt(t, j)) {
    }
    EnteredFlat(t, i, e);
  }

  lemma EnteredFlat(t: seq<Seg>, i: nat, e: Entry)
    requires WellTable(t) && !Full(SegAt(t, i)) && e.hash < |SegAt(t, i).buckets|
    requires forall j :: 0 <= j < i ==> Full(SegAt(t, j))
    ensures Flat(EnteredAt(t, i, e)) == Flat(t) + [e.name] && Symx(At(i, |SegAt(t, i).syms| + 1)) == |Flat(t)| + 1
  {
    var p, u := Padded(t, i), EnteredAt(t, i, e);
    EmptyBehind(t, i);
    assert u[..i] == p[..i];
    FlatMore(p, u, i, e);
    forall j | 0 <= j < i ensures Full(p[j]) { assert Full(SegAt(t, j)); }
    NextNumber(p, i);
  }

  // ---- symfree -----------------------------------------------------------

  /** A place behind a symbol of the table is one whose number is not beyond its length. */
  lemma GoodMarkIff(t: seq<Seg>, mark: Mark)
    requires WellTable(t) && (mark.At? ==> 0 < mark.off <= NSYM)
    ensures GoodMark(t, mark) <==> Symx(mark) <= |Flat(t)|
  {
    if mark.At? {
      if GoodMark(t, mark) {
        FlatAt(t, mark.seg, mark.off - 1);
      } else if Symx(mark) <= |Flat(t)| {
        var i, s := FlatFrom(t, Symx(mark) - 1);
        SamePlace(mark.seg, mark.off - 1, i, s);
      }
    }
  }

  lemma SamePlace(a: nat, r: nat, b: nat, s: nat)
    requires r < NSYM && s < NSYM && a * NSYM + r == b * NSYM + s
    ensures a == b && r == s
  {
    var x := a * NSYM + r;
    DivisionIsUnique(x, NSYM, a, r);
    DivisionIsUnique(x, NSYM, b, s);
  }

  lemma {:induction false} NamesPrefix(syms: seq<Entry>, n: nat)
    requires n <= |syms|
    ensures NamesOf(syms[..n]) == NamesOf(syms)[..n]
  {
  }

  /** symfree cuts the sequence at the place saved. */
  lemma FreeCuts(t: seq<Seg>, mark: Mark)
    requires WellTable(t) && GoodMark(t, mark) && (mark.At? ==> mark.off > 0)
    ensures Symx(mark) <= |Flat(t)| && Flat(Restored(t, mark)) == Flat(t)[..Symx(mark)]
  {
    var r := Restored(t, mark);
    if mark.NoSym? {
      FlatPadded([], r);
    } else {
      FlatAt(t, mark.seg, mark.off - 1);
      CutFlat(t, r, mark.seg, mark.off);
    }
  }

  lemma CutFlat(t: seq<Seg>, r: seq<Seg>, i: nat, off: nat)
    requires WellTable(t) && |r| == |t| && i < |t| && 0 < off <= |t[i].syms|
    requires r[..i] == t[..i] && r[i].syms == t[i].syms[..off] && forall j :: i < j < |r| ==> r[j].syms == []
    requires i * NSYM + off <= |Flat(t)|
    ensures Flat(r) == Flat(t)[..i * NSYM + off]
  {
    FrontIsFull(t, i);
    FullInFront(t, i);
    FlatStep(t, i);
    FlatStep(r, i);
    FlatPadded(r[..i + 1], r);
    FlatGrows(t, i + 1);
    NamesPrefix(t[i].syms, off);
  }

  lemma {:induction false} FlatGrows(t: seq<Seg>, i: nat)
    requires i <= |t|
    ensures Flat(t[..i]) <= Flat(t)
  {
    if i == |t| {
      assert t[..i] == t;
    } else {
      var n := |t| - 1;
      assert t[..n][..i] == t[..i];
      FlatGrows(t[..n], i);
    }
  }

  /** nextsym is behind the newest symbol exactly when its number is the number of symbols. */
  lemma FreshIff(t: seq<Seg>, mark: Mark)
    requires WellTable(t) && GoodMark(t, mark) && (mark.At? ==> mark.off > 0)
    ensures MarkOf(t, mark) <==> Symx(mark) == |Flat(t)|
  {
    if MarkOf(t, mark) {
      BehindNewest(t, mark);
    } else if mark.NoSym? {
      var i :| 0 <= i < |t| && t[i].syms != [];
      FlatAt(t, i, 0);
    } else if mark.off < |t[mark.seg].syms| {
      FlatAt(t, mark.seg, mark.off);
    } else {
      var i :| mark.seg < i < |t| && t[i].syms != [];
      FlatAt(t, i, 0);
      FrontIsFull(t, i);
      assert i * NSYM >= (mark.seg + 1) * NSYM;
    }
  }

  lemma BehindNewest(t: seq<Seg>, mark: Mark)
    requires WellTable(t) && MarkOf(t, mark)
    ensures Symx(mark) == |Flat(t)|
  {
    if mark.NoSym? {
      FlatPadded([], t);
    } else {
      var i := mark.seg;
      FrontIsFull(t, i);
      FullInFront(t, i);
      FlatPadded(t[..i + 1], t);
      assert t[..i + 1][..i] == t[..i];
    }
  }
}
