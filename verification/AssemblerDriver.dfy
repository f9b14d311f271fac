/**
 as68 from source statements to words: pass 1, the relaxation between the passes,
 and pass 2, on one symbol table and one list of span-dependent branches.
 */
module AssemblerDriver {
  import opened SpanModel
  import opened SpanTheory
  import opened SpanRelaxation
  import opened AssemblerPasses
  import opened BranchCode

  /** Every name is a number below the size of the symbol table. */
  ghost predicate NamesBelow(prog: seq<Stmt>, names: nat) {
    forall i :: 0 <= i < |prog| ==>
      (prog[i].Label? ==> prog[i].name < names) && (prog[i].Branch? ==> prog[i].target < names)
  }

  /** The descriptor of branch j as it stands once the first n statements have been read. */
  function RecordSoFar(prog: seq<Stmt>, j: nat, n: nat): SdiRec
    requires GoodProgram(prog) && j < |prog| && prog[j].Branch? && n <= |prog|
  {
    Record(prog, j).(sym := SymbolAt(prog, prog[j].target, n))
  }

  lemma {:induction false} InsertPosByLoc(L: seq<SdiRec>, M: seq<SdiRec>, loc: int)
    requires |L| == |M| && forall i :: 0 <= i < |L| ==> L[i].loc == M[i].loc
    ensures InsertPos(L, loc) == InsertPos(M, loc)
  {
    if L != [] {
      InsertPosByLoc(L[1..], M[1..], loc);
    }
  }

  ghost function RecOf(p: Symbol): SymRec
    reads p
  {
    SymRec(p.section, p.defined, p.value)
  }

  lemma SameSymbol(prog: seq<Stmt>, name: nat, n: nat, next: nat)
    requires GoodProgram(prog) && n < |prog| && next == n + 1 && !prog[n].Label?
    ensures SymbolAt(prog, name, next) == SymbolAt(prog, name, n)
  {
  }

  class Assembler {
    const symbols: seq<Symbol>
    const sdis: SdiTable
    var section: nat
    var dots: seq<int>

    ghost function Here(): Layout
      reads this
    {
      Layout(section, dots)
    }

    ghost predicate Distinct() {
      forall i, j :: 0 <= i < j < |symbols| ==> symbols[i] != symbols[j]
    }

    /** Every symbol is as the first n statements leave it. */
    ghost predicate SymbolsAt(prog: seq<Stmt>, n: nat)
      reads symbols
      requires GoodProgram(prog) && n <= |prog|
    {
      forall name :: 0 <= name < |symbols| ==> RecOf(symbols[name]) == SymbolAt(prog, name, n)
    }

    /** Descriptor i belongs to its branch and to its branch's symbol. */
    ghost predicate BranchAt(prog: seq<Stmt>, n: nat, i: nat)
      reads sdis, sdis.list, symbols
      requires GoodProgram(prog) && NamesBelow(prog, |symbols|) && n <= |prog|
      requires i < |sdis.list| == |Order(prog, n)|
    {
      var j := Order(prog, n)[i];
      && sdis.list[i].sym == symbols[prog[j].target]
      && sdis.list[i].Rec() == RecordSoFar(prog, j, n)
    }

    ghost predicate ReadSoFar(prog: seq<Stmt>, n: nat)
      reads this, sdis, sdis.list, symbols
      requires GoodProgram(prog) && NamesBelow(prog, |symbols|) && n <= |prog|
    {
      && Distinct() && sdis.Valid() && Here() == Pass1(prog, n) && SymbolsAt(prog, n)
      && AllBranches(prog, n)
    }

    ghost predicate AllBranches(prog: seq<Stmt>, n: nat)
      reads sdis, sdis.list, symbols
      requires GoodProgram(prog) && NamesBelow(prog, |symbols|) && n <= |prog|
    {
      |sdis.list| == |Order(prog, n)| && forall i :: 0 <= i < |sdis.list| ==> BranchAt(prog, n, i)
    }

    constructor (names: nat, ghost prog: seq<Stmt>)
      requires GoodProgram(prog) && NamesBelow(prog, names)
      ensures |symbols| == names && ReadSoFar(prog, 0) && fresh(sdis) && fresh(symbols) && sdis.list == []
    {
      var buckets: seq<Symbol> := [];
      while |buckets| < names
        invariant |buckets| <= names && fresh(buckets)
        invariant forall i, j :: 0 <= i < j < |buckets| ==> buckets[i] != buckets[j]
        invariant forall i :: 0 <= i < |buckets| ==> RecOf(buckets[i]) == UNDEFINED
      {
        var p := new Symbol(0, false, 0);
        buckets := buckets + [p];
      }
      symbols := buckets;
      sdis := new SdiTable();
      section, dots := TEXT, [0, 0, 0, 0, 0, 0];
    }

    method SetLabel(name: nat)
      requires name < |symbols| && Distinct() && section < |dots|
      modifies symbols[name]
      ensures forall m :: 0 <= m < |symbols| ==>
        RecOf(symbols[m]) == if m == name then SymRec(section, true, dots[section]) else old(RecOf(symbols[m]))
    {
      var p := symbols[name];
      p.section, p.defined, p.value := section, true, dots[section];
    }

    /** A label takes the current location. */
    method DefineLabel(name: nat, ghost prog: seq<Stmt>, ghost n: nat)
      requires GoodProgram(prog) && NamesBelow(prog, |symbols|) && n < |prog| && prog[n] == Label(name)
      requires ReadSoFar(prog, n)
      modifies symbols[name]
      ensures ReadSoFar(prog, n + 1)
    {
      SetLabel(name);
      assert Pass1(prog, n + 1).dots == dots;
      ghost var next := n + 1;
      forall i | 0 <= i < |sdis.list| ensures BranchAt(prog, next, i) {
        assert old(BranchAt(prog, n, i));
        assert RecOf(sdis.list[i].sym) == SymbolAt(prog, prog[Order(prog, n)[i]].target, next);
      }
    }

    /** The place of a branch in the list follows from the places of the branches before. */
    lemma PlaceKnown(prog: seq<Stmt>, n: nat)
      requires GoodProgram(prog) && NamesBelow(prog, |symbols|) && n < |prog| && prog[n].Branch?
      requires ReadSoFar(prog, n)
      ensures dots[section] == Record(prog, n).loc
      ensures InsertPos(Snapshot(sdis.list), dots[section]) ==
        InsertPos(Records(prog, Order(prog, n)), Record(prog, n).loc)
    {
      var L, o := Snapshot(sdis.list), Order(prog, n);
      forall i | 0 <= i < |L| ensures L[i].loc == Records(prog, o)[i].loc {
        assert BranchAt(prog, n, i);
      }
      InsertPosByLoc(L, Records(prog, o), dots[section]);
    }

    /** makesdi for branch n; k is where its descriptor went. */
    method Describe(target: nat, cc: nat, ghost prog: seq<Stmt>, ghost n: nat) returns (length: int, ghost k: nat)
      requires GoodProgram(prog) && NamesBelow(prog, |symbols|) && n < |prog| && prog[n] == Branch(target, cc)
      requires ReadSoFar(prog, n)
      modifies sdis
      ensures length == SHORTEST && sdis.Valid() && k == InsertPos(Records(prog, Order(prog, n)), Record(prog, n).loc)
      ensures |sdis.list| == |old(sdis.list)| + 1 && fresh(sdis.list[k]) && OwnedBy(sdis.list[k], prog, n, n)
      ensures sdis.list == old(sdis.list)[..k] + [sdis.list[k]] + old(sdis.list)[k..]
    {
      var dot := dots[section];
      PlaceKnown(prog, n);
      length, k := sdis.MakeSdi(section, dot, symbols[target], if cc >= 2 then 8 else 6, dot + 2, BOUNDS);
    }

    /** The descriptor of branch n, linked in at its place. */
    method LinkBranch(target: nat, cc: nat, ghost prog: seq<Stmt>, ghost n: nat) returns (length: int)
      requires GoodProgram(prog) && NamesBelow(prog, |symbols|) && n < |prog| && prog[n] == Branch(target, cc)
      requires ReadSoFar(prog, n)
      modifies sdis
      ensures length == SHORTEST && sdis.Valid() && AllBranches(prog, n + 1)
      ensures forall s :: s in sdis.list ==> s in old(sdis.list) || fresh(s)
    {
      ghost var was := sdis.list;
      ghost var k;
      AllOwned(prog, n);
      length, k := Describe(target, cc, prog, n);
      Linked(prog, n, n + 1, was, k);
    }

    /** jbrnch and cbrnch on pass 1: a descriptor in its shortest form. */
    method NoteBranch(target: nat, cc: nat, ghost prog: seq<Stmt>, ghost n: nat)
      requires GoodProgram(prog) && NamesBelow(prog, |symbols|) && n < |prog| && prog[n] == Branch(target, cc)
      requires ReadSoFar(prog, n)
      modifies this`dots, sdis
      ensures ReadSoFar(prog, n + 1)
      ensures forall s :: s in sdis.list ==> s in old(sdis.list) || fresh(s)
    {
      var length := LinkBranch(target, cc, prog, n);
      dots := dots[section := dots[section] + length];
      assert Here() == Pass1(prog, n + 1);
    }

    /** The descriptor belongs to branch j. */
    ghost predicate OwnedBy(s: Sdi, prog: seq<Stmt>, n: nat, j: nat)
      reads s, s.sym
      requires GoodProgram(prog) && NamesBelow(prog, |symbols|) && n <= |prog| && j < |prog| && prog[j].Branch?
    {
      s.sym == symbols[prog[j].target] && s.Rec() == RecordSoFar(prog, j, n)
    }

    lemma AllOwned(prog: seq<Stmt>, n: nat)
      requires GoodProgram(prog) && NamesBelow(prog, |symbols|) && n <= |prog| && AllBranches(prog, n)
      ensures forall i :: 0 <= i < |sdis.list| ==> OwnedBy(sdis.list[i], prog, n, Order(prog, n)[i])
    {
      forall i | 0 <= i < |sdis.list| ensures OwnedBy(sdis.list[i], prog, n, Order(prog, n)[i]) {
        assert BranchAt(prog, n, i);
      }
    }

    /** Linking branch n's descriptor in at its place keeps every descriptor with its branch. */
    lemma Linked(prog: seq<Stmt>, n: nat, next: nat, was: seq<Sdi>, k: nat)
      requires GoodProgram(prog) && NamesBelow(prog, |symbols|) && n < |prog| && prog[n].Branch? && next == n + 1
      requires var o := Order(prog, n);
        |was| == |o| && k == InsertPos(Records(prog, o), Record(prog, n).loc)
        && forall i :: 0 <= i < |was| ==> OwnedBy(was[i], prog, n, o[i])
      requires |sdis.list| == |was| + 1 && sdis.list == was[..k] + [sdis.list[k]] + was[k..]
      requires OwnedBy(sdis.list[k], prog, n, n)
      ensures AllBranches(prog, next)
    {
      ghost var o, u := Order(prog, n), Order(prog, next);
      assert u == o[..k] + [n] + o[k..];
      forall i | 0 <= i < |sdis.list| ensures OwnedBy(sdis.list[i], prog, n, u[i]) {
        InsertedIndex(was, k, sdis.list[k], i);
        InsertedIndex(o, k, n, i);
      }
      forall i | 0 <= i < |sdis.list| ensures BranchAt(prog, next, i) {
        assert OwnedBy(sdis.list[i], prog, n, u[i]);
        SameSymbol(prog, prog[u[i]].target, n, next);
      }
    }

    /** The location counter moves behind a statement, whose length matters for branches only. */
    method Move(s: Stmt, length: int)
      requires Placed(Here()) && (s.Segment? ==> TEXT <= s.section <= BSS)
      modifies this`section, this`dots
      ensures Here() == Next(old(Here()), s, length)
    {
      match s {
        case Segment(c) => section := c;
        case Label(_) => assert dots[section := dots[section] + 0] == dots;
        case Even =>
          if dots[section] % 2 != 0 {
            dots := dots[section := dots[section] + 1];
          } else {
            assert dots[section := dots[section] + 0] == dots;
          }
        case Emit(size) => dots := dots[section := dots[section] + size];
        case Branch(_, _) => dots := dots[section := dots[section] + length];
      }
    }

    /** A statement that is neither a label nor a branch. */
    method Advance(s: Stmt, ghost prog: seq<Stmt>, ghost n: nat)
      requires GoodProgram(prog) && NamesBelow(prog, |symbols|) && n < |prog| && prog[n] == s
      requires ReadSoFar(prog, n) && !s.Label? && !s.Branch?
      modifies this`section, this`dots
      ensures ReadSoFar(prog, n + 1)
    {
      Move(s, SHORTEST);
      assert Here() == Pass1(prog, n + 1) && AllBranches(prog, n);
      Advanced(prog, n, n + 1);
    }

    lemma Advanced(prog: seq<Stmt>, n: nat, next: nat)
      requires GoodProgram(prog) && NamesBelow(prog, |symbols|) && n < |prog| && next == n + 1
      requires !prog[n].Label? && !prog[n].Branch? && AllBranches(prog, n)
      requires Distinct() && sdis.Valid() && Here() == Pass1(prog, next) && SymbolsAt(prog, n)
      ensures ReadSoFar(prog, next)
    {
      Unmoved(prog, n, next);
    }

    lemma Unmoved(prog: seq<Stmt>, n: nat, next: nat)
      requires GoodProgram(prog) && NamesBelow(prog, |symbols|) && n < |prog| && next == n + 1
      requires !prog[n].Label? && !prog[n].Branch? && AllBranches(prog, n)
      ensures AllBranches(prog, next)
    {
      AllOwned(prog, n);
      forall i | 0 <= i < |sdis.list| ensures BranchAt(prog, next, i) {
        assert OwnedBy(sdis.list[i], prog, n, Order(prog, n)[i]);
        SameSymbol(prog, prog[Order(prog, n)[i]].target, n, next);
      }
    }

    /** One statement of pass 1. */
    method ReadOne(prog: seq<Stmt>, n: nat)
      requires GoodProgram(prog) && NamesBelow(prog, |symbols|) && n < |prog| && ReadSoFar(prog, n)
      modifies this`section, this`dots, sdis, symbols
      ensures ReadSoFar(prog, n + 1) && forall s :: s in sdis.list ==> s in old(sdis.list) || fresh(s)
    {
      match prog[n] {
        case Label(name) => DefineLabel(name, prog, n);
        case Branch(target, cc) => NoteBranch(target, cc, prog, n);
        case _ => Advance(prog[n], prog, n);
      }
    }

    /** Pass 1 over the whole program. */
    method PassOne(prog: seq<Stmt>)
      requires GoodProgram(prog) && NamesBelow(prog, |symbols|) && ReadSoFar(prog, 0) && sdis.list == []
      modifies this`section, this`dots, sdis, symbols
      ensures ReadSoFar(prog, |prog|) && forall s :: s in sdis.list ==> fresh(s)
    {
      var n := 0;
      while n < |prog|
        invariant 0 <= n <= |prog| && ReadSoFar(prog, n) && forall s :: s in sdis.list ==> fresh(s)
      {
        ReadOne(prog, n);
        n := n + 1;
      }
    }

    lemma ListComplete(prog: seq<Stmt>)
      requires GoodProgram(prog) && NamesBelow(prog, |symbols|) && AllBranches(prog, |prog|)
      ensures Snapshot(sdis.list) == SdiList(prog)
    {
      AllOwned(prog, |prog|);
      forall i | 0 <= i < |sdis.list| ensures sdis.list[i].Rec() == SdiList(prog)[i] {
        assert OwnedBy(sdis.list[i], prog, |prog|, Order(prog, |prog|)[i]);
      }
    }

    /** The relaxation between the passes. */
    method Relax(prog: seq<Stmt>) returns (ghost L: seq<SdiRec>)
      requires GoodProgram(prog) && NamesBelow(prog, |symbols|) && ReadSoFar(prog, |prog|)
      modifies set s | s in sdis.list
      ensures sdis.list == old(sdis.list) && L == Snapshot(sdis.list) && ResolvedFor(prog, L)
      ensures HasForms(L) && Sorted(L) && L == RelaxedList(prog)
    {
      ListComplete(prog);
      PassOneInitial(prog);
      sdis.SdiResolve();
      L := Snapshot(sdis.list);
    }

    /** The size of a csect after the relaxation, long aligned. */
    method SizeOf(c: nat, prog: seq<Stmt>, ghost L: seq<SdiRec>) returns (size: int)
      requires GoodProgram(prog) && dots == Pass1(prog, |prog|).dots && c <= BSS
      requires L == Snapshot(sdis.list) && HasForms(L) && Sorted(L)
      ensures size == SectionSize(prog, L, c)
    {
      var inc := sdis.SdiInc(c, dots[c]);
      size := LongAligned(dots[c] + inc);
    }

    /** End: where each csect starts in the output. */
    method CsectOrigins(prog: seq<Stmt>, ghost L: seq<SdiRec>) returns (t: int, d: int, d1: int, d2: int)
      requires GoodProgram(prog) && dots == Pass1(prog, |prog|).dots
      requires L == Snapshot(sdis.list) && HasForms(L) && Sorted(L)
      ensures Stacked(t, d, d1, d2) == Origins(prog, L)
    {
      t := SizeOf(TEXT, prog, L);
      d := SizeOf(DATA, prog, L);
      d1 := SizeOf(DATA1, prog, L);
      d2 := SizeOf(DATA2, prog, L);
    }

    /** Every symbol has its final value. */
    ghost predicate SymbolsFixed(prog: seq<Stmt>, L: seq<SdiRec>)
      reads symbols
      requires GoodProgram(prog) && HasForms(L)
    {
      forall name :: 0 <= name < |symbols| ==> SymbolFixed(prog, L, name)
    }

    ghost predicate SymbolFixed(prog: seq<Stmt>, L: seq<SdiRec>, name: nat)
      reads symbols
      requires GoodProgram(prog) && HasForms(L) && name < |symbols|
    {
      var sym := SymbolAt(prog, name, |prog|);
      && sym.section <= BSS
      && symbols[name].section == sym.section && symbols[name].defined == sym.defined
      && symbols[name].value == FixedValue(L, Origins(prog, L), sym)
    }

    /** From the end of pass 1 to the start of pass 2. */
    method Between(prog: seq<Stmt>) returns (origins: seq<int>, ghost L: seq<SdiRec>)
      requires GoodProgram(prog) && NamesBelow(prog, |symbols|) && ReadSoFar(prog, |prog|)
      modifies sdis.list, symbols
      ensures ResolvedFor(prog, L) && HasForms(L) && origins == Origins(prog, L) && SymbolsFixed(prog, L)
      ensures L == RelaxedList(prog)
    {
      L := Relax(prog);
      origins := Locate(prog, L);
    }

    /** The origins of the csects and the final values of the symbols. */
    method Locate(prog: seq<Stmt>, ghost L: seq<SdiRec>) returns (origins: seq<int>)
      requires GoodProgram(prog) && NamesBelow(prog, |symbols|) && Distinct() && SymbolsAt(prog, |prog|)
      requires dots == Pass1(prog, |prog|).dots && L == Snapshot(sdis.list) && HasForms(L) && Sorted(L)
      modifies symbols
      ensures origins == Origins(prog, L) && SymbolsFixed(prog, L)
    {
      var t, d, d1, d2 := CsectOrigins(prog, L);
      origins := Stacked(t, d, d1, d2);
      FixSymbols(prog, t, d, d1, d2, L);
    }

    /** Sym_Fix with the sizes of the csects. */
    method FixSymbols(ghost prog: seq<Stmt>, t: int, d: int, d1: int, d2: int, ghost L: seq<SdiRec>)
      requires GoodProgram(prog) && NamesBelow(prog, |symbols|) && Distinct() && SymbolsAt(prog, |prog|)
      requires L == Snapshot(sdis.list) && HasForms(L) && Sorted(L) && Stacked(t, d, d1, d2) == Origins(prog, L)
      modifies symbols
      ensures SymbolsFixed(prog, L)
    {
      ghost var values := seq(|symbols|, i requires 0 <= i < |symbols| reads symbols => RecOf(symbols[i]));
      sdis.SymFix(symbols, t, d, d1, d2);
      forall name | 0 <= name < |symbols| ensures SymbolFixed(prog, L, name) {
        SymbolSection(prog, name, |prog|);
        assert symbols[name] in symbols && values[name] == SymbolAt(prog, name, |prog|);
      }
    }

    /** Pass 2 for the branch at statement n, which picks its form from the final addresses. */
    method EmitBranch(target: nat, cc: nat, ghost prog: seq<Stmt>, ghost L: seq<SdiRec>, ghost n: nat)
      returns (words: seq<int>, length: int, refused: bool)
      requires GoodProgram(prog) && NamesBelow(prog, |symbols|) && n < |prog| && prog[n] == Branch(target, cc)
      requires HasForms(L) && SymbolsFixed(prog, L) && Here() == Pass2(prog, L, Origins(prog, L), n)
      ensures length == ChosenLength(prog, L, Origins(prog, L), Here(), n)
      ensures refused <==> Refused(prog, L, n)
      ensures BranchLands(prog, L, n, words)
    {
      assert SymbolFixed(prog, L, target);
      var p := symbols[target];
      var o := Operand(p.value, p.defined && p.section == section);
      var coder := new Coder(dots[section]);
      if cc >= 2 {
        coder.Cbrnch(Opcode(cc), o);
      } else {
        coder.Jbrnch(Opcode(cc), if cc == 0 then JMP else JSR, o);
      }
      words, length, refused := coder.wcode[..], coder.length, coder.errors != [];
    }

    /** Pass 2 over the whole program, with the words of every branch by statement. */
    method PassTwo(prog: seq<Stmt>, origins: seq<int>, ghost L: seq<SdiRec>)
      returns (code: seq<seq<int>>, refused: seq<bool>)
      requires GoodProgram(prog) && NamesBelow(prog, |symbols|)
      requires HasForms(L) && origins == Origins(prog, L) && SymbolsFixed(prog, L)
      modifies this`section, this`dots
      ensures Here() == Pass2(prog, L, origins, |prog|) && |code| == |refused| == |prog|
      ensures forall n :: 0 <= n < |prog| ==> StmtCoded(prog, L, n, code[n], refused[n])
    {
      section, dots, code, refused := TEXT, origins, [], [];
      var n := 0;
      while n < |prog|
        invariant 0 <= n <= |prog| && Here() == Pass2(prog, L, origins, n) && |code| == |refused| == n
        invariant SymbolsFixed(prog, L)
        invariant forall m :: 0 <= m < n ==> StmtCoded(prog, L, m, code[m], refused[m])
      {
        var words, bad := PassTwoStep(prog, L, n);
        code, refused := code + [words], refused + [bad];
        n := n + 1;
      }
    }

    /** One statement of pass 2. */
    method PassTwoStep(prog: seq<Stmt>, ghost L: seq<SdiRec>, n: nat) returns (words: seq<int>, refused: bool)
      requires GoodProgram(prog) && NamesBelow(prog, |symbols|) && n < |prog|
      requires HasForms(L) && SymbolsFixed(prog, L) && Here() == Pass2(prog, L, Origins(prog, L), n)
      modifies this`section, this`dots
      ensures Here() == Pass2(prog, L, Origins(prog, L), n + 1)
      ensures StmtCoded(prog, L, n, words, refused)
    {
      words, refused := [], false;
      var length := 0;
      if prog[n].Branch? {
        words, length, refused := EmitBranch(prog[n].target, prog[n].cc, prog, L, n);
      }
      Move(prog[n], length);
    }
  }

  /** The opcode word of a branch on condition cc. */
  function Opcode(cc: nat): (opr: int)
    ensures opr % 256 == 0 && opr / 256 - 0x60 == cc
    ensures 2 <= cc < 16 ==> 0x6200 <= opr < 0x7000
  {
    0x6000 + 0x100 * cc
  }

  /** Final value of the label of branch n. */
  ghost function TargetValue(prog: seq<Stmt>, L: seq<SdiRec>, n: nat): int
    requires GoodProgram(prog) && n < |prog| && prog[n].Branch? && HasForms(L)
  {
    SymbolSection(prog, prog[n].target, |prog|);
    FixedValue(L, Origins(prog, L), SymbolAt(prog, prog[n].target, |prog|))
  }

  /** Where pass 2 puts statement n. */
  ghost function PlaceOf(prog: seq<Stmt>, L: seq<SdiRec>, n: nat): int
    requires GoodProgram(prog) && n <= |prog| && HasForms(L)
  {
    Dot(Pass2(prog, L, Origins(prog, L), n))
  }

  ghost function LengthOf(prog: seq<Stmt>, L: seq<SdiRec>, n: nat): int
    requires GoodProgram(prog) && n < |prog| && prog[n].Branch? && HasForms(L)
  {
    ChosenLength(prog, L, Origins(prog, L), Pass2(prog, L, Origins(prog, L), n), n)
  }

  /** A jbsr to the next instruction of its own csect, which brnchs refuses. */
  ghost predicate Refused(prog: seq<Stmt>, L: seq<SdiRec>, n: nat)
    requires GoodProgram(prog) && n < |prog| && prog[n].Branch? && HasForms(L)
  {
    var sym := SymbolAt(prog, prog[n].target, |prog|);
    && prog[n].cc == 1 && sym.defined && sym.section == Pass2(prog, L, Origins(prog, L), n).section
    && TargetValue(prog, L, n) == PlaceOf(prog, L, n) + 2
  }

  /**
   The words of a branch, run where pass 2 put them: a jump goes to its label's final
   value, a call too and comes back behind itself, and a conditional jump does so as
   its condition says, but for where the eight-byte form lands.
   */
  ghost predicate BranchLands(prog: seq<Stmt>, L: seq<SdiRec>, n: nat, words: seq<int>)
    requires GoodProgram(prog) && n < |prog| && prog[n].Branch? && HasForms(L)
  {
    var value, dot, length, cc := TargetValue(prog, L, n), PlaceOf(prog, L, n), LengthOf(prog, L, n), prog[n].cc;
    && |words| == 4
    && (cc < 2 && 0 <= value < 0x1_0000_0000 && !Refused(prog, L, n) ==>
          forall holds :: Step(words, dot, holds) == if cc == 0 then Goto(value) else Call(value, dot + length))
    && (cc >= 2 ==> forall holds :: Opposites(holds) ==>
          Run(words, dot, length, holds) == Goto(ConditionalTarget(Opcode(cc), value, dot, length, holds)))
  }

  ghost predicate StmtCoded(prog: seq<Stmt>, L: seq<SdiRec>, n: nat, words: seq<int>, refused: bool)
    requires GoodProgram(prog) && n < |prog| && HasForms(L)
  {
    if prog[n].Branch? then BranchLands(prog, L, n, words) && (refused <==> Refused(prog, L, n))
    else words == [] && !refused
  }

  /** The assembler from end to end. */
  method Assemble(prog: seq<Stmt>, names: nat) returns (code: seq<seq<int>>, refused: seq<bool>, ghost L: seq<SdiRec>)
    requires GoodProgram(prog) && NamesBelow(prog, names)
    ensures L == RelaxedList(prog) && Least(StartList(prog), L) && |code| == |refused| == |prog|
    ensures forall n :: 0 <= n < |prog| ==> StmtCoded(prog, L, n, code[n], refused[n])
  {
    var asm := new Assembler(names, prog);
    asm.PassOne(prog);
    assert forall i :: 0 <= i < |asm.sdis.list| ==> asm.sdis.list[i] in asm.sdis.list;
    var origins;
    origins, L := asm.Between(prog);
    ResolvedLeast(StartList(prog), L);
    code, refused := asm.PassTwo(prog, origins, L);
  }

  /**
   Unless a branch was left at the 16-bit edge, every jump in the output goes to the
   place where pass 2 put the statement its label is on: jumps and calls always, and
   conditional jumps of two and four bytes when the condition holds.
   */
  lemma JumpsReachLabels(prog: seq<Stmt>, L: seq<SdiRec>, words: seq<int>, n: nat, l: nat, holds: nat -> bool)
    requires GoodProgram(prog) && ResolvedFor(prog, L) && HasForms(L)
    requires forall k :: 0 <= k < |L| ==> !Edge(L, k)
    requires n < |prog| && prog[n].Branch? && BranchLands(prog, L, n, words) && !Refused(prog, L, n)
    requires l < |prog| && prog[l] == Label(prog[n].target)
    requires 0 <= PlaceOf(prog, L, l) < 0x1_0000_0000 && Opposites(holds)
    ensures |words| == 4
    ensures var dot, length, dest, cc := PlaceOf(prog, L, n), LengthOf(prog, L, n), PlaceOf(prog, L, l), prog[n].cc;
      && (cc == 0 ==> Step(words, dot, holds) == Goto(dest))
      && (cc == 1 ==> Step(words, dot, holds) == Call(dest, dot + length))
      && (cc >= 2 && length < 8 ==> Run(words, dot, length, holds) == Goto(if holds(cc) then dest else dot + length))
      && (cc >= 2 && length == 8 ==>
            Run(words, dot, length, holds) == Goto(if holds(cc) then dot + 4 + SignedWord(dest / WORD) else dot + 8))
  {
    LabelsStay(prog, L, Origins(prog, L), l);
  }

  /** A call of the next instruction is relaxed to two bytes, and then refused. */
  lemma CallNextExample(L: seq<SdiRec>)
    requires GoodProgram([Branch(0, 1), Label(0)])
    requires ResolvedFor([Branch(0, 1), Label(0)], L) && HasForms(L)
    ensures |L| == 1 && L[0].leng == 2 && Refused([Branch(0, 1), Label(0)], L, 0)
  {
    var prog := [Branch(0, 1), Label(0)];
    assert Pass1(prog, 0) == Layout(TEXT, [0, 0, 0, 0, 0, 0]);
    assert Pass1(prog, 1) == Layout(TEXT, [0, 2, 0, 0, 0, 0]);
    assert SymbolAt(prog, 0, 2) == SymRec(TEXT, true, 2);
    assert Order(prog, 1) == [0];
    assert Order(prog, 2) == [0];
    ResolvedAt(prog, L, 0);
    assert RecOk(L, 0);
    FormOfBounds(6, L[0].span);
    assert IncTo(L, TEXT, 2, 1) == IncTo(L, TEXT, 2, 0) + L[0].Extra();
    assert IncTo(L, TEXT, 0, 1) == 0;
  }
}
