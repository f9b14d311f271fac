/**
 The two passes of as68 around the relaxation: pass 1 lays the program out with
 every branch in its shortest form, sdi_resolve and Sym_Fix move the labels, and
 pass 2 picks each branch's form again from the final addresses.
 */
module AssemblerPasses {
  import Arithmetic
  import opened SpanModel
  import opened SpanTheory
  import opened SpanRelaxation

  datatype Stmt =
    | Segment(section: nat)                     // .text, .data, ...
    | Even                                      // .even
    | Emit(size: nat)                           // any statement of fixed size
    | Label(name: nat)
    | Branch(target: nat, cc: nat)              // jbr is 0, jbsr 1, the conditional jumps 2 to 15
  {
    predicate Conditional()
      requires Branch?
    {
      cc >= 2
    }
  }

  ghost predicate GoodProgram(prog: seq<Stmt>) {
    && (forall i :: 0 <= i < |prog| && prog[i].Segment? ==> TEXT <= prog[i].section <= BSS)
    && (forall i :: 0 <= i < |prog| && prog[i].Branch? ==> prog[i].cc < 16)
    && (forall i, j :: 0 <= i < j < |prog| && prog[i].Label? && prog[j].Label? ==> prog[i].name != prog[j].name)
  }

  /** Current csect and the location counter of every csect. */
  datatype Layout = Layout(section: nat, dots: seq<int>)

  ghost predicate Placed(st: Layout) {
    TEXT <= st.section <= BSS && |st.dots| == BSS + 1
  }

  function Dot(st: Layout): int
    requires Placed(st)
  {
    st.dots[st.section]
  }

  /** Bytes a statement takes at a location, given the length a branch would have there. */
  function Size(s: Stmt, dot: int, branchLength: int): (n: int)
  {
    match s
    case Even => dot % 2
    case Emit(size) => size
    case Branch(_, _) => branchLength
    case _ => 0
  }

  /** One statement. */
  function Next(st: Layout, s: Stmt, branchLength: int): (r: Layout)
    requires Placed(st)
    requires s.Segment? ==> TEXT <= s.section <= BSS
    ensures Placed(r)
  {
    if s.Segment? then st.(section := s.section)
    else st.(dots := st.dots[st.section := Dot(st) + Size(s, Dot(st), branchLength)])
  }

  const SHORTEST := 2
  const BOUNDS := [Bound(2, -128, 127), Bound(4, -32768, 32767)]

  /** The most general form: a jmp, or an inverted branch around a jmp. */
  function GeneralLength(conditional: bool): int {
    if conditional then 8 else 6
  }

  // ---- Pass 1 ------------------------------------------------------------

  /** Layout in front of statement n on pass 1. */
  function Pass1(prog: seq<Stmt>, n: nat): (st: Layout)
    requires GoodProgram(prog) && n <= |prog|
    ensures Placed(st)
  {
    if n == 0 then Layout(TEXT, [0, 0, 0, 0, 0, 0])
    else Next(Pass1(prog, n - 1), prog[n-1], SHORTEST)
  }

  const UNDEFINED := SymRec(0, false, 0)

  /** Symbol value after the first n statements. */
  function SymbolAt(prog: seq<Stmt>, name: nat, n: nat): SymRec
    requires GoodProgram(prog) && n <= |prog|
  {
    if n == 0 then UNDEFINED
    else if prog[n-1] == Label(name) then SymRec(Pass1(prog, n - 1).section, true, Dot(Pass1(prog, n - 1)))
    else SymbolAt(prog, name, n - 1)
  }

  /** The descriptor that makesdi builds for the branch at j, with its symbol as pass 1 leaves it. */
  function Record(prog: seq<Stmt>, j: nat): SdiRec
    requires GoodProgram(prog) && j < |prog| && prog[j].Branch?
  {
    var st := Pass1(prog, j);
    SdiRec(st.section, Dot(st), SymbolAt(prog, prog[j].target, |prog|), GeneralLength(prog[j].Conditional()),
           BOUNDS, SHORTEST, -(Dot(st) + 2), Dot(st) + 2)
  }

  /** Statement numbers of the first n statements' branches, in list order. */
  function Order(prog: seq<Stmt>, n: nat): (o: seq<nat>)
    requires GoodProgram(prog) && n <= |prog|
    ensures forall i :: 0 <= i < |o| ==> o[i] < n && prog[o[i]].Branch?
  {
    if n == 0 then []
    else
      var o := Order(prog, n - 1);
      if !prog[n-1].Branch? then o
      else
        var k := InsertPos(Records(prog, o), Record(prog, n - 1).loc);
        o[..k] + [n - 1] + o[k..]
  }

  function Records(prog: seq<Stmt>, o: seq<nat>): (L: seq<SdiRec>)
    requires GoodProgram(prog) && AreBranches(prog, o)
    ensures |L| == |o|
  {
    seq(|o|, i requires 0 <= i < |o| => Record(prog, o[i]))
  }

  /** The descriptor list at the end of pass 1. */
  function SdiList(prog: seq<Stmt>): seq<SdiRec>
    requires GoodProgram(prog)
  {
    Records(prog, Order(prog, |prog|))
  }

  /** Location counters never fall. */
  lemma {:induction false} DotsMono(prog: seq<Stmt>, a: nat, b: nat, section: nat)
    requires GoodProgram(prog) && a <= b <= |prog| && section <= BSS
    ensures Pass1(prog, a).dots[section] <= Pass1(prog, b).dots[section]
  {
    if a < b {
      DotsMono(prog, a, b - 1, section);
    }
  }

  /** A statement's bytes lie in front of everything later in its csect. */
  lemma DotsPast(prog: seq<Stmt>, a: nat, b: nat)
    requires GoodProgram(prog) && a < b <= |prog| && !prog[a].Segment?
    ensures var st := Pass1(prog, a);
      Dot(st) + Size(prog[a], Dot(st), SHORTEST) <= Pass1(prog, b).dots[st.section]
  {
    var st := Pass1(prog, a);
    assert Pass1(prog, a + 1).dots[st.section] == Dot(st) + Size(prog[a], Dot(st), SHORTEST);
    DotsMono(prog, a + 1, b, st.section);
  }

  /** A defined symbol is the pass 1 location of its label statement. */
  lemma {:induction false} SymbolIsLabel(prog: seq<Stmt>, name: nat, n: nat) returns (l: nat)
    requires GoodProgram(prog) && n <= |prog|
    requires SymbolAt(prog, name, n).defined
    ensures l < n && prog[l] == Label(name)
    ensures SymbolAt(prog, name, n) == SymRec(Pass1(prog, l).section, true, Dot(Pass1(prog, l)))
  {
    if prog[n-1] == Label(name) {
      l := n - 1;
    } else {
      l := SymbolIsLabel(prog, name, n - 1);
    }
  }

  /** Labels keep the value of their only definition. */
  lemma {:induction false} LabelIsSymbol(prog: seq<Stmt>, l: nat, n: nat)
    requires GoodProgram(prog) && l < n <= |prog| && prog[l].Label?
    ensures SymbolAt(prog, prog[l].name, n) == SymRec(Pass1(prog, l).section, true, Dot(Pass1(prog, l)))
  {
    if l < n - 1 {
      LabelIsSymbol(prog, l, n - 1);
    }
  }

  lemma InsertMember<T>(a: seq<T>, x: T, p: nat)
    requires p <= |a|
    ensures forall y :: y in a || y == x ==> y in a[..p] + [x] + a[p..]
  {
    assert a == a[..p] + a[p..];
  }

  /** Every number is that of a branch. */
  ghost predicate AreBranches(prog: seq<Stmt>, o: seq<nat>) {
    forall i :: 0 <= i < |o| ==> o[i] < |prog| && prog[o[i]].Branch?
  }

  lemma BranchesInsert(prog: seq<Stmt>, o: seq<nat>, j: nat, k: nat)
    requires AreBranches(prog, o) && j < |prog| && prog[j].Branch? && k <= |o|
    ensures AreBranches(prog, o[..k] + [j] + o[k..])
  {
  }

  lemma RecordAt(prog: seq<Stmt>, o: seq<nat>, j: nat, k: nat, o': seq<nat>, i: nat)
    requires GoodProgram(prog) && AreBranches(prog, o) && AreBranches(prog, o')
    requires j < |prog| && prog[j].Branch? && k == InsertPos(Records(prog, o), Record(prog, j).loc) && k <= |o|
    requires o' == o[..k] + [j] + o[k..] && i < |o'|
    ensures i < |Inserted(Records(prog, o), Record(prog, j))|
    ensures Records(prog, o')[i] == Inserted(Records(prog, o), Record(prog, j))[i]
  {
    InsertedAt(Records(prog, o), Record(prog, j), k);
    InsertedIndex(o, k, j, i);
  }

  lemma RecordsInsert(prog: seq<Stmt>, o: seq<nat>, j: nat, k: nat, o': seq<nat>)
    requires GoodProgram(prog) && AreBranches(prog, o) && j < |prog| && prog[j].Branch? && k <= |o|
    requires k == InsertPos(Records(prog, o), Record(prog, j).loc)
    requires o' == o[..k] + [j] + o[k..]
    ensures AreBranches(prog, o') && Records(prog, o') == Inserted(Records(prog, o), Record(prog, j))
  {
    BranchesInsert(prog, o, j, k);
    var L, M := Records(prog, o'), Inserted(Records(prog, o), Record(prog, j));
    InsertedAt(Records(prog, o), Record(prog, j), k);
    forall i | 0 <= i < |L| ensures L[i] == M[i] {
      RecordAt(prog, o, j, k, o', i);
    }
  }

  /** The list is sorted by location. */
  lemma {:induction false} OrderSorted(prog: seq<Stmt>, n: nat)
    requires GoodProgram(prog) && n <= |prog|
    ensures Sorted(Records(prog, Order(prog, n)))
  {
    if n > 0 {
      OrderSorted(prog, n - 1);
      if prog[n-1].Branch? {
        NextSorted(prog, n - 1, n);
      }
    }
  }

  lemma NextSorted(prog: seq<Stmt>, n: nat, next: nat)
    requires GoodProgram(prog) && n < |prog| && prog[n].Branch? && next == n + 1
    requires Sorted(Records(prog, Order(prog, n)))
    ensures Sorted(Records(prog, Order(prog, next)))
  {
    var o, s := Order(prog, n), Record(prog, n);
    RecordsInsert(prog, o, n, InsertPos(Records(prog, o), s.loc), Order(prog, next));
    SortedAgain(Records(prog, o), s, Records(prog, Order(prog, next)));
  }

  lemma SortedAgain(L: seq<SdiRec>, s: SdiRec, M: seq<SdiRec>)
    requires Sorted(L) && M == Inserted(L, s)
    ensures Sorted(M)
  {
    InsertedSorted(L, s);
  }

  /** No branch is listed twice. */
  lemma {:induction false} OrderDistinct(prog: seq<Stmt>, n: nat)
    requires GoodProgram(prog) && n <= |prog|
    ensures forall i, j :: 0 <= i < j < |Order(prog, n)| ==> Order(prog, n)[i] != Order(prog, n)[j]
  {
    if n > 0 {
      OrderDistinct(prog, n - 1);
      if prog[n-1].Branch? {
        var o := Order(prog, n - 1);
        DistinctInsert(o, n - 1, InsertPos(Records(prog, o), Record(prog, n - 1).loc));
      }
    }
  }

  /** Every branch is listed. */
  lemma {:induction false} OrderComplete(prog: seq<Stmt>, n: nat, j: nat)
    requires GoodProgram(prog) && j < n <= |prog| && prog[j].Branch?
    ensures j in Order(prog, n)
  {
    if j < n - 1 {
      OrderComplete(prog, n - 1, j);
    }
    if prog[n-1].Branch? {
      var o := Order(prog, n - 1);
      InsertMember(o, n - 1, InsertPos(Records(prog, o), Record(prog, n - 1).loc));
    }
  }

  /** Branches of one csect keep their distance. */
  lemma BranchesApart(prog: seq<Stmt>, i: nat, j: nat)
    requires GoodProgram(prog) && i < |prog| && j < |prog| && i != j && prog[i].Branch? && prog[j].Branch?
    requires Record(prog, i).loc <= Record(prog, j).loc && Record(prog, i).section == Record(prog, j).section
    ensures Record(prog, i).loc + SHORTEST <= Record(prog, j).loc
  {
    if i < j {
      DotsPast(prog, i, j);
    } else {
      DotsPast(prog, j, i);
    }
  }

  /** A label does not lie inside a branch. */
  lemma LabelClear(prog: seq<Stmt>, i: nat, j: nat)
    requires GoodProgram(prog) && i < |prog| && j < |prog| && prog[i].Branch? && prog[j].Branch?
    requires Record(prog, i).Resolvable() && Record(prog, i).section == Record(prog, j).section
    ensures var v := Record(prog, i).sym.value;
      v <= Record(prog, j).loc || Record(prog, j).loc + SHORTEST <= v
  {
    var l := SymbolIsLabel(prog, prog[i].target, |prog|);
    if l <= j {
      DotsMono(prog, l, j, Pass1(prog, l).section);
    } else {
      DotsPast(prog, j, l);
    }
  }

  lemma BoundsNested(gleng: int)
    requires 4 <= gleng
    ensures NestedBounds(BOUNDS, gleng)
  {}

  /** What sdi_resolve starts from: the list of pass 1 with its spans relocated. */
  function StartList(prog: seq<Stmt>): (L: seq<SdiRec>)
    requires GoodProgram(prog)
  {
    Relocated(SdiList(prog))
  }

  lemma StartListAt(prog: seq<Stmt>, i: nat)
    requires GoodProgram(prog) && i < |Order(prog, |prog|)|
    ensures |StartList(prog)| == |Order(prog, |prog|)|
    ensures var s, r := StartList(prog)[i], Record(prog, Order(prog, |prog|)[i]);
      s == r.(span := s.span) && (s.Resolvable() ==> s.span == s.sym.value - s.base)
  {}

  lemma StartGood(prog: seq<Stmt>)
    requires GoodProgram(prog)
    ensures GoodRecs(StartList(prog)) && Sorted(StartList(prog))
  {
    var L := StartList(prog);
    OrderSorted(prog, |prog|);
    forall i, j | 0 <= i < j < |L| ensures L[i].loc <= L[j].loc {
      assert SdiList(prog)[i].loc <= SdiList(prog)[j].loc;
    }
    forall i | 0 <= i < |L| ensures GoodRec(L[i]) {
      StartListAt(prog, i);
      BoundsNested(L[i].gleng);
    }
  }

  lemma StartApart(prog: seq<Stmt>, i: nat, j: nat)
    requires GoodProgram(prog) && i < j < |StartList(prog)|
    ensures HasForms(StartList(prog)) && Apart(StartList(prog), i, j)
  {
    StartGood(prog);
    OrderDistinct(prog, |prog|);
    StartListAt(prog, i);
    StartListAt(prog, j);
    var o := Order(prog, |prog|);
    if Record(prog, o[i]).section == Record(prog, o[j]).section {
      assert StartList(prog)[i].loc <= StartList(prog)[j].loc;
      BranchesApart(prog, o[i], o[j]);
    }
  }

  lemma StartClear(prog: seq<Stmt>, i: nat, j: nat)
    requires GoodProgram(prog) && i < |StartList(prog)| && j < |StartList(prog)|
    ensures HasForms(StartList(prog)) && Clear(StartList(prog), i, j)
  {
    StartGood(prog);
    StartListAt(prog, i);
    StartListAt(prog, j);
    var o := Order(prog, |prog|);
    if Record(prog, o[i]).Resolvable() && Record(prog, o[i]).section == Record(prog, o[j]).section {
      LabelClear(prog, o[i], o[j]);
    }
  }

  /** The list that pass 1 hands to sdi_resolve meets everything the relaxation relies on. */
  lemma PassOneInitial(prog: seq<Stmt>)
    requires GoodProgram(prog)
    ensures Initial(StartList(prog))
  {
    var L := StartList(prog);
    StartGood(prog);
    forall i, j | 0 <= i < j < |L| ensures Apart(L, i, j) { StartApart(prog, i, j); }
    forall i, j | 0 <= i < |L| && 0 <= j < |L| ensures Clear(L, i, j) { StartClear(prog, i, j); }
    forall i | 0 <= i < |L|
      ensures L[i].leng == L[i].Short() && L[i].base == L[i].loc + 2
      ensures L[i].Resolvable() ==> L[i].span == L[i].sym.value - L[i].base
    {
      StartListAt(prog, i);
    }
  }

  // ---- Pass 2 ------------------------------------------------------------

  /** Origins of the csects in the output. */
  ghost predicate GoodOrigins(origins: seq<int>) {
    |origins| == BSS + 1 && forall i :: 0 <= i < |origins| ==> origins[i] % 2 == 0
  }

  /** Value of a symbol after Sym_Fix. */
  function FixedValue(L: seq<SdiRec>, origins: seq<int>, sym: SymRec): int
    requires HasForms(L) && GoodOrigins(origins) && sym.section <= BSS
  {
    Final(L, sym.section, sym.value) + origins[sym.section]
  }

  /** The form pass 2 picks in jbrnch and cbrnch: brnchs, branch, or jmp / jump around a jmp. */
  function PassTwoLength(sameSection: bool, offs: int, conditional: bool): int {
    if !sameSection || offs < -32768 || offs > 32767 then GeneralLength(conditional)
    else if offs > 127 || offs < -128 then 4
    else 2
  }

  /** Length of the branch at statement n when pass 2 reaches it in layout st. */
  function ChosenLength(prog: seq<Stmt>, L: seq<SdiRec>, origins: seq<int>, st: Layout, n: nat): int
    requires GoodProgram(prog) && n < |prog| && prog[n].Branch?
    requires HasForms(L) && GoodOrigins(origins) && Placed(st)
  {
    SymbolSection(prog, prog[n].target, |prog|);
    var sym := SymbolAt(prog, prog[n].target, |prog|);
    PassTwoLength(sym.defined && sym.section == st.section, FixedValue(L, origins, sym) - (Dot(st) + 2),
      prog[n].Conditional())
  }

  lemma {:induction false} SymbolSection(prog: seq<Stmt>, name: nat, n: nat)
    requires GoodProgram(prog) && n <= |prog|
    ensures SymbolAt(prog, name, n).section <= BSS
  {
    if n > 0 {
      SymbolSection(prog, name, n - 1);
    }
  }

  /** The length pass 2 picks at statement n, if it is a branch. */
  function ChoiceAt(prog: seq<Stmt>, L: seq<SdiRec>, origins: seq<int>, st: Layout, n: nat): int
    requires GoodProgram(prog) && HasForms(L) && GoodOrigins(origins) && n < |prog| && Placed(st)
  {
    if prog[n].Branch? then ChosenLength(prog, L, origins, st, n) else 0
  }

  /** Layout in front of statement n on pass 2, whose branches choose their own lengths. */
  function Pass2(prog: seq<Stmt>, L: seq<SdiRec>, origins: seq<int>, n: nat): (st: Layout)
    requires GoodProgram(prog) && n <= |prog| && HasForms(L) && GoodOrigins(origins)
    ensures Placed(st)
  {
    if n == 0 then Layout(TEXT, origins)
    else
      var st := Pass2(prog, L, origins, n - 1);
      Next(st, prog[n-1], ChoiceAt(prog, L, origins, st, n - 1))
  }

  // ---- Agreement ---------------------------------------------------------

  /** The list that sdi_resolve leaves for the program. */
  ghost predicate ResolvedFor(prog: seq<Stmt>, L: seq<SdiRec>)
    requires GoodProgram(prog)
  {
    Resolved(StartList(prog), L)
  }

  /** The list that the rounds make of the program. */
  ghost function RelaxedList(prog: seq<Stmt>): (L: seq<SdiRec>)
    requires GoodProgram(prog)
    ensures ResolvedFor(prog, L) && HasForms(L)
  {
    PassOneInitial(prog);
    InitialRelaxing(StartList(prog));
    RelaxedResolved(StartList(prog), StartList(prog));
    Relaxed(StartList(prog))
  }

  /** A forward branch that the relaxation left one form too short. */
  ghost predicate Edge(L: seq<SdiRec>, k: nat)
    requires k < |L| && HasForms(L)
  {
    L[k].Resolvable() && L[k].Forward() && L[k].leng == 4 && 32767 < Disp(L, k)
  }

  lemma ResolvedAt(prog: seq<Stmt>, L: seq<SdiRec>, k: nat)
    requires GoodProgram(prog) && ResolvedFor(prog, L) && k < |L|
    ensures |L| == |Order(prog, |prog|)| && HasForms(L)
    ensures var r := Record(prog, Order(prog, |prog|)[k]);
      L[k] == r.(leng := L[k].leng, span := L[k].span, base := L[k].base)
    ensures L[k].leng == 2 || L[k].leng == 4 || L[k].leng == L[k].gleng
    ensures Form(L[k].bounds, L[k].gleng, Disp(L, k)) == PassTwoLength(true, Disp(L, k), L[k].gleng == 8)
  {
    StartListAt(prog, k);
    assert SameFixed(StartList(prog)[k], L[k]);
    FormOfBounds(L[k].gleng, L[k].span);
    FormOfBounds(L[k].gleng, Disp(L, k));
    assert SdiLen(L[k]) == L[k].leng;
  }

  /** Descriptor k belongs to its branch and holds one of the branch's forms. */
  ghost predicate SettledAt(prog: seq<Stmt>, L: seq<SdiRec>, k: nat)
    requires GoodProgram(prog) && |L| == |Order(prog, |prog|)| && k < |L|
  {
    && SameFixed(Record(prog, Order(prog, |prog|)[k]), L[k])
    && (L[k].leng == 2 || L[k].leng == 4 || L[k].leng == L[k].gleng)
  }

  ghost predicate Settled(prog: seq<Stmt>, L: seq<SdiRec>)
    requires GoodProgram(prog)
  {
    |L| == |Order(prog, |prog|)| && forall k :: 0 <= k < |L| ==> SettledAt(prog, L, k)
  }

  lemma ResolvedSettled(prog: seq<Stmt>, L: seq<SdiRec>)
    requires GoodProgram(prog) && ResolvedFor(prog, L)
    ensures Settled(prog, L)
  {
    assert |L| == |Order(prog, |prog|)|;
    forall k | 0 <= k < |L| ensures SettledAt(prog, L, k) { ResolvedAt(prog, L, k); }
  }

  lemma FormOfBounds(gleng: int, span: int)
    ensures Form(BOUNDS, gleng, span) == if -128 <= span <= 127 then 2 else if -32768 <= span <= 32767 then 4 else gleng
  {
    var rest := BOUNDS[1..];
    assert rest == [Bound(4, -32768, 32767)] && rest[1..] == [];
    assert Form(rest, gleng, span) == if -32768 <= span <= 32767 then 4 else gleng;
    assert BOUNDS[0] == Bound(2, -128, 127);
    assert Form(BOUNDS, gleng, span) == if -128 <= span <= 127 then 2 else Form(rest, gleng, span);
  }

  /** A branch holds the form its displacement calls for unless it is an edge branch. */
  lemma RightUnlessEdge(prog: seq<Stmt>, L: seq<SdiRec>, k: nat)
    requires GoodProgram(prog) && ResolvedFor(prog, L) && k < |L|
    ensures HasForms(L) && (RightForm(L, k) <==> !Edge(L, k))
  {
    ResolvedAt(prog, L, k);
    FixpointForms(L, k);
    if L[k].Resolvable() && L[k].Forward() && L[k].leng == 4 {
      assert RecOk(L, k);
      FormOfBounds(L[k].gleng, L[k].span);
      FormOfBounds(L[k].gleng, Disp(L, k));
    }
  }

  /** An edge branch misses its form by at most eight bytes of displacement. */
  lemma EdgeWindow(prog: seq<Stmt>, L: seq<SdiRec>, k: nat)
    requires GoodProgram(prog) && ResolvedFor(prog, L) && k < |L| && HasForms(L)
    requires Edge(L, k)
    ensures 32767 < Disp(L, k) <= 32767 + 8
  {
    ResolvedAt(prog, L, k);
    FormOfBounds(L[k].gleng, L[k].span);
    assert LagOk(L, k);
    if Lag(L, k) > L[k].Extra() {
      var p :| 0 <= p < |L| && Adjacent(L, k, p) && Lag(L, k) <= L[k].Extra() + L[p].Extra();
      ResolvedAt(prog, L, p);
    }
  }

  /** Growth is even, so location counters keep their parity. */
  lemma {:induction false} IncEven(L: seq<SdiRec>, section: nat, offset: int, n: nat)
    requires HasForms(L) && n <= |L|
    requires forall i :: 0 <= i < |L| ==> L[i].Extra() % 2 == 0
    ensures IncTo(L, section, offset, n) % 2 == 0
  {
    if n > 0 {
      IncEven(L, section, offset, n - 1);
    }
  }

  /** No descriptor of the csect starts in [a, b), except possibly k. */
  ghost predicate OnlyBetween(L: seq<SdiRec>, section: nat, a: int, b: int, k: int) {
    forall i :: 0 <= i < |L| && i != k && L[i].section == section ==> L[i].loc < a || b <= L[i].loc
  }

  /** Growth over a stretch of code is the growth of the one branch in it, if any. */
  lemma {:induction false} IncOver(L: seq<SdiRec>, section: nat, a: int, b: int, k: int, n: nat)
    requires HasForms(L) && n <= |L| && a <= b
    requires OnlyBetween(L, section, a, b, k)
    requires 0 <= k < |L| ==> L[k].section == section && a <= L[k].loc < b
    ensures IncTo(L, section, b, n) == IncTo(L, section, a, n) + if 0 <= k < n then L[k].Extra() else 0
  {
    if n > 0 {
      IncOver(L, section, a, b, k, n - 1);
    }
  }

  /** Statement n is the only one whose bytes start between its location and the next. */
  lemma StretchOf(prog: seq<Stmt>, L: seq<SdiRec>, n: nat) returns (k: int)
    requires GoodProgram(prog) && Settled(prog, L) && n < |prog| && !prog[n].Segment?
    ensures var st := Pass1(prog, n);
      OnlyBetween(L, st.section, Dot(st), Dot(st) + Size(prog[n], Dot(st), SHORTEST), k)
    ensures if prog[n].Branch? then 0 <= k < |L| && |L| == |Order(prog, |prog|)| && Order(prog, |prog|)[k] == n
      else k == -1
  {
    var o := Order(prog, |prog|);
    k := -1;
    OrderDistinct(prog, |prog|);
    if prog[n].Branch? {
      OrderComplete(prog, |prog|, n);
      k :| 0 <= k < |o| && o[k] == n;
    }
    forall i | 0 <= i < |L| && i != k && L[i].section == Pass1(prog, n).section ensures Outside(prog, L, n, i) {
      OutsideStretch(prog, L, n, i);
    }
  }

  /** Descriptor i lies in front of statement n or behind it. */
  ghost predicate Outside(prog: seq<Stmt>, L: seq<SdiRec>, n: nat, i: nat)
    requires GoodProgram(prog) && n < |prog| && i < |L|
  {
    var st := Pass1(prog, n);
    L[i].loc < Dot(st) || Dot(st) + Size(prog[n], Dot(st), SHORTEST) <= L[i].loc
  }

  lemma OutsideStretch(prog: seq<Stmt>, L: seq<SdiRec>, n: nat, i: nat)
    requires GoodProgram(prog) && Settled(prog, L) && n < |prog| && !prog[n].Segment?
    requires i < |L| && L[i].section == Pass1(prog, n).section && Order(prog, |prog|)[i] != n
    ensures Outside(prog, L, n, i)
  {
    var o := Order(prog, |prog|);
    assert SettledAt(prog, L, i);
    if o[i] < n {
      DotsPast(prog, o[i], n);
    } else {
      DotsPast(prog, n, o[i]);
    }
  }

  /** Pass 2 stands where pass 1 stood, moved by the growth in front of it. */
  ghost predicate InStep(prog: seq<Stmt>, L: seq<SdiRec>, origins: seq<int>, n: nat)
    requires GoodProgram(prog) && n <= |prog| && HasForms(L) && GoodOrigins(origins)
  {
    var st1, st2 := Pass1(prog, n), Pass2(prog, L, origins, n);
    st2.section == st1.section
    && forall c :: 0 <= c <= BSS ==> st2.dots[c] == origins[c] + Final(L, c, st1.dots[c])
  }

  /** Pass 2 gives branch k the length the relaxation settled on. */
  ghost predicate ChoosesSame(prog: seq<Stmt>, L: seq<SdiRec>, origins: seq<int>, k: nat)
    requires GoodProgram(prog) && HasForms(L) && GoodOrigins(origins)
    requires |L| == |Order(prog, |prog|)| && k < |L|
  {
    var n := Order(prog, |prog|)[k];
    ChosenLength(prog, L, origins, Pass2(prog, L, origins, n), n) == L[k].leng
  }

  /** As long as the passes are in step, pass 2 chooses by the true displacement. */
  lemma ChoosesByDisp(prog: seq<Stmt>, L: seq<SdiRec>, origins: seq<int>, k: nat)
    requires GoodProgram(prog) && Settled(prog, L) && HasForms(L) && GoodOrigins(origins) && k < |L|
    requires |L| == |Order(prog, |prog|)|
    requires InStep(prog, L, origins, Order(prog, |prog|)[k])
    ensures ChoosesSame(prog, L, origins, k) <==> RightForm(L, k)
  {
    assert SettledAt(prog, L, k);
    FormOfBounds(L[k].gleng, Disp(L, k));
    var n := Order(prog, |prog|)[k];
    var st1, st2 := Pass1(prog, n), Pass2(prog, L, origins, n);
    assert st2.dots[st1.section] == origins[st1.section] + Final(L, st1.section, st1.dots[st1.section]);
  }

  lemma ExtrasEven(prog: seq<Stmt>, L: seq<SdiRec>)
    requires GoodProgram(prog) && Settled(prog, L)
    ensures HasForms(L) && forall i :: 0 <= i < |L| ==> L[i].Extra() % 2 == 0
  {
    forall i | 0 <= i < |L| ensures L[i].bounds != [] && L[i].Extra() % 2 == 0 { assert SettledAt(prog, L, i); }
  }

  /** How far the end of statement n moves beyond its start. */
  lemma StretchGrowth(prog: seq<Stmt>, L: seq<SdiRec>, n: nat) returns (k: int, e: int)
    requires GoodProgram(prog) && Settled(prog, L) && HasForms(L) && n < |prog| && !prog[n].Segment?
    ensures if prog[n].Branch? then 0 <= k < |L| && Order(prog, |prog|)[k] == n else k == -1
    ensures var st := Pass1(prog, n);
      && Inc(L, st.section, Dot(st)) % 2 == 0
      && e == Dot(st) + Size(prog[n], Dot(st), SHORTEST)
      && Inc(L, st.section, e) == Inc(L, st.section, Dot(st)) + if prog[n].Branch? then L[k].leng - SHORTEST else 0
  {
    var st := Pass1(prog, n);
    var c, d := st.section, Dot(st);
    e := d + Size(prog[n], d, SHORTEST);
    k := StretchOf(prog, L, n);
    assert Inc(L, c, d) % 2 == 0 by {
      ExtrasEven(prog, L);
      IncEven(L, c, d, |L|);
    }
    assert prog[n].Branch? ==> L[k].section == c && L[k].loc == d && L[k].Short() == SHORTEST by {
      if prog[n].Branch? { assert SettledAt(prog, L, k); }
    }
    assert d <= e;
    IncOver(L, c, d, e, k, |L|);
  }

  /** Both location counters move past the statement together. */
  lemma DotInStep(prog: seq<Stmt>, L: seq<SdiRec>, origins: seq<int>, n: nat) returns (e: int)
    requires GoodProgram(prog) && Settled(prog, L) && HasForms(L) && GoodOrigins(origins) && n < |prog|
    requires |L| == |Order(prog, |prog|)| && !prog[n].Segment?
    requires InStep(prog, L, origins, n)
    requires forall k :: 0 <= k < |L| && Order(prog, |prog|)[k] == n ==> ChoosesSame(prog, L, origins, k)
    ensures e == Dot(Pass1(prog, n + 1))
    ensures Dot(Pass2(prog, L, origins, n + 1)) == origins[Pass1(prog, n).section] +
      (e + Inc(L, Pass1(prog, n).section, e))
  {
    var st1, st2 := Pass1(prog, n), Pass2(prog, L, origins, n);
    var c := st1.section;
    assert Dot(st2) == origins[c] + Final(L, c, Dot(st1));
    var k;
    k, e := StretchGrowth(prog, L, n);
    SameParity(Dot(st1), Inc(L, c, Dot(st1)), origins[c]);
    GrownSize(prog, L, origins, n, k, Dot(st1), st2);
    DotNext(st1, prog[n], SHORTEST);
    DotNext(st2, prog[n], ChoiceAt(prog, L, origins, st2, n));
  }

  /** The statement is as much longer on pass 2 as its branch has grown. */
  lemma GrownSize(prog: seq<Stmt>, L: seq<SdiRec>, origins: seq<int>, n: nat, k: int, dot: int, st: Layout)
    requires GoodProgram(prog) && HasForms(L) && GoodOrigins(origins) && n < |prog| && |L| == |Order(prog, |prog|)|
    requires st == Pass2(prog, L, origins, n) && dot % 2 == Dot(st) % 2
    requires prog[n].Branch? ==> 0 <= k < |L| && Order(prog, |prog|)[k] == n && ChoosesSame(prog, L, origins, k)
    ensures Size(prog[n], Dot(st), ChoiceAt(prog, L, origins, st, n)) ==
      Size(prog[n], dot, SHORTEST) + if prog[n].Branch? then L[k].leng - SHORTEST else 0
  {
  }

  lemma DotNext(st: Layout, s: Stmt, branchLength: int)
    requires Placed(st) && !s.Segment?
    ensures var r := Next(st, s, branchLength);
      r.section == st.section && Dot(r) == Dot(st) + Size(s, Dot(st), branchLength)
  {
  }

  lemma SameParity(d: int, inc: int, origin: int)
    requires inc % 2 == 0 && origin % 2 == 0
    ensures (origin + (d + inc)) % 2 == d % 2
  {
  }

  /** One statement keeps the passes in step if a branch there gets its settled length. */
  lemma StepInStep(prog: seq<Stmt>, L: seq<SdiRec>, origins: seq<int>, n: nat)
    requires GoodProgram(prog) && Settled(prog, L) && HasForms(L) && GoodOrigins(origins) && n < |prog|
    requires |L| == |Order(prog, |prog|)|
    requires InStep(prog, L, origins, n)
    requires forall k :: 0 <= k < |L| && Order(prog, |prog|)[k] == n ==> ChoosesSame(prog, L, origins, k)
    ensures InStep(prog, L, origins, n + 1)
  {
    if !prog[n].Segment? {
      var e := DotInStep(prog, L, origins, n);
    }
  }

  /** Settled lengths up to statement n keep the passes in step. */
  lemma {:induction false} SameLengthsInStep(prog: seq<Stmt>, L: seq<SdiRec>, origins: seq<int>, n: nat)
    requires GoodProgram(prog) && Settled(prog, L) && HasForms(L) && GoodOrigins(origins) && n <= |prog|
    requires |L| == |Order(prog, |prog|)|
    requires forall k :: 0 <= k < |L| && Order(prog, |prog|)[k] < n ==> ChoosesSame(prog, L, origins, k)
    ensures InStep(prog, L, origins, n)
  {
    if n == 0 {
      NothingInFront(prog, L);
    } else {
      SameLengthsInStep(prog, L, origins, n - 1);
      StepInStep(prog, L, origins, n - 1);
    }
  }

  /** At the start of a csect nothing has grown. */
  lemma NothingInFront(prog: seq<Stmt>, L: seq<SdiRec>)
    requires GoodProgram(prog) && Settled(prog, L) && HasForms(L) && |L| == |Order(prog, |prog|)|
    ensures forall c :: 0 <= c <= BSS ==> Final(L, c, 0) == 0
  {
    forall i | 0 <= i < |L| ensures 0 <= L[i].loc {
      assert SettledAt(prog, L, i);
      var j := Order(prog, |prog|)[i];
      DotsMono(prog, 0, j, Pass1(prog, j).section);
    }
    forall c | 0 <= c <= BSS ensures Final(L, c, 0) == 0 {
      IncNone(L, c, 0, |L|);
    }
  }

  lemma {:induction false} IncNone(L: seq<SdiRec>, section: nat, offset: int, n: nat)
    requires HasForms(L) && n <= |L|
    requires forall i :: 0 <= i < |L| ==> offset <= L[i].loc
    ensures IncTo(L, section, offset, n) == 0
  {
    if n > 0 {
      IncNone(L, section, offset, n - 1);
    }
  }

  /** With every form right, pass 2 settles on the same lengths, statement by statement. */
  lemma {:induction false} RightFormsSameLengths(prog: seq<Stmt>, L: seq<SdiRec>, origins: seq<int>, n: nat)
    requires GoodProgram(prog) && Settled(prog, L) && HasForms(L) && GoodOrigins(origins) && n <= |prog|
    requires |L| == |Order(prog, |prog|)|
    requires forall k :: 0 <= k < |L| ==> RightForm(L, k)
    ensures forall k :: 0 <= k < |L| && Order(prog, |prog|)[k] < n ==> ChoosesSame(prog, L, origins, k)
  {
    if n > 0 {
      RightFormsSameLengths(prog, L, origins, n - 1);
      SameLengthsInStep(prog, L, origins, n - 1);
      forall k | 0 <= k < |L| && Order(prog, |prog|)[k] == n - 1
        ensures ChoosesSame(prog, L, origins, k)
      {
        ChoosesByDisp(prog, L, origins, k);
      }
    }
  }

  lemma NoEdgeSameLengths(prog: seq<Stmt>, L: seq<SdiRec>, origins: seq<int>)
    requires GoodProgram(prog) && ResolvedFor(prog, L) && HasForms(L) && GoodOrigins(origins)
    requires forall k :: 0 <= k < |L| ==> !Edge(L, k)
    ensures Settled(prog, L) && |L| == |Order(prog, |prog|)|
    ensures forall k :: 0 <= k < |L| ==> ChoosesSame(prog, L, origins, k)
  {
    ResolvedSettled(prog, L);
    forall k | 0 <= k < |L| ensures RightForm(L, k) { RightUnlessEdge(prog, L, k); }
    RightFormsSameLengths(prog, L, origins, |prog|);
  }

  /**
   Pass agreement: pass 2 gives every branch the length the relaxation settled
   on exactly when no forward branch was left at 4 bytes beyond 32767.
   */
  lemma PassesAgreeIff(prog: seq<Stmt>, L: seq<SdiRec>, origins: seq<int>)
    requires GoodProgram(prog) && ResolvedFor(prog, L) && HasForms(L) && GoodOrigins(origins)
    ensures |L| == |Order(prog, |prog|)|
    ensures (forall k :: 0 <= k < |L| ==> ChoosesSame(prog, L, origins, k)) <==>
      (forall k :: 0 <= k < |L| ==> !Edge(L, k))
  {
    ResolvedSettled(prog, L);
    if forall k :: 0 <= k < |L| ==> !Edge(L, k) {
      NoEdgeSameLengths(prog, L, origins);
    }
    if forall k :: 0 <= k < |L| ==> ChoosesSame(prog, L, origins, k) {
      forall k | 0 <= k < |L| ensures !Edge(L, k) {
        SameLengthsInStep(prog, L, origins, Order(prog, |prog|)[k]);
        ChoosesByDisp(prog, L, origins, k);
        RightUnlessEdge(prog, L, k);
      }
    }
  }

  /** The programs whose relaxation leaves a branch at the 16-bit edge. */
  ghost predicate AtEdge(prog: seq<Stmt>)
    requires GoodProgram(prog)
  {
    exists k :: 0 <= k < |RelaxedList(prog)| && Edge(RelaxedList(prog), k)
  }

  /** Of every program it can be said before the assembly whether the passes will agree. */
  lemma ProgramAgreesIff(prog: seq<Stmt>, origins: seq<int>)
    requires GoodProgram(prog) && GoodOrigins(origins)
    ensures |RelaxedList(prog)| == |Order(prog, |prog|)|
    ensures !AtEdge(prog) <==>
      forall k :: 0 <= k < |RelaxedList(prog)| ==> ChoosesSame(prog, RelaxedList(prog), origins, k)
  {
    PassesAgreeIff(prog, RelaxedList(prog), origins);
  }

  /** Then every label is where Sym_Fix put it, so pass 2 finds no label moved. */
  lemma LabelsStay(prog: seq<Stmt>, L: seq<SdiRec>, origins: seq<int>, l: nat)
    requires GoodProgram(prog) && ResolvedFor(prog, L) && HasForms(L) && GoodOrigins(origins)
    requires forall k :: 0 <= k < |L| ==> !Edge(L, k)
    requires l < |prog| && prog[l].Label?
    ensures var sym := SymbolAt(prog, prog[l].name, |prog|);
      && sym.defined && sym.section == Pass2(prog, L, origins, l).section
      && FixedValue(L, origins, sym) == Dot(Pass2(prog, L, origins, l))
  {
    ResolvedSettled(prog, L);
    LabelIsSymbol(prog, l, |prog|);
    NoEdgeSameLengths(prog, L, origins);
    SameLengthsInStep(prog, L, origins, l);
  }

  /** The list with every branch in its most general form. */
  function Widest(L: seq<SdiRec>): (M: seq<SdiRec>)
    ensures |M| == |L|
  {
    seq(|L|, i requires 0 <= i < |L| => L[i].(leng := L[i].gleng))
  }

  /** Displacement of a branch while everything has its shortest form. */
  function FirstDisp(s: SdiRec): int {
    s.sym.value - (s.loc + 2)
  }

  /**
   Checked before the relaxation: a program has no edge branch if every forward branch
   either reaches its label by 16 bits even with every branch at its longest, or does
   not reach it even with every branch at its shortest.
   */
  lemma NoEdgeWhenWide(prog: seq<Stmt>, L: seq<SdiRec>)
    requires GoodProgram(prog) && ResolvedFor(prog, L) && HasForms(L)
    requires HasForms(Widest(StartList(prog)))
    requires forall k :: 0 <= k < |StartList(prog)| ==>
      StartList(prog)[k].Resolvable() && StartList(prog)[k].Forward() ==>
      Disp(Widest(StartList(prog)), k) <= 32767 || FirstDisp(StartList(prog)[k]) > 32767
    ensures forall k :: 0 <= k < |L| ==> !Edge(L, k)
  {
    var S := StartList(prog);
    var M := Widest(S);
    assert forall i :: 0 <= i < |L| ==> SameFixed(S[i], L[i]);
    assert SameProgram(L, M);
    forall i | 0 <= i < |L| ensures L[i].leng <= M[i].leng { assert RecOk(L, i); }
    forall k | 0 <= k < |L| && L[k].Resolvable() && L[k].Forward() ensures !Edge(L, k) {
      assert S[k].Resolvable() && S[k].Forward();
      if FirstDisp(S[k]) > 32767 {
        LongFromStart(prog, L, k);
      } else {
        IncWiden(L, M, L[k].section, L[k].loc, L[k].sym.value, |L|);
      }
    }
  }

  /** A forward branch out of 16-bit reach from the start ends in its most general form. */
  lemma LongFromStart(prog: seq<Stmt>, L: seq<SdiRec>, k: nat)
    requires GoodProgram(prog) && ResolvedFor(prog, L) && HasForms(L) && k < |L|
    requires L[k].Resolvable() && L[k].Forward() && FirstDisp(L[k]) > 32767
    ensures L[k].leng == L[k].gleng
  {
    ResolvedAt(prog, L, k);
    assert RecOk(L, k) && LagOk(L, k);
    FormOfBounds(L[k].gleng, L[k].span);
    if L[k].Extra() <= 2 {
      SpanFromStart(L, k);
    }
  }

  /** The 16-bit edge is real: a branch over 32766 bytes is left at 4 bytes, and pass 2 makes it 6. */
  lemma EdgeExample(L: seq<SdiRec>, origins: seq<int>)
    requires GoodProgram([Branch(0, 0), Emit(32766), Label(0)])
    requires ResolvedFor([Branch(0, 0), Emit(32766), Label(0)], L) && HasForms(L) && GoodOrigins(origins)
    ensures |L| == 1 && L[0].leng == 4 && Edge(L, 0)
    ensures ChosenLength([Branch(0, 0), Emit(32766), Label(0)], L, origins,
      Pass2([Branch(0, 0), Emit(32766), Label(0)], L, origins, 0), 0) == 6
  {
    var prog := [Branch(0, 0), Emit(32766), Label(0)];
    assert Pass1(prog, 0) == Layout(TEXT, [0, 0, 0, 0, 0, 0]);
    assert Pass1(prog, 1) == Layout(TEXT, [0, 2, 0, 0, 0, 0]);
    assert Pass1(prog, 2) == Layout(TEXT, [0, 32768, 0, 0, 0, 0]);
    assert SymbolAt(prog, 0, 3) == SymRec(TEXT, true, 32768);
    assert Order(prog, 1) == [0];
    assert Order(prog, 2) == [0];
    assert Order(prog, 3) == [0];
    ResolvedAt(prog, L, 0);
    assert RecOk(L, 0);
    FormOfBounds(6, L[0].span);
    assert IncTo(L, TEXT, 32768, 1) == IncTo(L, TEXT, 32768, 0) + L[0].Extra();
    assert IncTo(L, TEXT, 0, 1) == 0;
    assert LagOk(L, 0);
    if Lag(L, 0) > L[0].Extra() {
      assert !exists p :: 0 <= p < |L| && Adjacent(L, 0, p);
    }
  }

  function LongAligned(n: int): (r: int)
    ensures r % 4 == 0 && r % 2 == 0 && n <= r < n + 4
  {
    var q := (n + 3) / 4;
    Arithmetic.MultipleMod(q, 4);
    Arithmetic.MultipleMod(2 * q, 2);
    4 * q
  }

  /** Size of a csect after relaxation, made long aligned. */
  function SectionSize(prog: seq<Stmt>, L: seq<SdiRec>, section: nat): (r: int)
    requires GoodProgram(prog) && HasForms(L) && section <= BSS
    ensures r % 2 == 0
    ensures Final(L, section, Pass1(prog, |prog|).dots[section]) <= r
  {
    LongAligned(Final(L, section, Pass1(prog, |prog|).dots[section]))
  }

  function Stacked(tsize: int, dsize: int, d1size: int, d2size: int): (origins: seq<int>)
    ensures |origins| == BSS + 1
    ensures forall c :: 0 <= c <= BSS ==> origins[c] == Origin(c, tsize, dsize, d1size, d2size)
  {
    [0, 0, tsize, tsize + dsize, tsize + dsize + d1size, tsize + dsize + d1size + d2size]
  }

  /** Where End places the csects: one behind the other in file order. */
  function Origins(prog: seq<Stmt>, L: seq<SdiRec>): (origins: seq<int>)
    requires GoodProgram(prog) && HasForms(L)
    ensures GoodOrigins(origins)
  {
    var t, d := SectionSize(prog, L, TEXT), SectionSize(prog, L, DATA);
    var d1, d2 := SectionSize(prog, L, DATA1), SectionSize(prog, L, DATA2);
    StackedEven(t, d, d1, d2);
    Stacked(t, d, d1, d2)
  }

  lemma StackedEven(t: int, d: int, d1: int, d2: int)
    requires t % 2 == 0 && d % 2 == 0 && d1 % 2 == 0 && d2 % 2 == 0
    ensures GoodOrigins(Stacked(t, d, d1, d2))
  {
    var origins := Stacked(t, d, d1, d2);
    assert (t + d) % 2 == 0;
    assert (t + d + d1) % 2 == 0;
    assert (t + d + d1 + d2) % 2 == 0;
    assert origins[0] == 0 && origins[1] == 0 && origins[2] == t && origins[3] == t + d
        && origins[4] == t + d + d1 && origins[5] == t + d + d1 + d2;
  }

  /** The code pass 2 emits for a csect stays in front of the next csect. */
  lemma SectionsFit(prog: seq<Stmt>, L: seq<SdiRec>, section: nat)
    requires GoodProgram(prog) && ResolvedFor(prog, L) && HasForms(L)
    requires forall k :: 0 <= k < |L| ==> !Edge(L, k)
    requires TEXT <= section < BSS
    ensures Pass2(prog, L, Origins(prog, L), |prog|).dots[section] <= Origins(prog, L)[section + 1]
  {
    ResolvedSettled(prog, L);
    NoEdgeSameLengths(prog, L, Origins(prog, L));
    SameLengthsInStep(prog, L, Origins(prog, L), |prog|);
  }
}
