/**
 The words as68 writes for a branch on pass 2, and where the 68000 goes when it
 runs them.
 */
module BranchCode {
  import opened AssemblerPasses

  // ---- The machine -------------------------------------------------------

  const WORD: int := 0x1_0000

  /** A number as the sign-extended word or byte it is stored in. */
  function SignedWord(w: int): int {
    if w % WORD >= 0x8000 then w % WORD - WORD else w % WORD
  }

  function SignedByte(b: int): int {
    if b % 256 >= 128 then b % 256 - 256 else b % 256
  }

  datatype Landing = Goto(pc: int) | Call(pc: int, ret: int) | Other

  /** Displacement of a branch: in the opcode word, or in the next word when that is zero. */
  function Displacement(code: seq<int>): int
    requires |code| >= 2
  {
    if code[0] % 256 != 0 then SignedByte(code[0]) else SignedWord(code[1])
  }

  function BranchLength(code: seq<int>): int
    requires |code| >= 1
  {
    if code[0] % 256 != 0 then 2 else 4
  }

  /** One bra, bsr, bcc, nop, jmp or jsr at an address; holds tells which conditions hold. */
  function Step(code: seq<int>, pc: int, holds: nat -> bool): Landing
    requires |code| >= 3
  {
    var op := code[0];
    if op == 0x4E71 then Goto(pc + 2)
    else if op == 0x4EF9 then Goto(code[1] * WORD + code[2])
    else if op == 0x4EB9 then Call(code[1] * WORD + code[2], pc + 6)
    else if op == 0x4EFA then Goto(pc + 2 + SignedWord(code[1]))
    else if 0x6000 <= op < 0x6100 then Goto(pc + 2 + Displacement(code))
    else if 0x6100 <= op < 0x6200 then Call(pc + 2 + Displacement(code), pc + BranchLength(code))
    else if 0x6200 <= op < 0x7000 then
      Goto(if holds(op / 256 - 0x60) then pc + 2 + Displacement(code) else pc + BranchLength(code))
    else Other
  }

  /** Conditions come in pairs of opposites. */
  ghost predicate Opposites(holds: nat -> bool) {
    forall c :: 2 <= c < 16 && c % 2 == 0 ==> holds(c) == !holds(c + 1)
  }

  const BRA := 0x6000
  const BSR := 0x6100
  const JMP := 0x4EC0
  const JSR := 0x4E80

  /** The operand: its final value, and whether its symbol is defined in the current csect. */
  datatype Operand = Operand(value: int, here: bool)

  datatype Complaint = OffsetError | RelocateError

  class Coder {
    /** Words of the instruction and its length in bytes. */
    const wcode: array<int>
    var length: int
    var errors: seq<Complaint>
    const dot: int

    ghost predicate Valid()
      reads this
    {
      wcode.Length == 4
    }

    constructor (dot: int)
      ensures Valid() && length == 2 && errors == [] && this.dot == dot && wcode[..] == [0, 0, 0, 0] && fresh(wcode)
    {
      wcode := new int[4](_ => 0);
      this.dot := dot;
      length, errors := 2, [];
    }

    /** A word or long appended to the instruction. */
    method RelVal(val: int, long: bool)
      requires Valid() && 2 <= length <= (if long then 4 else 6) && length % 2 == 0
      modifies this`length, wcode
      ensures length == old(length) + if long then 4 else 2
      ensures long ==>
        wcode[..] == old(wcode[..])[old(length) / 2 := val / WORD % WORD][old(length) / 2 + 1 := val % WORD]
      ensures !long ==> wcode[..] == old(wcode[..])[old(length) / 2 := val % WORD]
    {
      var i := length / 2;
      if long {
        wcode[i] := val / WORD % WORD;
        i := i + 1;
        length := length + 2;
      }
      wcode[i] := val % WORD;
      length := length + 2;
    }

    /** branch: a word displacement. */
    method Branch(opr: int, o: Operand)
      requires Valid() && length == 2 && o.here
      modifies this`length, this`errors, wcode
      ensures length == 4 && wcode[0] == opr && wcode[1] == (o.value - (dot + 2)) % WORD
      ensures errors == old(errors) + if -32768 <= o.value - (dot + 2) <= 32767 then [] else [OffsetError]
    {
      wcode[0] := opr;
      var offs := o.value - (dot + 2);
      if offs > 32767 || offs < -32768 {
        errors := errors + [OffsetError];
      }
      RelVal(offs, false);
    }

    /** brnchs: the displacement in the opcode word; a displacement of zero would mean a word follows. */
    method Brnchs(opr: int, o: Operand)
      requires Valid() && length == 2 && o.here && opr % 256 == 0
      modifies this`errors, wcode
      ensures var offs := o.value - (dot + 2);
        && wcode[0] == (if offs != 0 then opr + offs % 256 else if opr != BSR then 0x4E71 else opr)
        && errors == old(errors) + (if -128 <= offs <= 127 && (offs != 0 || opr != BSR) then [] else [OffsetError])
    {
      wcode[0] := opr;
      var offs := o.value - (dot + 2);
      if offs > 127 || offs < -128 {
        errors := errors + [OffsetError];
      }
      if offs != 0 {
        wcode[0] := opr + offs % 256;
      } else if opr != BSR {
        wcode[0] := 0x4E71;
      } else {
        errors := errors + [OffsetError];
      }
    }

    /** ctrl_op on a plain address: jmp or jsr to an absolute long. */
    method CtrlOp(lopr: int, o: Operand)
      requires Valid() && length == 2 && lopr % 64 == 0
      modifies this`length, wcode
      ensures length == 6 && wcode[0] == lopr + 0x39
      ensures wcode[1] == o.value / WORD % WORD && wcode[2] == o.value % WORD
    {
      wcode[0] := lopr + 0x39;
      RelVal(o.value, true);
    }

    /** baround: the opposite branch over six bytes, then the jmp. */
    method Baround(opr: int, o: Operand)
      requires Valid() && length == 2 && opr % 256 == 0
      modifies this`length, wcode
      ensures length == 8 && wcode[0] == Around(opr) && wcode[1] == JMP + 0x3A
      ensures wcode[2] == o.value / WORD % WORD && wcode[3] == o.value % WORD
    {
      wcode[0] := Around(opr);
      wcode[1] := JMP + 0x3A;
      length := 4;
      RelVal(o.value, true);
    }

    /** jbrnch on pass 2. */
    method Jbrnch(opr: int, lopr: int, o: Operand)
      requires Valid() && length == 2 && errors == []
      requires (opr == BRA && lopr == JMP) || (opr == BSR && lopr == JSR)
      modifies this`length, this`errors, wcode
      ensures length == PassTwoLength(o.here, o.value - (dot + 2), false)
      ensures errors == if opr == BSR && o.here && o.value == dot + 2 then [OffsetError] else []
      ensures 0 <= o.value < 0x1_0000_0000 && errors == [] ==> forall holds ::
        Step(wcode[..], dot, holds) == if opr == BRA then Goto(o.value) else Call(o.value, dot + length)
    {
      var offs := o.value - (dot + 2);
      if !o.here || offs < -32768 || offs > 32767 {
        CtrlOp(lopr, o);
      } else if offs > 127 || offs < -128 {
        Branch(opr, o);
      } else {
        Brnchs(opr, o);
      }
    }

    /** cbrnch on pass 2. */
    method Cbrnch(opr: int, o: Operand)
      requires Valid() && length == 2 && errors == []
      requires 0x6200 <= opr < 0x7000 && opr % 256 == 0
      modifies this`length, this`errors, wcode
      ensures length == PassTwoLength(o.here, o.value - (dot + 2), true) && errors == []
      ensures forall holds :: Opposites(holds) ==>
        Run(wcode[..], dot, length, holds) == Goto(ConditionalTarget(opr, o.value, dot, length, holds))
    {
      var offs := o.value - (dot + 2);
      if !o.here || offs < -32768 || offs > 32767 {
        Baround(opr, o);
      } else if offs > 127 || offs < -128 {
        Branch(opr, o);
      } else {
        Brnchs(opr, o);
      }
      forall holds | Opposites(holds)
        ensures Run(wcode[..], dot, length, holds) == Goto(ConditionalTarget(opr, o.value, dot, length, holds))
      {
        if length == 8 {
          AroundRuns(wcode[..], dot, opr, o.value, holds);
        } else {
          ConditionalRuns(wcode[..], dot, opr, o.value, length, holds);
        }
      }
    }
  }

  /** Where a conditional jump goes: on, to its target, or for the eight-byte form wherever its jmp lands. */
  function ConditionalTarget(opr: int, value: int, dot: int, length: int, holds: nat -> bool): int
    requires 0x6200 <= opr < 0x7000
  {
    if length < 8 && value == dot + 2 then value
    else if !holds(opr / 256 - 0x60) then dot + length
    else if length == 8 then dot + 4 + SignedWord(value / WORD)
    else value
  }

  lemma ConditionalRuns(code: seq<int>, dot: int, opr: int, value: int, length: int, holds: nat -> bool)
    requires |code| == 4 && 0x6200 <= opr < 0x7000 && opr % 256 == 0
    requires var offs := value - (dot + 2);
      if length == 4 then -32768 <= offs <= 32767 && code[0] == opr && code[1] == offs % WORD
      else length == 2 && -128 <= offs <= 127 && code[0] == if offs == 0 then 0x4E71 else opr + offs % 256
    requires length == 4 ==> value != dot + 2
    ensures Run(code, dot, length, holds) == Goto(ConditionalTarget(opr, value, dot, length, holds))
  {
    var offs := value - (dot + 2);
    assert opr == 256 * (opr / 256);
    if length == 2 && offs != 0 {
      assert code[0] / 256 == opr / 256 && code[0] % 256 == offs % 256 != 0;
    }
  }

  /** The opcode with the condition reversed and a displacement of six. */
  function Around(opr: int): int {
    if opr / 256 % 2 == 0 then opr + 0x106 else opr - 0x100 + 6
  }

  /** The instructions of one branch run until control leaves them. */
  function Run(code: seq<int>, pc: int, length: int, holds: nat -> bool): Landing
    requires |code| == 4
  {
    var first := Step(code, pc, holds);
    if length == 8 && first == Goto(pc + 2) then Step(code[1..], pc + 2, holds) else first
  }

  lemma AroundRuns(code: seq<int>, dot: int, opr: int, value: int, holds: nat -> bool)
    requires |code| == 4 && 0x6200 <= opr < 0x7000 && opr % 256 == 0 && Opposites(holds)
    requires code[0] == Around(opr) && code[1] == JMP + 0x3A && code[2] == value / WORD % WORD
    ensures Run(code, dot, 8, holds)
      == Goto(if holds(opr / 256 - 0x60) then dot + 4 + SignedWord(value / WORD) else dot + 8)
  {
    var c := opr / 256 - 0x60;
    assert opr == 256 * (c + 0x60);
    if c % 2 == 0 {
      assert Around(opr) / 256 - 0x60 == c + 1;
      assert holds(c) == !holds(c + 1);
    } else {
      assert Around(opr) / 256 - 0x60 == c - 1;
      assert holds(c - 1) == !holds(c - 1 + 1);
    }
    assert Around(opr) % 256 == 6;
  }

  /**
   The jmp of the eight-byte form is given a pc-relative mode and an absolute
   address, so it lands on its target only when the distance from the address words
   happens to be the sign-extended high half of the target.
   */
  lemma AroundReachesIff(code: seq<int>, dot: int, opr: int, value: int, holds: nat -> bool)
    requires |code| == 4 && 0x6200 <= opr < 0x7000 && opr % 256 == 0 && Opposites(holds)
    requires code[0] == Around(opr) && code[1] == JMP + 0x3A && code[2] == value / WORD % WORD
    requires holds(opr / 256 - 0x60)
    ensures Run(code, dot, 8, holds) == Goto(value) <==> value - (dot + 4) == SignedWord(value / WORD)
  {
    AroundRuns(code, dot, opr, value, holds);
  }

  /** Within one csect the eight-byte form never lands on its target, short of the top of the address space. */
  lemma AroundMisses(code: seq<int>, dot: int, opr: int, value: int, holds: nat -> bool)
    requires |code| == 4 && 0x6200 <= opr < 0x7000 && opr % 256 == 0 && Opposites(holds)
    requires code[0] == Around(opr) && code[1] == JMP + 0x3A && code[2] == value / WORD % WORD
    requires holds(opr / 256 - 0x60)
    requires PassTwoLength(true, value - (dot + 2), true) == 8 && 0 <= value < 0x7FFE_0000
    ensures Run(code, dot, 8, holds) != Goto(value)
  {
    AroundRuns(code, dot, opr, value, holds);
  }
}
