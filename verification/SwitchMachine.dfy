/**
 The 68000 instructions that switch compilation emits, and what they do with the
 switch value in d0.
 */
module SwitchMachine {
  import opened Word

  datatype Option<T> = None | Some(value: T)

  datatype Instr =
    | LabelDef(l: int)
    | Subl(v: int)              // subl #v,d0
    | Cmpl(v: int)              // cmpl #v,d0
    | Beq(l: int)
    | Bgt(l: int)               // signed
    | Bhi(l: int)               // unsigned
    | Bra(l: int)
    | Addw                      // addw d0,d0
    | MovwTable                 // movw pc@(6,d0:w),d0
    | JmpTable                  // jmp pc@(2,d0:w)
    | Word(l: int, base: int)   // .word l-base

  const TWO15 := 0x8000
  const TWO16 := 0x1_0000

  /** The signed value of the low word. */
  function LowWord(x: int): int {
    (x + TWO15) % TWO16 - TWO15
  }

  datatype Outcome =
    | Exit(l: int)    // control left for a label defined elsewhere
    | Fall            // control reached the end of the code
    | Stuck           // a table access that hits no table entry

  datatype Run = Run(outcome: Outcome, compares: nat)

  /** The code behind a label definition. */
  function After(code: seq<Instr>, l: int): (rest: seq<Instr>)
    requires LabelDef(l) in code
    ensures |rest| < |code|
  {
    if code[0] == LabelDef(l) then code[1..] else After(code[1..], l)
  }

  /** The .word entry a given number of bytes into the code, where it can be found. */
  function WordAt(code: seq<Instr>, offset: int): Option<(int, int)>
    decreases |code|
  {
    if code == [] then None
    else
      match code[0]
      case JmpTable => WordAt(code[1..], offset - 4)
      case LabelDef(_) => WordAt(code[1..], offset)
      case Word(l, base) => if offset == 0 then Some((l, base)) else WordAt(code[1..], offset - 2)
      case _ => None
  }

  /** d0, the operands of the last compare, and the table word in d0 if there is one. */
  datatype State = State(d0: int, cmp: (int, int), word: Option<(int, int)>)

  /** Control goes to l: further down this code, or out of it. */
  function Jump(l: int, rest: seq<Instr>, st: State): Run
    decreases |rest|, 1
  {
    if LabelDef(l) in rest then Exec(After(rest, l), st) else Run(Exit(l), 0)
  }

  function Exec(code: seq<Instr>, st: State): Run
    decreases |code|, 0
  {
    if code == [] then Run(Fall, 0)
    else
      var rest := code[1..];
      match code[0]
      case LabelDef(_) => Exec(rest, st)
      case Subl(v) => Exec(rest, st.(d0 := Wrap32(st.d0 - v)))
      case Cmpl(v) => var r := Exec(rest, st.(cmp := (st.d0, v))); r.(compares := r.compares + 1)
      case Beq(l) => if st.cmp.0 == st.cmp.1 then Jump(l, rest, st) else Exec(rest, st)
      case Bgt(l) => if st.cmp.0 > st.cmp.1 then Jump(l, rest, st) else Exec(rest, st)
      case Bhi(l) => if Unsigned32(st.cmp.0) > Unsigned32(st.cmp.1) then Jump(l, rest, st) else Exec(rest, st)
      case Bra(l) => Jump(l, rest, st)
      case Addw => Exec(rest, st.(d0 := st.d0 - LowWord(st.d0) + LowWord(2 * LowWord(st.d0))))
      case MovwTable =>
        // the table is 4 bytes past the end of this instruction
        var w := WordAt(rest, 4 + LowWord(st.d0));
        if w.None? then Run(Stuck, 0) else Exec(rest, st.(word := w))
      case JmpTable =>
        // the displacement counts from the end of this instruction
        if st.word.Some? && rest != [] && rest[0] == LabelDef(st.word.value.1) then Jump(st.word.value.0, rest, st)
        else Run(Stuck, 0)
      case Word(_, _) => Run(Stuck, 0)
  }

  function Start(x: int): State {
    State(x, (0, 0), None)
  }

  /** Where control ends up on a jump to l in front of code that only l's definition can catch. */
  function Landing(l: int, rest: seq<Instr>): Outcome {
    if LabelDef(l) in rest then Fall else Exit(l)
  }

  /** If the code defines l at all, then at its very end. */
  ghost predicate Catches(rest: seq<Instr>, l: int) {
    LabelDef(l) in rest ==> After(rest, l) == []
  }

  lemma JumpLands(l: int, rest: seq<Instr>, st: State)
    requires Catches(rest, l)
    ensures Jump(l, rest, st) == Run(Landing(l, rest), 0)
  {}

  /** Code without a definition of l is skipped by a jump to l. */
  lemma {:induction false} JumpOver(front: seq<Instr>, rest: seq<Instr>, l: int)
    requires LabelDef(l) !in front
    ensures LabelDef(l) in front + rest <==> LabelDef(l) in rest
    ensures LabelDef(l) in rest ==> After(front + rest, l) == After(rest, l)
    ensures Catches(rest, l) ==> Catches(front + rest, l)
    ensures Landing(l, front + rest) == Landing(l, rest)
  {
    if front == [] {
      assert front + rest == rest;
    } else {
      assert front + rest == [front[0]] + (front[1..] + rest);
      JumpOver(front[1..], rest, l);
    }
  }

  /** A jump to l lands behind l's first definition. */
  lemma JumpTo(front: seq<Instr>, l: int, rest: seq<Instr>, st: State)
    requires LabelDef(l) !in front
    ensures Jump(l, front + [LabelDef(l)] + rest, st) == Exec(rest, st)
  {
    assert front + [LabelDef(l)] + rest == front + ([LabelDef(l)] + rest);
    JumpOver(front, [LabelDef(l)] + rest, l);
    assert ([LabelDef(l)] + rest)[1..] == rest;
  }
}
