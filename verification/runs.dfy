/**
  Properties of whole calls of `interpret`: runs of moves and of cell
  changes wrap around, the output flag, and the behaviour of small
  programs on a fresh machine, including unmatched brackets.
 */
module Runs {
  import opened Wrappers
  import opened Glyphs
  import opened Tape
  import opened Brackets
  import opened Engine
  import opened JumpMemo
  import Nice

  /** The displacement one character asks of the cursor. */
  function Displacement(t: Table, c: char): int
  {
    match Decode(t, c) case MoveRight => 1 case MoveLeft => -1 case _ => 0
  }

  /** The change one character asks of the current cell. */
  function CellDelta(t: Table, c: char): int
  {
    match Decode(t, c) case Increment => 1 case Decrement => -1 case _ => 0
  }

  /** Net cursor displacement a piece of code asks for: +1 per `gt`, -1 per `lt`. */
  function CursorShift(t: Table, s: seq<char>): int
  {
    if |s| == 0 then 0
    else Displacement(t, s[0]) + CursorShift(t, s[1..])
  }

  /** Net change of the current cell a piece of code asks for: +1 per `plus`, -1 per `minus`. */
  function CellShift(t: Table, s: seq<char>): int
  {
    if |s| == 0 then 0
    else CellDelta(t, s[0]) + CellShift(t, s[1..])
  }

  /** One step of the loop, when it continues. */
  lemma RunAdvance(t: Table, code: string, s: Exec, jumps: Jumps, s': Exec, jumps': Jumps, fuel: nat)
    requires Valid(s.m) && s.pc < |code| && fuel >= 1
    requires Step(t, code, s, jumps) == Next(s', jumps')
    ensures Valid(s'.m)
    ensures Run(t, code, s, jumps, fuel) == Run(t, code, s', jumps', fuel - 1)
  {
  }

  /** Wherever it stands, `.` sends the current cell and the loop goes on at the next character. */
  lemma OutputContinues(t: Table, code: string, s: Exec, jumps: Jumps, fuel: nat)
    requires Valid(s.m) && s.pc < |code| && fuel >= 1 && Decode(t, code[s.pc]) == Output
    ensures Run(t, code, s, jumps, fuel)
            == Run(t, code, s.(output := s.output + [Cell(s.m)], flag := true, pc := s.pc + 1), jumps, fuel - 1)
  {
    RunAdvance(t, code, s, jumps, s.(output := s.output + [Cell(s.m)], flag := true, pc := s.pc + 1), jumps, fuel);
  }

  /** Wherever it stands, `,` with input left stores and consumes one byte and the loop goes on at the next character. */
  lemma ReadContinues(t: Table, code: string, s: Exec, jumps: Jumps, fuel: nat)
    requires Valid(s.m) && s.pc < |code| && fuel >= 1 && Decode(t, code[s.pc]) == Input && |s.input| > 0
    ensures Run(t, code, s, jumps, fuel)
            == Run(t, code, s.(m := Write(s.m, s.input[0]), input := s.input[1..], pc := s.pc + 1), jumps, fuel - 1)
  {
    RunAdvance(t, code, s, jumps, s.(m := Write(s.m, s.input[0]), input := s.input[1..], pc := s.pc + 1), jumps, fuel);
  }

  /** Wherever it stands, `,` followed by `.` sends exactly the byte it read. */
  lemma EchoAt(t: Table, code: string, s: Exec, jumps: Jumps, fuel: nat)
    requires Valid(s.m) && s.pc + 1 < |code| && fuel >= 2 && |s.input| > 0
    requires Decode(t, code[s.pc]) == Input && Decode(t, code[s.pc + 1]) == Output
    ensures var s1 := s.(m := Write(s.m, s.input[0]), input := s.input[1..], pc := s.pc + 1);
            Run(t, code, s, jumps, fuel)
            == Run(t, code, s1.(output := s.output + [s.input[0]], flag := true, pc := s.pc + 2), jumps, fuel - 2)
  {
    var s1 := s.(m := Write(s.m, s.input[0]), input := s.input[1..], pc := s.pc + 1);
    ReadContinues(t, code, s, jumps, fuel);
    OutputContinues(t, code, s1, jumps, fuel - 1);
  }

  /** The cursor after the moves in `code[k..]`, taken one wrapped step at a time. */
  function MovedPtr(t: Table, code: string, k: nat, ptr: int, n: nat): int
    requires k <= |code| && n > 0
    decreases |code| - k
  {
    if k == |code| then ptr
    else MovedPtr(t, code, k + 1, (ptr + Displacement(t, code[k])) % n, n)
  }

  /** Stepping one place at a time lands where the net displacement, wrapped once, says. */
  lemma {:induction false} MovedPtrWraps(t: Table, code: string, k: nat, ptr: int, n: nat)
    requires k <= |code| && 0 <= ptr < n
    ensures MovedPtr(t, code, k, ptr, n) == (ptr + CursorShift(t, code[k..])) % n
    decreases |code| - k
  {
    if k == |code| {
      assert code[k..] == [];
      UniqueMod(ptr, 0, ptr, n);
    } else {
      var d := Displacement(t, code[k]);
      var p := (ptr + d) % n;
      var rest := CursorShift(t, code[k + 1..]);
      assert code[k..][1..] == code[k + 1..];
      assert CursorShift(t, code[k..]) == d + rest;
      assert 0 <= p < n;
      MovedPtrWraps(t, code, k + 1, p, n);
      assert MovedPtr(t, code, k, ptr, n) == (p + rest) % n;
      WrapAdd(ptr + d, rest, n);
    }
  }

  /** Applying moves alone leaves the tape and steps the cursor as `MovedPtr` does. */
  lemma {:induction false} PerformMoves(t: Table, code: string, k: nat, m: Machine)
    requires Valid(m) && k <= |code|
    requires forall i :: k <= i < |code| ==> Decode(t, code[i]) == MoveRight || Decode(t, code[i]) == MoveLeft
    ensures Perform(t, code, k, |code|, m) == m.(ptr := MovedPtr(t, code, k, m.ptr, |m.tape|))
    decreases |code| - k
  {
    if k == |code| {
      assert m.(ptr := m.ptr) == m;
    } else {
      var m' := Apply(Decode(t, code[k]), m);
      assert m' == m.(ptr := (m.ptr + Displacement(t, code[k])) % |m.tape|);
      PerformMoves(t, code, k + 1, m');
    }
  }

  /**
    After any sequence of cursor moves the cursor sits at the start position
    plus the net displacement, wrapped to the tape length; the tape is untouched.
   */
  lemma MovesInterpret(t: Table, code: string, m: Machine, input: seq<Byte>)
    requires Valid(m)
    requires forall i :: 0 <= i < |code| ==> Decode(t, code[i]) == MoveRight || Decode(t, code[i]) == MoveLeft
    ensures var r := Interpret(t, code, m, input, |code|);
            && r.Halted? && r.outcome == Done(false)
            && r.final.m.tape == m.tape
            && r.final.m.ptr == (m.ptr + CursorShift(t, code)) % |m.tape|
  {
    StraightOfAll(t, code, 0);
    StraightInterpret(t, code, m, input);
    PerformMoves(t, code, 0, m);
    MovedPtrWraps(t, code, 0, m.ptr, |m.tape|);
    assert code[0..] == code;
  }

  /** The current cell after the changes in `code[k..]`, taken one wrapped step at a time. */
  function ChangedCell(t: Table, code: string, k: nat, v: int): int
    requires k <= |code|
    decreases |code| - k
  {
    if k == |code| then v
    else ChangedCell(t, code, k + 1, (v + CellDelta(t, code[k])) % CellModulus)
  }

  /** Changing the cell one step at a time gives what the net change, wrapped once, says. */
  lemma {:induction false} ChangedCellWraps(t: Table, code: string, k: nat, v: int)
    requires k <= |code| && 0 <= v < CellModulus
    ensures ChangedCell(t, code, k, v) == (v + CellShift(t, code[k..])) % CellModulus
    decreases |code| - k
  {
    if k == |code| {
      assert code[k..] == [];
      UniqueMod(v, 0, v, CellModulus);
    } else {
      var d := CellDelta(t, code[k]);
      var w := (v + d) % CellModulus;
      var rest := CellShift(t, code[k + 1..]);
      assert code[k..][1..] == code[k + 1..];
      assert CellShift(t, code[k..]) == d + rest;
      ChangedCellWraps(t, code, k + 1, w);
      assert ChangedCell(t, code, k, v) == (w + rest) % CellModulus;
      WrapAdd(v + d, rest, CellModulus);
    }
  }

  /** Applying cell changes alone keeps the cursor and steps the current cell as `ChangedCell` does. */
  lemma {:induction false} PerformCells(t: Table, code: string, k: nat, m: Machine)
    requires Valid(m) && k <= |code|
    requires forall i :: k <= i < |code| ==> Decode(t, code[i]) == Increment || Decode(t, code[i]) == Decrement
    ensures Perform(t, code, k, |code|, m) == m.(tape := m.tape[m.ptr := ChangedCell(t, code, k, Cell(m))])
    decreases |code| - k
  {
    if k == |code| {
      assert m.tape[m.ptr := Cell(m)] == m.tape;
    } else {
      var m' := Apply(Decode(t, code[k]), m);
      assert m' == m.(tape := m.tape[m.ptr := (Cell(m) + CellDelta(t, code[k])) % CellModulus]);
      PerformCells(t, code, k + 1, m');
      var x := ChangedCell(t, code, k, Cell(m));
      assert m'.tape[m.ptr := x] == m.tape[m.ptr := x];
    }
  }

  /**
    After any sequence of increments and decrements only the current cell
    has changed, to its old value plus the net change, wrapped modulo 256.
   */
  lemma CellChangesInterpret(t: Table, code: string, m: Machine, input: seq<Byte>)
    requires Valid(m)
    requires forall i :: 0 <= i < |code| ==> Decode(t, code[i]) == Increment || Decode(t, code[i]) == Decrement
    ensures var r := Interpret(t, code, m, input, |code|);
            && r.Halted? && r.outcome == Done(false)
            && r.final.m.ptr == m.ptr
            && r.final.m.tape == m.tape[m.ptr := (Cell(m) + CellShift(t, code)) % CellModulus]
  {
    StraightOfAll(t, code, 0);
    StraightInterpret(t, code, m, input);
    PerformCells(t, code, 0, m);
    ChangedCellWraps(t, code, 0, Cell(m));
    assert code[0..] == code;
  }

  lemma {:induction false} RunWithoutOutput(t: Table, code: string, s: Exec, jumps: Jumps, fuel: nat)
    requires Valid(s.m)
    requires forall i :: 0 <= i < |code| ==> Decode(t, code[i]) != Output
    ensures Run(t, code, s, jumps, fuel).final.output == s.output
    ensures Run(t, code, s, jumps, fuel).final.flag == s.flag
    decreases fuel
  {
    if s.pc < |code| && fuel > 0 {
      var r := Step(t, code, s, jumps);
      if r.Next? {
        RunWithoutOutput(t, code, r.s, r.jumps, fuel - 1);
      }
    }
  }

  /** A program with no output glyph returns false, whichever way it ends. */
  lemma InterpretWithoutOutput(t: Table, code: string, m: Machine, input: seq<Byte>, fuel: nat)
    requires Valid(m)
    requires forall i :: 0 <= i < |code| ==> Decode(t, code[i]) != Output
    ensures var r := Interpret(t, code, m, input, fuel);
            && r.final.output == []
            && (r.Halted? && r.outcome.Done? ==> r.outcome == Done(false))
            && (r.Halted? && r.outcome.Unmatched? ==> !r.outcome.flag)
  {
    RunWithoutOutput(t, code, Start(m, input), map[], fuel);
  }

  /** In a balanced program no step stops on an unmatched bracket, whatever the memo holds. */
  lemma StepNeverUnmatched(t: Table, code: string, s: Exec, jumps: Jumps)
    requires Valid(s.m) && s.pc < |code| && Balanced(t, code)
    ensures var r := Step(t, code, s, jumps); !(r.Stop? && r.outcome.Unmatched?)
  {
    var op := Decode(t, code[s.pc]);
    if op == LoopOpen {
      BalancedOpenMatches(t, code, s.pc);
    } else if op == LoopClose {
      BalancedCloseMatches(t, code, s.pc);
    }
  }

  lemma {:induction false} RunNeverUnmatched(t: Table, code: string, s: Exec, jumps: Jumps, fuel: nat)
    requires Valid(s.m) && Balanced(t, code)
    ensures var r := Run(t, code, s, jumps, fuel); !(r.Halted? && r.outcome.Unmatched?)
    decreases fuel
  {
    if s.pc < |code| && fuel > 0 {
      StepNeverUnmatched(t, code, s, jumps);
      match Step(t, code, s, jumps)
      case Stop(_) =>
      case Next(s', jumps') => RunNeverUnmatched(t, code, s', jumps', fuel - 1);
    }
  }

  /** A balanced program never ends through `handleError`, so nothing is reported. */
  lemma BalancedNeverReports(t: Table, code: string, m: Machine, input: seq<Byte>, fuel: nat)
    requires Valid(m) && Balanced(t, code)
    ensures var r := Interpret(t, code, m, input, fuel);
            && !(r.Halted? && r.outcome.Unmatched?)
            && (r.Halted? ==> Nice.Report(r.outcome) == None)
  {
    RunNeverUnmatched(t, code, Start(m, input), map[], fuel);
  }

  /** `"."` sends the current cell and returns true. */
  lemma PeriodOutputs(m: Machine, input: seq<Byte>, fuel: nat)
    requires Valid(m) && fuel >= 1
    ensures var r := Interpret(Nice.SetChars(), ".", m, input, fuel);
            r.Halted? && r.outcome == Done(true) && r.final.output == [Cell(m)] && r.final.m == m
  {
    OutputContinues(Nice.SetChars(), ".", Start(m, input), map[], fuel);
  }

  /** A lone `,` stores the first unread byte in the current cell and consumes it. */
  lemma CommaReads(t: Table, m: Machine, input: seq<Byte>, fuel: nat)
    requires Distinct(t) && Valid(m) && |input| > 0 && fuel >= 1
    ensures var r := Interpret(t, [t.comma], m, input, fuel);
            && r.Halted? && r.outcome == Done(false)
            && r.final.m.ptr == m.ptr && Cell(r.final.m) == input[0]
            && r.final.m.tape == m.tape[m.ptr := input[0]]
            && r.final.input == input[1..]
  {
    DecodeGlyphOf(t, Input);
    ReadContinues(t, [t.comma], Start(m, input), map[], fuel);
  }

  /** A `,` with nothing left to read fails before changing anything. */
  lemma CommaOnExhaustedInput(t: Table, m: Machine, fuel: nat)
    requires Distinct(t) && Valid(m) && fuel >= 1
    ensures Interpret(t, [t.comma], m, [], fuel) == Halted(InputError, Start(m, []))
  {
    DecodeGlyphOf(t, Input);
    assert Step(t, [t.comma], Start(m, []), map[]) == Stop(InputError);
  }

  /** `,.` echoes the first byte of input and returns true. */
  lemma EchoFirstByte(t: Table, m: Machine, input: seq<Byte>, fuel: nat)
    requires Distinct(t) && Valid(m) && |input| > 0 && fuel >= 2
    ensures var r := Interpret(t, [t.comma, t.period], m, input, fuel);
            r.Halted? && r.outcome == Done(true) && r.final.output == [input[0]]
  {
    DecodeGlyphOf(t, Input);
    DecodeGlyphOf(t, Output);
    EchoAt(t, [t.comma, t.period], Start(m, input), map[], fuel);
  }

  /** On a fresh machine `"]"` runs silently: an rbracket over a zero cell is never checked. */
  lemma LoneCloseOnZeroIsSilent(m: Machine, input: seq<Byte>, fuel: nat)
    requires fuel >= 1
    ensures var r := Interpret(Nice.SetChars(), "]", Reset(m), input, fuel);
            r.Halted? && r.outcome == Done(false) && r.final.m == Reset(m)
  {
    var s := Start(Reset(m), input);
    assert Step(Nice.SetChars(), "]", s, map[]) == Next(s.(pc := 1), map[]);
    assert Run(Nice.SetChars(), "]", s, map[], fuel) == Run(Nice.SetChars(), "]", s.(pc := 1), map[], fuel - 1);
  }

  /** On a fresh machine `"["` has no partner and reports side `Left`, leaving the machine as it was. */
  lemma LoneOpenOnZeroIsUnmatched(m: Machine, input: seq<Byte>, fuel: nat)
    requires fuel >= 1
    ensures var r := Interpret(Nice.SetChars(), "[", Reset(m), input, fuel);
            r.Halted? && r.outcome == Unmatched(Left, false) && r.final.m == Reset(m)
  {
    var s := Start(Reset(m), input);
    assert Step(Nice.SetChars(), "[", s, map[]) == Stop(Unmatched(Left, false));
  }

  /** `"+["`: an lbracket over a non-zero cell is entered without looking for its partner. */
  lemma LoneOpenOnNonZeroIsSilent(m: Machine, input: seq<Byte>, fuel: nat)
    requires fuel >= 2
    ensures var r := Interpret(Nice.SetChars(), "+[", Reset(m), input, fuel);
            r.Halted? && r.outcome == Done(false) && r.final.m.tape[0] == 1
  {
    var t := Nice.SetChars();
    var s := Start(Reset(m), input);
    var s1 := s.(m := CellInc(s.m), pc := 1);
    assert Step(t, "+[", s, map[]) == Next(s1, map[]);
    assert Cell(s1.m) == 1;
    assert Step(t, "+[", s1, map[]) == Next(s1.(pc := 2), map[]);
    assert Run(t, "+[", s, map[], fuel) == Run(t, "+[", s1, map[], fuel - 1);
    assert Run(t, "+[", s1, map[], fuel - 1) == Run(t, "+[", s1.(pc := 2), map[], fuel - 2);
  }

  /** `"+]"`: an rbracket over a non-zero cell with no lbracket before it reports side `Right`. */
  lemma CloseOnNonZeroIsUnmatched(m: Machine, input: seq<Byte>, fuel: nat)
    requires fuel >= 2
    ensures var r := Interpret(Nice.SetChars(), "+]", Reset(m), input, fuel);
            r.Halted? && r.outcome == Unmatched(Right, false) && r.final.m.tape[0] == 1
  {
    var t := Nice.SetChars();
    var s := Start(Reset(m), input);
    var s1 := s.(m := CellInc(s.m), pc := 1);
    assert Step(t, "+]", s, map[]) == Next(s1, map[]);
    assert Cell(s1.m) == 1;
    assert Step(t, "+]", s1, map[]) == Stop(Unmatched(Right, false));
    assert Run(t, "+]", s, map[], fuel) == Run(t, "+]", s1, map[], fuel - 1);
  }

  /** The clear loop. */
  const ClearLoop: string := "[-]"

  /** One step of the memo-free loop, when it continues. */
  lemma RescanAdvance(t: Table, code: string, s: Exec, s': Exec, fuel: nat)
    requires Valid(s.m) && s.pc < |code| && fuel >= 1
    requires RescanStep(t, code, s) == Next(s', map[])
    ensures Valid(s'.m)
    ensures RescanRun(t, code, s, fuel) == RescanRun(t, code, s', fuel - 1)
  {
  }

  /** The operation each character of `code` dispatches to. */
  function Ops(t: Table, code: string): (r: seq<Op>)
    ensures |r| == |code| && forall i :: 0 <= i < |code| ==> r[i] == Decode(t, code[i])
  {
    seq(|code|, i requires 0 <= i < |code| => Decode(t, code[i]))
  }

  /** A program laid out as `[-]` under table `t`, its two brackets partners of each other. */
  predicate ClearShape(t: Table, code: string)
  {
    && Ops(t, code) == [LoopOpen, Decrement, LoopClose]
    && ScanForward(t, code, 0, 1) == Some(2) && ScanBackward(t, code, 2, -1) == Some(0)
  }

  lemma ClearLoopShape()
    ensures ClearShape(Nice.SetChars(), ClearLoop)
  {
    assert ClearLoop[0] == '[' && ClearLoop[1] == '-' && ClearLoop[2] == ']';
  }

  /** The memo-free steps at each of the three positions of a clear loop. */
  lemma ClearSteps(t: Table, code: string, s: Exec)
    requires ClearShape(t, code) && Valid(s.m) && s.pc < 3
    ensures s.pc == 0 && Cell(s.m) == 0 ==> RescanStep(t, code, s) == Next(s.(pc := 3), map[])
    ensures s.pc == 0 && Cell(s.m) != 0 ==> RescanStep(t, code, s) == Next(s.(pc := 1), map[])
    ensures s.pc == 1 ==> RescanStep(t, code, s) == Next(s.(m := CellDec(s.m), pc := 2), map[])
    ensures s.pc == 2 && Cell(s.m) == 0 ==> RescanStep(t, code, s) == Next(s.(pc := 3), map[])
    ensures s.pc == 2 && Cell(s.m) != 0 ==> RescanStep(t, code, s) == Next(s.(pc := 1), map[])
  {
  }

  /** Passes of the clear loop, from just inside the lbracket, with `k` left in the current cell. */
  lemma {:induction false} ClearPasses(t: Table, code: string, s: Exec, k: nat)
    requires ClearShape(t, code) && Valid(s.m)
    requires s.pc == 1 && Cell(s.m) == k && k >= 1
    ensures RescanRun(t, code, s, 2 * k)
            == Halted(Done(s.flag), s.(m := s.m.(tape := s.m.tape[s.m.ptr := 0]), pc := 3))
    decreases k
  {
    var s1 := s.(m := CellDec(s.m), pc := 2);
    ClearSteps(t, code, s);
    RescanAdvance(t, code, s, s1, 2 * k);
    assert Cell(s1.m) == k - 1;
    ClearSteps(t, code, s1);
    if k == 1 {
      RescanAdvance(t, code, s1, s1.(pc := 3), 2 * k - 1);
      assert s1.m == s.m.(tape := s.m.tape[s.m.ptr := 0]);
    } else {
      var s2 := s1.(pc := 1);
      RescanAdvance(t, code, s1, s2, 2 * k - 1);
      ClearPasses(t, code, s2, k - 1);
      assert s2.m.(tape := s2.m.tape[s.m.ptr := 0]) == s.m.(tape := s.m.tape[s.m.ptr := 0]);
    }
  }

  /**
    `"[-]"` sets the current cell to 0, whatever it held, in one step plus two
    per pass; the cursor and every other cell are left alone.
   */
  lemma ClearLoopEmptiesCell(m: Machine, input: seq<Byte>)
    requires Valid(m)
    ensures var r := Interpret(Nice.SetChars(), ClearLoop, m, input, 1 + 2 * Cell(m));
            && r.Halted? && r.outcome == Done(false)
            && r.final.m == m.(tape := m.tape[m.ptr := 0])
  {
    var t := Nice.SetChars();
    var code := ClearLoop;
    var k := Cell(m);
    var s := Start(m, input);
    ClearLoopShape();
    InterpretRescans(t, code, m, input, 1 + 2 * k);
    ClearSteps(t, code, s);
    if k == 0 {
      RescanAdvance(t, code, s, s.(pc := 3), 1);
      assert m.tape[m.ptr := 0] == m.tape;
    } else {
      RescanAdvance(t, code, s, s.(pc := 1), 1 + 2 * k);
      ClearPasses(t, code, s.(pc := 1), k);
    }
  }

  /** The four operations that only touch the machine. */
  predicate MachineOp(op: Op)
  {
    op == MoveRight || op == MoveLeft || op == Increment || op == Decrement
  }

  /** Every character of `code[a..b]` is a move or a cell change. */
  predicate StraightFrom(t: Table, code: string, a: nat, b: nat)
    requires a <= b <= |code|
    decreases b - a
  {
    a == b || (MachineOp(Decode(t, code[a])) && StraightFrom(t, code, a + 1, b))
  }

  /** Code whose every character from `a` on is a move or a cell change is straight from `a` to its end. */
  lemma {:induction false} StraightOfAll(t: Table, code: string, a: nat)
    requires a <= |code|
    requires forall i :: a <= i < |code| ==> MachineOp(Decode(t, code[i]))
    ensures StraightFrom(t, code, a, |code|)
    decreases |code| - a
  {
    if a < |code| {
      StraightOfAll(t, code, a + 1);
    }
  }

  /** The machine after the moves and cell changes of `code[a..b]`, applied in order. */
  function Perform(t: Table, code: string, a: nat, b: nat, m: Machine): (r: Machine)
    requires a <= b <= |code| && Valid(m)
    ensures Valid(r) && |r.tape| == |m.tape|
    decreases b - a
  {
    if a == b then m else Perform(t, code, a + 1, b, Apply(Decode(t, code[a]), m))
  }

  /** One move or cell change: if the memo-free run from the updated state reaches `e`, so does the run from `s`. */
  lemma StraightAdvance(t: Table, code: string, s: Exec, s': Exec, fuel: nat, e: Exec, rest: nat)
    requires Valid(s.m) && s.pc < |code| && fuel >= 1
    requires MachineOp(Decode(t, code[s.pc]))
    requires s' == s.(m := Apply(Decode(t, code[s.pc]), s.m), pc := s.pc + 1)
    requires Valid(e.m) && RescanRun(t, code, s', fuel - 1) == RescanRun(t, code, e, rest)
    ensures RescanRun(t, code, s, fuel) == RescanRun(t, code, e, rest)
  {
    assert RescanStep(t, code, s) == Next(s', map[]);
  }

  /** The end state seen from `s` is the end state seen from the state one character on. */
  lemma StraightTarget(t: Table, code: string, s: Exec, s': Exec, b: nat, e: Exec)
    requires Valid(s.m) && s.pc < b <= |code|
    requires s' == s.(m := Apply(Decode(t, code[s.pc]), s.m), pc := s.pc + 1)
    requires e == s.(m := Perform(t, code, s.pc, b, s.m), pc := b)
    ensures e == s'.(m := Perform(t, code, s'.pc, b, s'.m), pc := b)
  {
  }

  /**
    A stretch of moves and cell changes runs straight through: one step per
    character, ending at its last character with the composed machine effect.
   */
  lemma {:induction false} StraightLine(t: Table, code: string, s: Exec, b: nat, fuel: nat, e: Exec, rest: nat)
    requires Valid(s.m) && s.pc <= b <= |code| && fuel >= b - s.pc
    requires StraightFrom(t, code, s.pc, b)
    requires e == s.(m := Perform(t, code, s.pc, b, s.m), pc := b) && rest == fuel - (b - s.pc)
    ensures Valid(e.m)
    ensures RescanRun(t, code, s, fuel) == RescanRun(t, code, e, rest)
    decreases b - s.pc, 1
  {
    if s.pc == b {
      assert e == s;
    } else {
      StraightOn(t, code, s, b, fuel, e, rest);
    }
  }

  /** The inductive case of `StraightLine`: one step, then the rest of the stretch. */
  lemma {:induction false} StraightOn(t: Table, code: string, s: Exec, b: nat, fuel: nat, e: Exec, rest: nat)
    requires Valid(s.m) && s.pc < b <= |code| && fuel >= b - s.pc
    requires StraightFrom(t, code, s.pc, b)
    requires e == s.(m := Perform(t, code, s.pc, b, s.m), pc := b) && rest == fuel - (b - s.pc)
    ensures Valid(e.m)
    ensures RescanRun(t, code, s, fuel) == RescanRun(t, code, e, rest)
    decreases b - s.pc, 0
  {
    var s' := s.(m := Apply(Decode(t, code[s.pc]), s.m), pc := s.pc + 1);
    StraightTarget(t, code, s, s', b, e);
    StraightLine(t, code, s', b, fuel - 1, e, rest);
    StraightAdvance(t, code, s, s', fuel, e, rest);
  }

  /** A program made only of moves and cell changes ends, in one step per character, on the composed effect. */
  lemma StraightInterpret(t: Table, code: string, m: Machine, input: seq<Byte>)
    requires Valid(m) && StraightFrom(t, code, 0, |code|)
    ensures Interpret(t, code, m, input, |code|)
            == Halted(Done(false), Start(m, input).(m := Perform(t, code, 0, |code|, m), pc := |code|))
  {
    var s := Start(m, input);
    var e := s.(m := Perform(t, code, 0, |code|, m), pc := |code|);
    InterpretRescans(t, code, m, input, |code|);
    StraightLine(t, code, s, |code|, |code|, e, 0);
  }

  const TransferLoop: string := "[->+<]"

  /** A program laid out as `[->+<]` under table `t`, its two brackets partners of each other. */
  predicate TransferShape(t: Table, code: string)
  {
    && Ops(t, code) == [LoopOpen, Decrement, MoveRight, Increment, MoveLeft, LoopClose]
    && ScanForward(t, code, 0, 1) == Some(5) && ScanBackward(t, code, 5, -1) == Some(0)
  }

  lemma TransferLoopShape()
    ensures TransferShape(Nice.SetChars(), TransferLoop)
  {
    var code := TransferLoop;
    assert code[0] == '[' && code[1] == '-' && code[2] == '>' && code[3] == '+' && code[4] == '<' && code[5] == ']';
  }

  /** The cell to the right of the cursor, wrapping at the end of the tape. */
  function RightOf(m: Machine): nat
    requires Valid(m)
  {
    if m.ptr + 1 == |m.tape| then 0 else m.ptr + 1
  }

  /** The machine after one pass of `->+<`: one unit moved from the current cell to its right neighbour. */
  function PassEnd(m: Machine): Machine
    requires Valid(m)
  {
    m.(tape := m.tape[m.ptr := Cell(m) - 1][RightOf(m) := (m.tape[RightOf(m)] + 1) % CellModulus])
  }

  /** On a tape of two or more cells, `->+<` moves one unit from the current cell to its right neighbour. */
  lemma TransferBody(m: Machine)
    requires Valid(m) && |m.tape| >= 2 && Cell(m) >= 1
    ensures RightOf(m) != m.ptr
    ensures CursorLeft(CellInc(CursorRight(CellDec(m)))) == PassEnd(m)
    ensures Valid(PassEnd(m)) && Cell(PassEnd(m)) == Cell(m) - 1
  {
    var q := RightOf(m);
    WrapStep(m.ptr, |m.tape|);
    WrapStep(q, |m.tape|);
    var m1 := CellDec(m);
    assert m1.tape == m.tape[m.ptr := Cell(m) - 1];
    var m2 := CursorRight(m1);
    assert m2.ptr == q;
    var m3 := CellInc(m2);
    assert m3.tape == m1.tape[q := (m.tape[q] + 1) % CellModulus];
    assert CursorLeft(m3).ptr == m.ptr;
  }

  /** The body `->+<` of a transfer loop, as a composed machine effect, is one pass. */
  lemma TransferPerform(t: Table, code: string, m: Machine)
    requires TransferShape(t, code) && Valid(m) && |m.tape| >= 2 && Cell(m) >= 1
    ensures StraightFrom(t, code, 1, 5)
    ensures Perform(t, code, 1, 5, m) == PassEnd(m)
    ensures Valid(PassEnd(m)) && Cell(PassEnd(m)) == Cell(m) - 1
  {
    TransferBody(m);
    var m1 := CellDec(m);
    var m2 := CursorRight(m1);
    var m3 := CellInc(m2);
    assert Perform(t, code, 1, 5, m) == Perform(t, code, 2, 5, m1);
    assert Perform(t, code, 2, 5, m1) == Perform(t, code, 3, 5, m2);
    assert Perform(t, code, 3, 5, m2) == Perform(t, code, 4, 5, m3);
  }

  /** The machine once the current cell's `k` units have all been added to its right neighbour. */
  function Transferred(m: Machine, k: nat): Machine
    requires Valid(m)
  {
    m.(tape := m.tape[m.ptr := 0][RightOf(m) := (m.tape[RightOf(m)] + k) % CellModulus])
  }

  /** After one pass, the remaining `k - 1` units land where all `k` would have. */
  lemma TransferredAfterPass(m: Machine, m': Machine, k: nat)
    requires Valid(m) && |m.tape| >= 2 && Cell(m) == k && k >= 2
    requires m' == PassEnd(m) && Valid(m')
    ensures Transferred(m', k - 1) == Transferred(m, k)
  {
    var q := RightOf(m);
    WrapStep(m.ptr, |m.tape|);
    assert q != m.ptr;
    WrapAdd(m.tape[q] + 1, k - 1, CellModulus);
    assert m'.tape[q] == (m.tape[q] + 1) % CellModulus;
    assert Transferred(m', k - 1).tape == Transferred(m, k).tape;
  }

  /** The memo-free steps at the two brackets of a transfer loop. */
  lemma TransferBracketSteps(t: Table, code: string, s: Exec)
    requires TransferShape(t, code) && Valid(s.m) && (s.pc == 0 || s.pc == 5)
    ensures Cell(s.m) == 0 ==> RescanStep(t, code, s) == Next(s.(pc := 6), map[])
    ensures Cell(s.m) != 0 ==> RescanStep(t, code, s) == Next(s.(pc := 1), map[])
  {
  }

  /** Passes of the transfer loop, from just inside the lbracket, with `k` left in the current cell. */
  lemma {:induction false} TransferPasses(t: Table, code: string, s: Exec, k: nat)
    requires TransferShape(t, code) && Valid(s.m) && |s.m.tape| >= 2
    requires s.pc == 1 && Cell(s.m) == k && k >= 1
    ensures RescanRun(t, code, s, 5 * k) == Halted(Done(s.flag), s.(m := Transferred(s.m, k), pc := 6))
    decreases k, 1
  {
    var e := s.(m := PassEnd(s.m), pc := 5);
    TransferPerform(t, code, s.m);
    TransferPass(t, code, s, 5 * k, e);
    TransferClose(t, code, s, e, k);
  }

  /** The body of one pass runs straight through to the rbracket. */
  lemma TransferPass(t: Table, code: string, s: Exec, fuel: nat, e: Exec)
    requires |code| == 6 && StraightFrom(t, code, 1, 5) && Valid(s.m)
    requires s.pc == 1 && fuel >= 4
    requires e == s.(m := Perform(t, code, 1, 5, s.m), pc := 5)
    ensures Valid(e.m)
    ensures RescanRun(t, code, s, fuel) == RescanRun(t, code, e, fuel - 4)
  {
    StraightLine(t, code, s, 5, fuel, e, fuel - 4);
  }

  /** The rbracket at the end of a pass: leave the loop, or go round again with one unit fewer. */
  lemma {:induction false} TransferClose(t: Table, code: string, s: Exec, e: Exec, k: nat)
    requires TransferShape(t, code) && Valid(s.m) && |s.m.tape| >= 2
    requires s.pc == 1 && Cell(s.m) == k && k >= 1
    requires e == s.(m := PassEnd(s.m), pc := 5)
    requires Valid(e.m) && Cell(e.m) == k - 1
    ensures RescanRun(t, code, e, 5 * k - 4) == Halted(Done(s.flag), s.(m := Transferred(s.m, k), pc := 6))
    decreases k, 0
  {
    TransferBracketSteps(t, code, e);
    if k == 1 {
      RescanAdvance(t, code, e, e.(pc := 6), 5 * k - 4);
      assert e.m == Transferred(s.m, k);
    } else {
      var s2 := e.(pc := 1);
      RescanAdvance(t, code, e, s2, 5 * k - 4);
      TransferPasses(t, code, s2, k - 1);
      TransferredAfterPass(s.m, e.m, k);
    }
  }

  /**
    `"[->+<]"` adds the current cell to its right neighbour, wrapping modulo
    256, and leaves the current cell 0, in one step plus five per unit; the
    cursor and every other cell are left alone. On a one-cell tape the
    neighbour is the cell itself and the loop never ends, so two cells are needed.
   */
  lemma TransferLoopMovesCell(m: Machine, input: seq<Byte>)
    requires Valid(m) && |m.tape| >= 2
    ensures var r := Interpret(Nice.SetChars(), TransferLoop, m, input, 1 + 5 * Cell(m));
            && r.Halted? && r.outcome == Done(false)
            && r.final.m == Transferred(m, Cell(m))
  {
    var t := Nice.SetChars();
    var code := TransferLoop;
    var k := Cell(m);
    var s := Start(m, input);
    TransferLoopShape();
    InterpretRescans(t, code, m, input, 1 + 5 * k);
    TransferBracketSteps(t, code, s);
    if k == 0 {
      RescanAdvance(t, code, s, s.(pc := 6), 1);
      WrapStep(m.ptr, |m.tape|);
      assert m.tape[RightOf(m)] % CellModulus == m.tape[RightOf(m)];
      assert Transferred(m, 0).tape == m.tape;
    } else {
      RescanAdvance(t, code, s, s.(pc := 1), 1 + 5 * k);
      TransferPasses(t, code, s.(pc := 1), k);
    }
  }

  /** Five units in cell 0 and none in cell 1: the loop leaves 0 and 5. */
  lemma TransferFiveUnits(m: Machine, input: seq<Byte>)
    requires Valid(m) && |m.tape| >= 2 && m.ptr == 0 && m.tape[0] == 5 && m.tape[1] == 0
    ensures var r := Interpret(Nice.SetChars(), TransferLoop, m, input, 26);
            && r.Halted? && r.outcome == Done(false)
            && r.final.m.ptr == 0 && r.final.m.tape[0] == 0 && r.final.m.tape[1] == 5
  {
    TransferLoopMovesCell(m, input);
    assert 26 == 1 + 5 * Cell(m);
    FiveUnitsMoved(m);
  }

  /** The tape arithmetic of `TransferFiveUnits`: cell 1 is the right neighbour of cell 0. */
  lemma FiveUnitsMoved(m: Machine)
    requires Valid(m) && |m.tape| >= 2 && m.ptr == 0 && m.tape[0] == 5 && m.tape[1] == 0
    ensures Transferred(m, Cell(m)).ptr == 0
    ensures Transferred(m, Cell(m)).tape[0] == 0 && Transferred(m, Cell(m)).tape[1] == 5
  {
    WrapStep(0, |m.tape|);
    assert RightOf(m) == 1;
  }
}
