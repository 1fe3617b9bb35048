/**
  The dispatch loop of `Interpreter.interpret`: one pure step per program
  character, a fuel-bounded run of steps, and the per-call jump memo.
  Input is a sequence of bytes consumed from the front; output is the
  sequence of cell values sent to the output sink.
 */
module Engine {
  import opened Wrappers
  import opened Glyphs
  import opened Tape
  import opened Brackets

  /** Which bracket had no partner: `Left` for an lbracket, `Right` for an rbracket. */
  datatype Side = Left | Right

  /**
    How a call of `interpret` ends: normally with the output flag; through
    `handleError(side)` followed by an early return of the flag so far; or
    with the exception reading past the end of the input raises.
   */
  datatype Outcome = Done(flag: bool) | Unmatched(side: Side, flag: bool) | InputError

  /** An interpreter object: its machine and its current glyph table. */
  datatype Interp = Interp(m: Machine, table: Table)

  /** Everything one call of `interpret` works on, apart from the jump memo. */
  datatype Exec = Exec(m: Machine, pc: nat, input: seq<Byte>, output: seq<int>, flag: bool)

  /** The `jumps` dictionary: bracket position to partner position. */
  type Jumps = map<nat, nat>

  datatype StepResult = Next(s: Exec, jumps: Jumps) | Stop(outcome: Outcome)

  datatype RunResult = Halted(outcome: Outcome, final: Exec) | OutOfFuel(final: Exec)

  /** The state `interpret` starts from: index 0, no output yet, flag false. */
  function Start(m: Machine, input: seq<Byte>): Exec
  {
    Exec(m, 0, input, [], false)
  }

  /** The `handleError` side string the engine passes for each kind of unmatched bracket. */
  function SideName(side: Side): string
  {
    match side
    case Left => "left"
    case Right => "right"
  }

  /** The four operations that touch only the machine: cursor moves and cell changes. */
  function Apply(op: Op, m: Machine): (r: Machine)
    requires Valid(m)
    ensures Valid(r) && |r.tape| == |m.tape|
    ensures r.tape == m.tape[m.ptr := r.tape[m.ptr]]
  {
    match op
    case MoveRight => CursorRight(m)
    case MoveLeft => CursorLeft(m)
    case Increment => CellInc(m)
    case Decrement => CellDec(m)
    case _ => m
  }

  /**
    The lbracket branch: fall into the body over a non-zero cell; otherwise
    jump past the partner, taken from the memo or found by a forward scan
    and then recorded both ways; with no partner, stop on side `Left`.
   */
  function OpenStep(t: Table, code: string, s: Exec, jumps: Jumps): (r: StepResult)
    requires s.pc < |code| && Valid(s.m)
    ensures r.Next? ==> r.s == s.(pc := r.s.pc)
    ensures r.Stop? ==> r.outcome == Unmatched(Left, s.flag) && Cell(s.m) == 0
    // entering the body or taking a recorded jump leaves the memo alone
    ensures r.Next? && (Cell(s.m) != 0 || s.pc in jumps) ==> r.jumps == jumps
    // a skip lands just past the partner the memo now holds
    ensures r.Next? && Cell(s.m) == 0 ==> s.pc in r.jumps && r.jumps[s.pc] + 1 == r.s.pc
    // a scan records the pair it found in both directions, and nothing else
    ensures r.Next? && Cell(s.m) == 0 && s.pc !in jumps ==>
              var q := r.jumps[s.pc]; s.pc < q < |code| && r.jumps == jumps[s.pc := q][q := s.pc]
  {
    if Cell(s.m) != 0 then Next(s.(pc := s.pc + 1), jumps)
    else if s.pc in jumps then Next(s.(pc := jumps[s.pc] + 1), jumps)
    else match ScanForward(t, code, s.pc, 1)
      case None => Stop(Unmatched(Left, s.flag))
      case Some(q) => Next(s.(pc := q + 1), jumps[s.pc := q][q := s.pc])
  }

  /**
    The rbracket branch: fall through over a zero cell; otherwise jump to
    just after the partner, taken from the memo or found by a backward scan
    seeded at depth -1 and then recorded both ways; with no partner, stop
    on side `Right`.
   */
  function CloseStep(t: Table, code: string, s: Exec, jumps: Jumps): (r: StepResult)
    requires s.pc < |code| && Valid(s.m)
    ensures r.Next? ==> r.s == s.(pc := r.s.pc)
    ensures r.Stop? ==> r.outcome == Unmatched(Right, s.flag) && Cell(s.m) != 0
    // falling through or taking a recorded jump leaves the memo alone
    ensures r.Next? && (Cell(s.m) == 0 || s.pc in jumps) ==> r.jumps == jumps
    // a jump back lands just past the partner the memo now holds
    ensures r.Next? && Cell(s.m) != 0 ==> s.pc in r.jumps && r.jumps[s.pc] + 1 == r.s.pc
    // a scan records the pair it found in both directions, and nothing else
    ensures r.Next? && Cell(s.m) != 0 && s.pc !in jumps ==>
              var p := r.jumps[s.pc]; p < s.pc && r.jumps == jumps[s.pc := p][p := s.pc]
  {
    if Cell(s.m) == 0 then Next(s.(pc := s.pc + 1), jumps)
    else if s.pc in jumps then Next(s.(pc := jumps[s.pc] + 1), jumps)
    else match ScanBackward(t, code, s.pc, -1)
      case None => Stop(Unmatched(Right, s.flag))
      case Some(p) => Next(s.(pc := p + 1), jumps[s.pc := p][p := s.pc])
  }

  /** One iteration of the dispatch loop, at the character under `s.pc`. */
  function Step(t: Table, code: string, s: Exec, jumps: Jumps): (r: StepResult)
    requires s.pc < |code|
    requires Valid(s.m)
    // the tape keeps its length, the cursor stays on it, every cell stays a byte
    ensures r.Next? ==> Valid(r.s.m) && |r.s.m.tape| == |s.m.tape|
    // only the cell under the cursor can change
    ensures r.Next? ==> r.s.m.tape == s.m.tape[s.m.ptr := r.s.m.tape[s.m.ptr]]
    // output only grows, and the flag records whether it did
    ensures r.Next? ==> s.output <= r.s.output
    ensures r.Next? ==> (r.s.flag <==> s.flag || |r.s.output| > |s.output|)
    ensures r.Next? ==> (|r.s.output| > |s.output| <==> Decode(t, code[s.pc]) == Output)
    // input is consumed from the front, one byte per read
    ensures r.Next? ==> r.s.input == s.input || (|s.input| > 0 && r.s.input == s.input[1..])
    // a character matching no glyph only advances the index
    ensures Decode(t, code[s.pc]) == Comment ==>
              r.Next? && r.s == s.(pc := s.pc + 1) && r.jumps == jumps
    // `.` appends exactly the current cell, sets the flag and moves on to the next character
    ensures Decode(t, code[s.pc]) == Output ==>
              && r.Next? && r.jumps == jumps
              && r.s == s.(output := s.output + [Cell(s.m)], flag := true, pc := s.pc + 1)
    // `,` stores the first unread byte, consumes it and moves on, or fails on exhausted input
    ensures Decode(t, code[s.pc]) == Input ==> (r.Stop? <==> |s.input| == 0)
    ensures Decode(t, code[s.pc]) == Input && |s.input| > 0 ==>
              && r.Next? && r.jumps == jumps
              && r.s == s.(m := Write(s.m, s.input[0]), input := s.input[1..], pc := s.pc + 1)
    // a stop leaves its reason and the flag so far, and only a bracket or a read can stop
    ensures r.Stop? ==>
              || (r.outcome == Unmatched(Left, s.flag) && Decode(t, code[s.pc]) == LoopOpen && Cell(s.m) == 0)
              || (r.outcome == Unmatched(Right, s.flag) && Decode(t, code[s.pc]) == LoopClose && Cell(s.m) != 0)
              || (r.outcome == InputError && Decode(t, code[s.pc]) == Input && |s.input| == 0)
  {
    var m := s.m;
    match Decode(t, code[s.pc])
    case MoveRight | MoveLeft | Increment | Decrement =>
      Next(s.(m := Apply(Decode(t, code[s.pc]), m), pc := s.pc + 1), jumps)
    case Output => Next(s.(output := s.output + [Cell(m)], flag := true, pc := s.pc + 1), jumps)
    case Input =>
      if |s.input| == 0 then Stop(InputError)
      else Next(s.(m := Write(m, s.input[0]), input := s.input[1..], pc := s.pc + 1), jumps)
    case LoopOpen => OpenStep(t, code, s, jumps)
    case LoopClose => CloseStep(t, code, s, jumps)
    case Comment => Next(s.(pc := s.pc + 1), jumps)
  }

  /**
    The `while index < len(code)` loop, cut off after `fuel` iterations
    because a program need not terminate. A stop keeps the state as it was.
   */
  function Run(t: Table, code: string, s: Exec, jumps: Jumps, fuel: nat): (r: RunResult)
    requires Valid(s.m)
    ensures Valid(r.final.m) && |r.final.m.tape| == |s.m.tape|
    ensures s.output <= r.final.output
    ensures r.final.flag <==> s.flag || |r.final.output| > |s.output|
    ensures r.Halted? && r.outcome.Done? ==> r.outcome.flag == r.final.flag && r.final.pc >= |code|
    ensures r.Halted? && r.outcome.Unmatched? ==> r.outcome.flag == r.final.flag
    decreases fuel
  {
    if s.pc >= |code| then Halted(Done(s.flag), s)
    else if fuel == 0 then OutOfFuel(s)
    else match Step(t, code, s, jumps)
      case Stop(o) => Halted(o, s)
      case Next(s', jumps') => Run(t, code, s', jumps', fuel - 1)
  }

  /** `interpret(code)` on a machine, with a fresh, empty jump memo. */
  function Interpret(t: Table, code: string, m: Machine, input: seq<Byte>, fuel: nat): (r: RunResult)
    requires Valid(m)
    ensures Valid(r.final.m) && |r.final.m.tape| == |m.tape|
    // the returned flag says whether anything was output
    ensures r.Halted? && !r.outcome.InputError? ==> (r.outcome.flag <==> |r.final.output| > 0)
    ensures |code| == 0 ==> r == Halted(Done(false), Start(m, input))
  {
    Run(t, code, Start(m, input), map[], fuel)
  }
}
