/**
  `NiceInterpreter`: the traditional glyphs and readable messages for
  unmatched brackets.
 */
module Nice {
  import opened Wrappers
  import opened Glyphs
  import opened Tape
  import opened Engine

  /** `setChars`: each operation is written with its traditional glyph. */
  function SetChars(): (t: Table)
    ensures Distinct(t)
    ensures GlyphSet(t) == {'>', '<', '+', '-', '.', ',', '[', ']'}
    ensures Decode(t, '>') == MoveRight && Decode(t, '<') == MoveLeft
    ensures Decode(t, '+') == Increment && Decode(t, '-') == Decrement
    ensures Decode(t, '.') == Output && Decode(t, ',') == Input
    ensures Decode(t, '[') == LoopOpen && Decode(t, ']') == LoopClose
  {
    Table('>', '<', '+', '-', '.', ',', '[', ']')
  }

  const LeftMessage: string := "Couldn't find matching right bracket"
  const RightMessage: string := "Couldn't find matching left bracket"
  const UnknownMessage: string := "An unknown error occurred."

  /** `handleError(side)`: the line printed for each side string. */
  function HandleError(side: string): (msg: string)
    ensures msg == LeftMessage <==> side == "left"
    ensures msg == RightMessage <==> side == "right"
    ensures msg == UnknownMessage <==> side != "left" && side != "right"
  {
    if side == "left" then LeftMessage
    else if side == "right" then RightMessage
    else UnknownMessage
  }

  /** The message a call of `interpret` prints, if it ends through `handleError`. */
  function Report(o: Outcome): (msg: Option<string>)
    ensures msg.Some? <==> o.Unmatched?
    ensures o.Unmatched? && o.side == Left ==> msg == Some(LeftMessage)
    ensures o.Unmatched? && o.side == Right ==> msg == Some(RightMessage)
  {
    match o
    case Unmatched(side, _) => Some(HandleError(SideName(side)))
    case _ => None
  }

  /** The engine only ever passes "left" or "right", so the unknown-error line is never printed. */
  lemma ReportNeverUnknown(o: Outcome)
    ensures Report(o) != Some(UnknownMessage)
  {
  }

  /** Construction: `reset` followed by `setChars`. */
  function New(): (it: Interp)
    ensures it.table == SetChars()
    ensures it.m.ptr == 0 && |it.m.tape| == TapeSize
    ensures forall i :: 0 <= i < |it.m.tape| ==> it.m.tape[i] == 0
  {
    Interp(Reset(Machine([], 0)), SetChars())
  }

  /** `execute` of a `NiceInterpreter` is plain `interpret`; the table never changes. */
  function Execute(it: Interp, code: string, input: seq<Byte>, fuel: nat): (r: (RunResult, Interp))
    requires Valid(it.m)
    // the call is one `interpret` on the object's own machine and glyphs
    ensures r.0 == Interpret(it.table, code, it.m, input, fuel)
    ensures r.1.table == it.table && r.1.m == r.0.final.m
    ensures Valid(r.1.m) && |r.1.m.tape| == |it.m.tape|
    // the returned flag says whether anything was output
    ensures r.0.Halted? && !r.0.outcome.InputError? ==> (r.0.outcome.flag <==> |r.0.final.output| > 0)
    // an empty program returns false and leaves the object as it was
    ensures |code| == 0 ==> r.0 == Halted(Done(false), Start(it.m, input)) && r.1 == it
  {
    var run := Interpret(it.table, code, it.m, input, fuel);
    (run, Interp(run.final.m, it.table))
  }
}
