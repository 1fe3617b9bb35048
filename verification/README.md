# Brainfuck interpreter core, modelled in Dafny

This project models the interpretation engine of the `brainfuck` Python
package and proves properties of that model:

- the `Interpreter` class in `Base.py`: `reset`, the dispatch loop of
  `interpret`, the forward and backward bracket scans, the per-call `jumps`
  memo, and unmatched-bracket reporting through `handleError(side)`;
- the glyph tables: the fixed traditional table of `NiceInterpreter` and the
  table a `TrollInterpreter` draws from its eight alias lists, with the
  `aliases` dictionary, the `HELPPLZ!!!` directive and the post-execution
  `troll` hook;
- `NiceInterpreter.handleError` as a pure map from side to message.

The model is functional. A `Machine` holds the tape (`seq<int>`) and the
cursor `ptr`. One call of `interpret` works on an `Exec` record: the machine,
the index into the code, the remaining input, the output so far and the
`stdout` flag. `Engine.Step` is one iteration of the `while` loop.
`Engine.Run` repeats it, cut off after `fuel` iterations, because a
Brainfuck program need not terminate. The `jumps` dictionary is a
`map<nat, nat>` threaded through the steps.

How a call ends is an `Outcome`:

- `Done(flag)`: the loop ran off the end of the code.
- `Unmatched(side, flag)`: `handleError(side)` was called and `interpret`
  returned the flag early.
- `InputError`: `,` found the input exhausted. There `ord(stdin.read(1))`
  raises in the source.

Files:

- `wrappers.dfy`: `Option`.
- `glyphs.dfy`: glyph tables, dispatch by the source's `elif` order, bracket weights.
- `tape.dfy`: machine, `reset`, the wrapped moves and cell changes.
- `brackets.dfy`: the two scans and their characterisation by bracket balance.
- `engine.dfy`: step, run and `interpret`.
- `jumps.dfy`: soundness of the memo, and equivalence with a memo-free loop.
- `nice.dfy`: `NiceInterpreter`.
- `troll.dfy`: `TrollInterpreter`.
- `substitution.dfy`: the same program under two tables.
- `runs.dfy`: whole-program properties.

All source paths below are under `venv/Lib/site-packages/brainfuck/`
(written out in full in the table).

## Model

| member | source | states |
|---|---|---|
| Tape.Reset | venv/Lib/site-packages/brainfuck/Base.py:241-248 | after `reset` the cursor is 0 and the tape has exactly 30000 cells, all 0 |
| Tape.ResetIdempotent | venv/Lib/site-packages/brainfuck/Base.py:247-248 | calling `reset` twice equals calling it once |
| Tape.ResetForgets | venv/Lib/site-packages/brainfuck/Base.py:247-248 | the machine after `reset` does not depend on the machine before it |
| Tape.CursorRight | venv/Lib/site-packages/brainfuck/Base.py:143-145 | `>` keeps the cursor on the tape and leaves every cell alone |
| Tape.CursorLeft | venv/Lib/site-packages/brainfuck/Base.py:147-149 | `<` keeps the cursor on the tape and leaves every cell alone |
| Tape.CellInc | venv/Lib/site-packages/brainfuck/Base.py:151-153 | `+` keeps the cursor and all cells but the current one, and the current cell stays in [0,256) |
| Tape.CellDec | venv/Lib/site-packages/brainfuck/Base.py:155-157 | `-` keeps the cursor and all cells but the current one, and the current cell stays in [0,256) |
| Tape.Write | venv/Lib/site-packages/brainfuck/Base.py:96-102 | `getChar` stores the byte read in the current cell and changes nothing else |
| Tape.StepsWrap | venv/Lib/site-packages/brainfuck/Base.py:143-157 | moving right off the last cell lands on cell 0, moving left off cell 0 lands on the last cell; a cell at 255 incremented becomes 0 and a cell at 0 decremented becomes 255; otherwise each is plus or minus one |
| Tape.MovesInverse | venv/Lib/site-packages/brainfuck/Base.py:143-149 | `<` undoes `>` and `>` undoes `<` on every valid machine, wrap-around included |
| Tape.IncrementDecrementInverse | venv/Lib/site-packages/brainfuck/Base.py:151-157 | `-` undoes `+` and `+` undoes `-`, wrap-around included |
| Glyphs.Decode | venv/Lib/site-packages/brainfuck/Base.py:141-227 | a character is a comment exactly when it is none of the eight glyphs; otherwise it is the glyph of the operation it dispatches to; an rbracket dispatch never happens on the lbracket glyph |
| Glyphs.DecodeFirstMatch | venv/Lib/site-packages/brainfuck/Base.py:143-197 | the first matching glyph in `elif` order wins: a character dispatched to an operation equals none of the glyphs tested before it (`gt`, `lt`, `plus`, `minus`, `period`, `comma`, `lbracket`, in that order) |
| Glyphs.Weight | venv/Lib/site-packages/brainfuck/Base.py:184-190 | a scan counts +1 exactly for the lbracket glyph, -1 exactly for an rbracket glyph that is not also the lbracket glyph, else 0 |
| Glyphs.DecodeGlyphOf | venv/Lib/site-packages/brainfuck/Base.py:143-197 | with pairwise distinct glyphs, each glyph dispatches back to its own operation |
| Glyphs.GlyphsUnambiguous | venv/Lib/site-packages/brainfuck/Nice.py:63-70 | with pairwise distinct glyphs, two operations share a glyph if and only if they are the same operation |
| Glyphs.WeightOfDecode | venv/Lib/site-packages/brainfuck/Base.py:184-190 | with distinct glyphs, the scan weight of a character is +1 for an lbracket dispatch, -1 for an rbracket dispatch, 0 for any other |
| Brackets.ScanForward | venv/Lib/site-packages/brainfuck/Base.py:176-190 | a forward scan that succeeds stops strictly after its start and inside the code |
| Brackets.ScanForwardSpec | venv/Lib/site-packages/brainfuck/Base.py:168-193 | the forward scan returns q if and only if q is the first position after the start where the depth counter reaches 0; it fails if and only if the counter never reaches 0 before the end of the code |
| Brackets.ScanBackward | venv/Lib/site-packages/brainfuck/Base.py:205-219 | a backward scan that succeeds stops strictly before its start |
| Brackets.ScanBackwardSpec | venv/Lib/site-packages/brainfuck/Base.py:197-222 | the backward scan returns p if and only if p is the nearest position before the start where the counter, seeded at the given depth, reaches 0; it fails if and only if the counter never reaches 0 down to index 0 |
| Brackets.MatchForwardBackward | venv/Lib/site-packages/brainfuck/Base.py:176-222 | if the forward scan from an lbracket at p finds q, then q holds an rbracket and the backward scan from q finds p |
| Brackets.MatchBackwardForward | venv/Lib/site-packages/brainfuck/Base.py:176-222 | if the backward scan from an rbracket at q finds p, then p holds an lbracket and the forward scan from p finds q |
| Engine.Apply | venv/Lib/site-packages/brainfuck/Base.py:143-157 | a cursor move or cell change keeps the tape length, the byte range and every cell but the one under the old cursor |
| Engine.OpenStep | venv/Lib/site-packages/brainfuck/Base.py:168-195 | the lbracket branch changes only the index and the memo, and stops only on side `Left`, only over a zero cell, with the flag so far; entering the body or taking a recorded jump leaves the memo alone; a skip lands just past the partner the memo holds, and a scan that found partner q records exactly the pair (index, q) both ways |
| Engine.CloseStep | venv/Lib/site-packages/brainfuck/Base.py:197-224 | the rbracket branch changes only the index and the memo, and stops only on side `Right`, only over a non-zero cell, with the flag so far; falling through or taking a recorded jump leaves the memo alone; a jump back lands just past the partner the memo holds, and a scan that found partner p records exactly the pair (index, p) both ways |
| Engine.Step | venv/Lib/site-packages/brainfuck/Base.py:140-227 | one iteration keeps the tape length and byte range and changes at most the current cell; output only grows, by one exactly for the output glyph; the flag is set exactly when output grew; a comment only advances the index; `.` appends exactly the current cell, sets the flag and moves to the next character, leaving machine, input and memo alone; `,` stops exactly when the input is exhausted, and otherwise stores the first byte, consumes it and moves to the next character, leaving the memo alone; a stop is an lbracket over a zero cell (side `Left`), an rbracket over a non-zero cell (side `Right`) or `,` on exhausted input; the two bracket stops carry the flag so far, the input stop carries none, because the source raises there instead of returning |
| Engine.Run | venv/Lib/site-packages/brainfuck/Base.py:136-229 | a run keeps the tape valid and its length fixed; the output only grows; the flag is true exactly when the flag was already set or output grew; a normal end has the index past the code and returns the final flag; an early return carries the flag so far |
| Engine.Interpret | venv/Lib/site-packages/brainfuck/Base.py:119-229 | `interpret` returns true exactly when something was output; the empty program returns false and changes nothing |
| JumpMemo.RecordedPair | venv/Lib/site-packages/brainfuck/Base.py:192-193 | in a sound memo each entry's partner is also an entry pointing back, and exactly one of the two positions holds an lbracket |
| JumpMemo.InsertPair | venv/Lib/site-packages/brainfuck/Base.py:192-193 | recording a freshly scanned pair in both directions keeps the memo sound and symmetric |
| JumpMemo.StepKeepsJumpsSound | venv/Lib/site-packages/brainfuck/Base.py:168-224 | every step keeps the memo holding only matched bracket pairs, stored both ways |
| JumpMemo.StepKeepsEntries | venv/Lib/site-packages/brainfuck/Base.py:168-224 | with a sound memo, a step never overwrites or drops an entry: every recorded jump survives unchanged |
| JumpMemo.StepLoopOpen | venv/Lib/site-packages/brainfuck/Base.py:168-195 | an lbracket over a non-zero cell enters the body; over a zero cell it resumes just past the first balancing position, or stops on side `Left` if there is none |
| JumpMemo.StepLoopClose | venv/Lib/site-packages/brainfuck/Base.py:197-224 | an rbracket over a zero cell falls through; over a non-zero cell it resumes at partner+1, the first body instruction, or stops on side `Right` if no partner exists |
| JumpMemo.StepMemoAgrees | venv/Lib/site-packages/brainfuck/Base.py:172-173 | with a sound memo, taking a cached jump gives the same next state and the same stop as rescanning |
| JumpMemo.RunMemoAgrees | venv/Lib/site-packages/brainfuck/Base.py:137-229 | with a sound memo, a whole run equals a run that never consults the memo |
| JumpMemo.InterpretRescans | venv/Lib/site-packages/brainfuck/Base.py:137-229 | `interpret`, which starts from an empty memo, equals the memo-free loop |
| Nice.SetChars | venv/Lib/site-packages/brainfuck/Nice.py:52-70 | the nice table binds `> < + - . , [ ]` to `gt lt plus minus period comma lbracket rbracket`, its glyphs are pairwise distinct, and each traditional glyph dispatches to its operation |
| Nice.HandleError | venv/Lib/site-packages/brainfuck/Nice.py:32-50 | side "left" gives "Couldn't find matching right bracket", "right" gives "Couldn't find matching left bracket", any other side gives "An unknown error occurred."; each in both directions |
| Nice.Report | venv/Lib/site-packages/brainfuck/Base.py:180-182 | a message is printed exactly when a call ends at an unmatched bracket; side `Left` prints the left message and side `Right` the right one |
| Nice.ReportNeverUnknown | venv/Lib/site-packages/brainfuck/Nice.py:43-50 | the engine only passes "left" or "right", so the unknown-error line is never printed |
| Nice.New | venv/Lib/site-packages/brainfuck/Base.py:62-68 | a new nice interpreter has the nice table, cursor 0 and 30000 zero cells |
| Nice.Execute | venv/Lib/site-packages/brainfuck/Base.py:70-94 | `execute` is one `interpret` call on the object's own machine and glyphs: it keeps the glyph table, leaves the machine where `interpret` left it, returns true exactly when something was output, and on the empty program returns false and leaves the object as it was |
| Troll.SignListsDisjoint | venv/Lib/site-packages/brainfuck/Base.py:270-277 | no character appears in two of the eight alias lists |
| Troll.SetChars | venv/Lib/site-packages/brainfuck/Base.py:367-374 | any draw takes each glyph from its own alias list, and the eight glyphs are pairwise distinct |
| Troll.FirstPicksAreStandard | venv/Lib/site-packages/brainfuck/Base.py:270-277 | each alias list starts with the traditional glyph, so drawing position 0 everywhere gives the nice table |
| Troll.AliasesOfDraw | venv/Lib/site-packages/brainfuck/Base.py:376-385 | after any draw `aliases` has exactly eight entries, its keys are the eight glyphs, and each maps to the traditional glyph of the operation it dispatches to |
| Troll.ApplyHook | venv/Lib/site-packages/brainfuck/Trolls.py:41-78 | a reset troll keeps the glyphs and resets the machine; a redraw troll keeps tape and cursor and binds the freshly drawn, distinct table; an effect-only troll changes nothing; the machine stays valid |
| Troll.ResetHookForgets | venv/Lib/site-packages/brainfuck/Trolls.py:41-78 | after a reset troll two interpreters with the same glyphs are equal, whatever their machines held |
| Troll.Execute | venv/Lib/site-packages/brainfuck/Base.py:311-339 | the code is the directive exactly when nothing is interpreted, and then tape, cursor and glyphs are unchanged; any other code is interpreted once on the object's machine and glyphs, its output is the call's output, the call returns exactly when `interpret` halted without an input error (with that outcome), raises exactly on the input error, and the hook is applied to the machine `interpret` left exactly when it returned |
| Troll.AgreesWithNice | venv/Lib/site-packages/brainfuck/Base.py:311-339 | on ordinary code a troll call has the nice `execute`'s output and outcome, and ends on the nice call's object with the hook applied when it returned, unchanged otherwise |
| Troll.DirectiveTransparent | venv/Lib/site-packages/brainfuck/Base.py:332-333 | a directive call changes nothing, so any call after it behaves as if it had not been made |
| Troll.New | venv/Lib/site-packages/brainfuck/Base.py:62-68 | a new troll interpreter has distinct glyphs, cursor 0 and 30000 zero cells |
| Troll.HandleError | venv/Lib/site-packages/brainfuck/Base.py:300-309 | a troll reports a line that is none of the three nice messages and differs from what the nice interpreter reports for the same side |
| Troll.HandleErrorIgnoresSide | venv/Lib/site-packages/brainfuck/Base.py:300-309 | the troll line does not depend on the side argument |
| Substitution.SameProgramOfDecode | venv/Lib/site-packages/brainfuck/Base.py:141-227 | under two tables with distinct glyphs, two programs that dispatch alike position by position also count brackets alike |
| Substitution.RunSame | venv/Lib/site-packages/brainfuck/Base.py:137-229 | two programs that dispatch and count alike under their own tables run identically from any state and memo |
| Substitution.InterpretSame | venv/Lib/site-packages/brainfuck/Base.py:119-229 | two such programs give `interpret` calls with identical outcome, tape, cursor and output |
| Substitution.TrollTranslation | venv/Lib/site-packages/brainfuck/Base.py:376-385 | a program for a drawn troll table runs exactly as its translation through `aliases` runs on the nice table, provided its comment characters are not traditional glyphs |
| Runs.RunAdvance | venv/Lib/site-packages/brainfuck/Base.py:140-227 | when a step continues, the run from the state before it equals the run from the state after it with one unit of fuel less |
| Runs.OutputContinues | venv/Lib/site-packages/brainfuck/Base.py:159-162 | from any state, `.` sends the current cell, sets the flag, and the loop goes on at the next character with the same memo |
| Runs.ReadContinues | venv/Lib/site-packages/brainfuck/Base.py:164-166 | from any state with input left, `,` stores and consumes the first byte, and the loop goes on at the next character with the same memo |
| Runs.EchoAt | venv/Lib/site-packages/brainfuck/Base.py:159-166 | from any state with input left, `,` followed by `.` sends exactly the byte read and goes on after the `.` |
| Runs.MovedPtrWraps | venv/Lib/site-packages/brainfuck/Base.py:143-149 | stepping the cursor one wrapped place at a time ends where the net displacement, wrapped once, says |
| Runs.PerformMoves | venv/Lib/site-packages/brainfuck/Base.py:143-149 | applying a stretch of cursor moves leaves the tape alone and moves the cursor one wrapped place per move |
| Runs.MovesInterpret | venv/Lib/site-packages/brainfuck/Base.py:143-149 | any program of `>` and `<` returns false, leaves the tape alone and puts the cursor at the start plus the net displacement, modulo the tape length |
| Runs.ChangedCellWraps | venv/Lib/site-packages/brainfuck/Base.py:151-157 | changing a cell one wrapped step at a time ends where the net change, wrapped once modulo 256, says |
| Runs.PerformCells | venv/Lib/site-packages/brainfuck/Base.py:151-157 | applying a stretch of cell changes keeps the cursor and every other cell and changes the current cell one wrapped unit per change |
| Runs.CellChangesInterpret | venv/Lib/site-packages/brainfuck/Base.py:151-157 | any program of `+` and `-` returns false, keeps the cursor and every other cell, and leaves the current cell at its old value plus the net change, modulo 256 |
| Runs.RunWithoutOutput | venv/Lib/site-packages/brainfuck/Base.py:159-162 | a run of a program with no output glyph outputs nothing and leaves the flag as it was |
| Runs.InterpretWithoutOutput | venv/Lib/site-packages/brainfuck/Base.py:136-229 | a program with no output glyph outputs nothing and returns false, whether it ends normally or at an unmatched bracket |
| Runs.StepNeverUnmatched | venv/Lib/site-packages/brainfuck/Base.py:168-224 | in a balanced program no step stops at an unmatched bracket |
| Runs.RunNeverUnmatched | venv/Lib/site-packages/brainfuck/Base.py:140-229 | in a balanced program no run, from any state and memo, ends at an unmatched bracket |
| Runs.BalancedNeverReports | venv/Lib/site-packages/brainfuck/Base.py:176-211 | a balanced program never reaches `handleError`: `interpret` never ends on an unmatched bracket and nothing is reported |
| Runs.PeriodOutputs | venv/Lib/site-packages/brainfuck/Base.py:159-162 | `"."` outputs the current cell once, returns true and leaves the machine alone |
| Runs.CommaReads | venv/Lib/site-packages/brainfuck/Base.py:96-166 | a lone `,` stores the first input byte in the current cell, consumes it, leaves the cursor and every other cell alone and returns false |
| Runs.CommaOnExhaustedInput | venv/Lib/site-packages/brainfuck/Base.py:96-102 | a lone `,` with no input left fails with the input error before changing anything |
| Runs.EchoFirstByte | venv/Lib/site-packages/brainfuck/Base.py:159-166 | `,.` outputs exactly the first input byte and returns true |
| Runs.LoneCloseOnZeroIsSilent | venv/Lib/site-packages/brainfuck/Base.py:197-224 | on a fresh machine `"]"` ends normally without reporting an error, because an rbracket over a zero cell is never matched |
| Runs.LoneOpenOnZeroIsUnmatched | venv/Lib/site-packages/brainfuck/Base.py:168-182 | on a fresh machine `"["` stops on side `Left` with flag false and the machine unchanged |
| Runs.LoneOpenOnNonZeroIsSilent | venv/Lib/site-packages/brainfuck/Base.py:168-171 | `"+["` ends normally: an lbracket over a non-zero cell is entered without looking for its partner |
| Runs.CloseOnNonZeroIsUnmatched | venv/Lib/site-packages/brainfuck/Base.py:197-211 | `"+]"` stops on side `Right`, because an rbracket over a non-zero cell with nothing before it has no partner |
| Runs.ClearSteps | venv/Lib/site-packages/brainfuck/Base.py:155-224 | the step taken at each of the three positions of `[-]`, for a zero and a non-zero cell |
| Runs.ClearPasses | venv/Lib/site-packages/brainfuck/Base.py:155-224 | k passes of `[-]` from inside the loop, with k in the current cell, end normally with that cell at 0 and nothing else changed |
| Runs.ClearLoopEmptiesCell | venv/Lib/site-packages/brainfuck/Base.py:155-224 | `"[-]"` ends normally after 1 + 2v iterations, v being the current cell; the cell is then 0 and the cursor and every other cell are unchanged |
| Runs.StraightOfAll | venv/Lib/site-packages/brainfuck/Base.py:143-157 | code made only of moves and cell changes is a straight-line stretch |
| Runs.StraightLine | venv/Lib/site-packages/brainfuck/Base.py:140-157 | a stretch of moves and cell changes takes one step per character and ends past it with the composed effect on the machine, everything else unchanged |
| Runs.StraightInterpret | venv/Lib/site-packages/brainfuck/Base.py:136-157 | a program of moves and cell changes returns false after one step per character, with the machine given by applying its operations in order |
| Runs.TransferLoopShape | venv/Lib/site-packages/brainfuck/Base.py:168-224 | in `"[->+<]"` the two brackets are partners and the body is `- > + <` |
| Runs.TransferBody | venv/Lib/site-packages/brainfuck/Base.py:143-157 | one pass of `->+<` takes a unit from the current cell and adds it, wrapping, to the cell to its right, the cursor returning |
| Runs.TransferPerform | venv/Lib/site-packages/brainfuck/Base.py:143-157 | the body of the transfer loop, applied in order, is exactly one pass |
| Runs.TransferredAfterPass | venv/Lib/site-packages/brainfuck/Base.py:151-157 | moving the remaining units after one pass ends where moving them all at once does |
| Runs.TransferBracketSteps | venv/Lib/site-packages/brainfuck/Base.py:168-224 | at either bracket of `[->+<]`, a zero cell leaves the loop and a non-zero cell enters the body |
| Runs.TransferPasses | venv/Lib/site-packages/brainfuck/Base.py:155-224 | k passes of `[->+<]` from inside the loop, with k in the current cell, end normally with that cell at 0 and k added to its right neighbour |
| Runs.TransferPass | venv/Lib/site-packages/brainfuck/Base.py:143-157 | one pass of the body runs straight through to the rbracket in four steps |
| Runs.TransferClose | venv/Lib/site-packages/brainfuck/Base.py:197-224 | at the rbracket of a pass the loop ends when the cell is 0 and otherwise goes round with one unit fewer |
| Runs.TransferLoopMovesCell | venv/Lib/site-packages/brainfuck/Base.py:140-229 | on a tape of at least two cells `"[->+<]"` ends normally after 1 + 5v iterations, v being the current cell; that cell is then 0, v is added modulo 256 to its right neighbour, and the cursor and every other cell are unchanged |
| Runs.TransferFiveUnits | venv/Lib/site-packages/brainfuck/Base.py:140-229 | with 5 in cell 0, 0 in cell 1 and the cursor on cell 0, `"[->+<]"` ends with 0 in cell 0, 5 in cell 1 and the cursor on cell 0 |
| Runs.FiveUnitsMoved | venv/Lib/site-packages/brainfuck/Base.py:151-157 | moving 5 units from cell 0 onto an empty cell 1 leaves 0 and 5 with the cursor on cell 0 |
| Brackets.ForwardStaysPositive | venv/Lib/site-packages/brainfuck/Base.py:176-190 | a forward scan from depth 1 that never reaches 0 keeps its depth at 1 or above |
| Brackets.BackwardStaysNegative | venv/Lib/site-packages/brainfuck/Base.py:205-219 | a backward scan from depth -1 that never reaches 0 keeps its depth at -1 or below |
| Brackets.BalancedOpenMatches | venv/Lib/site-packages/brainfuck/Base.py:176-193 | in a balanced program the forward scan from every lbracket finds a partner |
| Brackets.BalancedCloseMatches | venv/Lib/site-packages/brainfuck/Base.py:205-222 | in a balanced program the backward scan from every rbracket that is not also the lbracket glyph finds a partner |

## Left out

- Console I/O: `getChar`, `putChar` and `printDirective` print or read through stdin and stdout. Input is a sequence of bytes consumed from the front. Output is the sequence of cell values sent. The directive's printed alias table is not modelled; only the fact that the call prints it instead of interpreting is.
- Input characters above 255: `ord(stdin.read(1))` can store a code point above 255, which the byte-typed input cannot express. Every cell therefore stays in [0,256).
- Exhausted input: `ord('')` raises in the source. This is the `InputError` outcome. The exception text is not modelled. The troll hook does not run, because the exception leaves `execute` before it.
- Randomness: `choice` in `TrollInterpreter.setChars` is the `Picks` parameter, the position drawn in each list.
- Non-termination: `Engine.Run` and everything built on it take a `fuel` bound. A program still running when the fuel is spent yields `OutOfFuel` and says nothing about later behaviour.
- The abstract `Interpreter.handleError`, `Interpreter.setChars` and `TrollInterpreter.troll` raise or set `None`. Only the concrete interpreters are modelled.
- `RandomFileTrollInterpreter` and `WebbrowserTrollInterpreter`: their hooks only write log files or open browser tabs. They are the effect-only hook, which leaves the interpreter unchanged.
- `Brainfuck.py` (command-line prompt, argument parsing, file reading) and `__init__.py` (imports) are not part of this model.
- Cell range: the class docstring at Base.py:31 says cells hold 0 to 2**7 - 1. The code reduces modulo 256, so the model follows the code.
- Negative indexing: Python would read `code[-1]` if the backward scan ran past 0, but the code tests `index < 0` first. That read is therefore unreachable and not modelled.
- Runs.TransferLoopMovesCell: requires at least two cells. On a one-cell tape the right neighbour is the current cell itself, so `->+<` never empties it and the loop does not end; that case is not stated.
