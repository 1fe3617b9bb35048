/**
  The per-call `jumps` memo: every entry the dispatch loop records is a
  matched bracket pair stored in both directions, and taking a recorded
  jump lands exactly where a fresh scan would.
 */
module JumpMemo {
  import opened Wrappers
  import opened Glyphs
  import opened Tape
  import opened Brackets
  import opened Engine

  /** `b` is what a scan from the bracket at `a` finds, in the direction the bracket at `a` scans. */
  predicate Recorded(t: Table, code: seq<char>, a: nat, b: nat)
  {
    && a < |code|
    && ((code[a] == t.lbracket && ScanForward(t, code, a, 1) == Some(b))
        || (code[a] != t.lbracket && code[a] == t.rbracket && ScanBackward(t, code, a, -1) == Some(b)))
  }

  /** Every entry is a scan result, and the memo is symmetric. */
  predicate JumpsSound(t: Table, code: seq<char>, jumps: Jumps)
  {
    forall a :: a in jumps ==> Recorded(t, code, a, jumps[a]) && jumps[a] in jumps && jumps[jumps[a]] == a
  }

  /** An entry that pairs an lbracket with an rbracket, as the memo stores them. */
  lemma RecordedPair(t: Table, code: seq<char>, jumps: Jumps, a: nat)
    requires JumpsSound(t, code, jumps) && a in jumps
    ensures var b := jumps[a];
            && b in jumps && jumps[b] == a && a < |code| && b < |code|
            && (code[a] == t.lbracket <==> code[b] != t.lbracket && code[b] == t.rbracket)
  {
    var b := jumps[a];
    assert Recorded(t, code, a, b) && Recorded(t, code, b, a);
    if code[a] == t.lbracket {
      MatchForwardBackward(t, code, a, b);
    } else {
      MatchBackwardForward(t, code, a, b);
    }
  }

  /** Recording a freshly scanned pair keeps the memo sound and symmetric. */
  lemma {:induction false} InsertPair(t: Table, code: seq<char>, jumps: Jumps, p: nat, q: nat)
    requires JumpsSound(t, code, jumps)
    requires p !in jumps
    requires Recorded(t, code, p, q) && Recorded(t, code, q, p)
    ensures JumpsSound(t, code, jumps[p := q][q := p])
  {
    var j' := jumps[p := q][q := p];
    forall a | a in j'
      ensures Recorded(t, code, a, j'[a]) && j'[a] in j' && j'[j'[a]] == a
    {
      if a != p && a != q {
        var b := jumps[a];
        assert b != p && b != q;
      }
    }
  }

  /** The memo only ever holds matched pairs, in both directions. */
  lemma StepKeepsJumpsSound(t: Table, code: string, s: Exec, jumps: Jumps)
    requires s.pc < |code| && Valid(s.m)
    requires JumpsSound(t, code, jumps)
    requires Step(t, code, s, jumps).Next?
    ensures JumpsSound(t, code, Step(t, code, s, jumps).jumps)
  {
    var p := s.pc;
    var op := Decode(t, code[p]);
    if op == LoopOpen && Cell(s.m) == 0 && p !in jumps {
      var q := ScanForward(t, code, p, 1).value;
      MatchForwardBackward(t, code, p, q);
      InsertPair(t, code, jumps, p, q);
    } else if op == LoopClose && Cell(s.m) != 0 && p !in jumps {
      var q := ScanBackward(t, code, p, -1).value;
      MatchBackwardForward(t, code, p, q);
      InsertPair(t, code, jumps, p, q);
    }
  }

  /**
    A step never overwrites the memo: a position a scan starts from is not
    yet recorded, and then neither is the partner it finds, so every entry
    already there survives unchanged.
   */
  lemma StepKeepsEntries(t: Table, code: string, s: Exec, jumps: Jumps)
    requires s.pc < |code| && Valid(s.m)
    requires JumpsSound(t, code, jumps)
    requires Step(t, code, s, jumps).Next?
    ensures var j' := Step(t, code, s, jumps).jumps;
            forall a :: a in jumps ==> a in j' && j'[a] == jumps[a]
  {
    var p := s.pc;
    var op := Decode(t, code[p]);
    if op == LoopOpen && Cell(s.m) == 0 && p !in jumps {
      var q := ScanForward(t, code, p, 1).value;
      MatchForwardBackward(t, code, p, q);
      if q in jumps {
        assert false;
      }
    } else if op == LoopClose && Cell(s.m) != 0 && p !in jumps {
      var q := ScanBackward(t, code, p, -1).value;
      MatchBackwardForward(t, code, p, q);
      if q in jumps {
        assert false;
      }
    }
  }

  /** An lbracket over a zero cell continues just past its forward partner, or reports side `Left`. */
  lemma StepLoopOpen(t: Table, code: string, s: Exec, jumps: Jumps)
    requires s.pc < |code| && Valid(s.m)
    requires JumpsSound(t, code, jumps)
    requires Decode(t, code[s.pc]) == LoopOpen
    ensures Cell(s.m) != 0 ==> Step(t, code, s, jumps) == Next(s.(pc := s.pc + 1), jumps)
    ensures Cell(s.m) == 0 ==>
              forall q: nat :: ForwardStop(t, code, s.pc, 1, q) ==>
                Step(t, code, s, jumps).Next? && Step(t, code, s, jumps).s == s.(pc := q + 1)
    ensures Cell(s.m) == 0 && NoForwardStop(t, code, s.pc, 1) ==>
              Step(t, code, s, jumps) == Stop(Unmatched(Left, s.flag))
  {
    ScanForwardSpec(t, code, s.pc, 1);
    if s.pc in jumps {
      assert Recorded(t, code, s.pc, jumps[s.pc]);
    }
  }

  /** An rbracket over a non-zero cell continues just past its backward partner, or reports side `Right`. */
  lemma StepLoopClose(t: Table, code: string, s: Exec, jumps: Jumps)
    requires s.pc < |code| && Valid(s.m)
    requires JumpsSound(t, code, jumps)
    requires Decode(t, code[s.pc]) == LoopClose
    ensures Cell(s.m) == 0 ==> Step(t, code, s, jumps) == Next(s.(pc := s.pc + 1), jumps)
    ensures Cell(s.m) != 0 ==>
              forall p: nat :: BackwardStop(t, code, s.pc, -1, p) ==>
                Step(t, code, s, jumps).Next? && Step(t, code, s, jumps).s == s.(pc := p + 1)
    ensures Cell(s.m) != 0 && NoBackwardStop(t, code, s.pc, -1) ==>
              Step(t, code, s, jumps) == Stop(Unmatched(Right, s.flag))
  {
    ScanBackwardSpec(t, code, s.pc, -1);
    if s.pc in jumps {
      assert Recorded(t, code, s.pc, jumps[s.pc]);
    }
  }

  /** One step with the memo left out: every bracket jump is found by scanning afresh. */
  function RescanStep(t: Table, code: string, s: Exec): StepResult
    requires s.pc < |code| && Valid(s.m)
  {
    match Step(t, code, s, map[])
    case Next(s', _) => Next(s', map[])
    case Stop(o) => Stop(o)
  }

  /** The run loop with the memo left out. */
  function RescanRun(t: Table, code: string, s: Exec, fuel: nat): RunResult
    requires Valid(s.m)
    decreases fuel
  {
    if s.pc >= |code| then Halted(Done(s.flag), s)
    else if fuel == 0 then OutOfFuel(s)
    else match RescanStep(t, code, s)
      case Stop(o) => Halted(o, s)
      case Next(s', _) => RescanRun(t, code, s', fuel - 1)
  }

  /** Taking a recorded jump gives the same step as rescanning. */
  lemma StepMemoAgrees(t: Table, code: string, s: Exec, jumps: Jumps)
    requires s.pc < |code| && Valid(s.m)
    requires JumpsSound(t, code, jumps)
    ensures Step(t, code, s, jumps).Stop? <==> RescanStep(t, code, s).Stop?
    ensures Step(t, code, s, jumps).Stop? ==> Step(t, code, s, jumps).outcome == RescanStep(t, code, s).outcome
    ensures Step(t, code, s, jumps).Next? ==> Step(t, code, s, jumps).s == RescanStep(t, code, s).s
  {
    if s.pc in jumps {
      assert Recorded(t, code, s.pc, jumps[s.pc]);
    }
  }

  /** The memo never changes what `interpret` does: a run with it equals a run that always rescans. */
  lemma {:induction false} RunMemoAgrees(t: Table, code: string, s: Exec, jumps: Jumps, fuel: nat)
    requires Valid(s.m)
    requires JumpsSound(t, code, jumps)
    ensures Run(t, code, s, jumps, fuel) == RescanRun(t, code, s, fuel)
    decreases fuel
  {
    if s.pc < |code| && fuel > 0 {
      StepMemoAgrees(t, code, s, jumps);
      var r := Step(t, code, s, jumps);
      if r.Next? {
        StepKeepsJumpsSound(t, code, s, jumps);
        RunMemoAgrees(t, code, r.s, r.jumps, fuel - 1);
      }
    }
  }

  /** `interpret` itself behaves as the memo-free reference loop. */
  lemma InterpretRescans(t: Table, code: string, m: Machine, input: seq<Byte>, fuel: nat)
    requires Valid(m)
    ensures Interpret(t, code, m, input, fuel) == RescanRun(t, code, Start(m, input), fuel)
  {
    RunMemoAgrees(t, code, Start(m, input), map[], fuel);
  }
}
