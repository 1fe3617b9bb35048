/**
  Glyph-table substitution: the engine reads program text only through
  dispatch and bracket weights, so two programs that agree position by
  position on both run identically under their own tables.
 */
module Substitution {
  import opened Glyphs
  import opened Tape
  import opened Brackets
  import opened Engine
  import Nice
  import Troll

  /** Position by position, the two programs dispatch alike and count brackets alike. */
  predicate SameProgram(t1: Table, c1: seq<char>, t2: Table, c2: seq<char>)
  {
    && |c1| == |c2|
    && forall i :: 0 <= i < |c1| ==>
         Decode(t1, c1[i]) == Decode(t2, c2[i]) && Weight(t1, c1[i]) == Weight(t2, c2[i])
  }

  /** Under tables with distinct glyphs, dispatching alike is enough. */
  lemma SameProgramOfDecode(t1: Table, c1: seq<char>, t2: Table, c2: seq<char>)
    requires Distinct(t1) && Distinct(t2)
    requires |c1| == |c2|
    requires forall i :: 0 <= i < |c1| ==> Decode(t1, c1[i]) == Decode(t2, c2[i])
    ensures SameProgram(t1, c1, t2, c2)
  {
    forall i | 0 <= i < |c1|
      ensures Weight(t1, c1[i]) == Weight(t2, c2[i])
    {
      WeightOfDecode(t1, c1[i]);
      WeightOfDecode(t2, c2[i]);
    }
  }

  lemma {:induction false} ScanForwardSame(t1: Table, c1: seq<char>, t2: Table, c2: seq<char>, i: nat, depth: int)
    requires SameProgram(t1, c1, t2, c2) && i < |c1|
    ensures ScanForward(t1, c1, i, depth) == ScanForward(t2, c2, i, depth)
    decreases |c1| - i
  {
    if i + 1 < |c1| {
      var d := depth + Weight(t1, c1[i + 1]);
      if d != 0 {
        ScanForwardSame(t1, c1, t2, c2, i + 1, d);
      }
    }
  }

  lemma {:induction false} ScanBackwardSame(t1: Table, c1: seq<char>, t2: Table, c2: seq<char>, i: nat, depth: int)
    requires SameProgram(t1, c1, t2, c2) && i < |c1|
    ensures ScanBackward(t1, c1, i, depth) == ScanBackward(t2, c2, i, depth)
    decreases i
  {
    if i > 0 {
      var d := depth + Weight(t1, c1[i - 1]);
      if d != 0 {
        ScanBackwardSame(t1, c1, t2, c2, i - 1, d);
      }
    }
  }

  lemma StepSame(t1: Table, c1: string, t2: Table, c2: string, s: Exec, jumps: Jumps)
    requires SameProgram(t1, c1, t2, c2)
    requires s.pc < |c1| && Valid(s.m)
    ensures Step(t1, c1, s, jumps) == Step(t2, c2, s, jumps)
  {
    ScanForwardSame(t1, c1, t2, c2, s.pc, 1);
    ScanBackwardSame(t1, c1, t2, c2, s.pc, -1);
  }

  lemma {:induction false} RunSame(t1: Table, c1: string, t2: Table, c2: string, s: Exec, jumps: Jumps, fuel: nat)
    requires SameProgram(t1, c1, t2, c2)
    requires Valid(s.m)
    ensures Run(t1, c1, s, jumps, fuel) == Run(t2, c2, s, jumps, fuel)
    decreases fuel
  {
    if s.pc < |c1| && fuel > 0 {
      StepSame(t1, c1, t2, c2, s, jumps);
      var r := Step(t1, c1, s, jumps);
      if r.Next? {
        RunSame(t1, c1, t2, c2, r.s, r.jumps, fuel - 1);
      }
    }
  }

  /** The same program written under two tables leaves identical tape, cursor, output and outcome. */
  lemma InterpretSame(t1: Table, c1: string, t2: Table, c2: string, m: Machine, input: seq<Byte>, fuel: nat)
    requires SameProgram(t1, c1, t2, c2)
    requires Valid(m)
    ensures Interpret(t1, c1, m, input, fuel) == Interpret(t2, c2, m, input, fuel)
  {
    RunSame(t1, c1, t2, c2, Start(m, input), map[], fuel);
  }

  /** Rewrite a program through a table's `aliases`, keeping characters that are no glyph. */
  function Translate(t: Table, code: string): (r: string)
    ensures |r| == |code|
  {
    var a := Troll.Aliases(t);
    seq(|code|, i requires 0 <= i < |code| => if code[i] in a then a[code[i]] else code[i])
  }

  /**
    A program for a drawn troll table, translated through `aliases`, runs
    exactly as the translation does on the nice table, provided its comment
    characters are not themselves traditional glyphs.
   */
  lemma TrollTranslation(p: Troll.Picks, code: string, m: Machine, input: seq<Byte>, fuel: nat)
    requires Troll.PicksInRange(p)
    requires Valid(m)
    requires forall i :: 0 <= i < |code| ==>
               code[i] in GlyphSet(Troll.SetChars(p)) || code[i] !in GlyphSet(Nice.SetChars())
    ensures Interpret(Troll.SetChars(p), code, m, input, fuel)
            == Interpret(Nice.SetChars(), Translate(Troll.SetChars(p), code), m, input, fuel)
  {
    var t := Troll.SetChars(p);
    var n := Nice.SetChars();
    var c2 := Translate(t, code);
    Troll.AliasesOfDraw(p);
    forall i | 0 <= i < |code|
      ensures Decode(t, code[i]) == Decode(n, c2[i])
    {
      if code[i] in GlyphSet(t) {
        var op := Decode(t, code[i]);
        DecodeGlyphOf(n, op);
      }
    }
    SameProgramOfDecode(t, code, n, c2);
    InterpretSame(t, code, n, c2, m, input, fuel);
  }
}
