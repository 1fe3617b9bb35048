/**
  `TrollInterpreter`: glyphs drawn from disjoint alias lists, the alias
  map shown by the `HELPPLZ!!!` directive, and `execute` with the
  post-execution `troll` hook.
 */
module Troll {
  import opened Glyphs
  import opened Tape
  import opened Engine
  import Nice

  const GtSigns: seq<char> := ['>', 'a', 'b', 'c', '1']
  const LtSigns: seq<char> := ['<', 'd', 'e', 'f', '2']
  const PlusSigns: seq<char> := ['+', 'g', 'h', 'i', '3']
  const MinusSigns: seq<char> := ['-', 'j', 'k', 'l', '4']
  const PeriodSigns: seq<char> := ['.', 'm', 'n', 'o', '5']
  const CommaSigns: seq<char> := [',', 'p', 'q', 'r', '6']
  const LbracketSigns: seq<char> := ['[', 's', 't', 'u', '7']
  const RbracketSigns: seq<char> := [']', 'v', 'w', 'x', '8']

  /** The eight alias lists, in attribute order. */
  const SignLists: seq<seq<char>> :=
    [GtSigns, LtSigns, PlusSigns, MinusSigns, PeriodSigns, CommaSigns, LbracketSigns, RbracketSigns]

  /** Which alias list a character belongs to, read off the lists' layout; -1 for none. */
  function ListIndex(c: char): int
  {
    if c == '>' then 0 else if c == '<' then 1 else if c == '+' then 2 else if c == '-' then 3
    else if c == '.' then 4 else if c == ',' then 5 else if c == '[' then 6 else if c == ']' then 7
    else if 'a' <= c <= 'x' then ((c as int) - ('a' as int)) / 3
    else if '1' <= c <= '8' then (c as int) - ('1' as int)
    else -1
  }

  lemma ListIndexOfList(i: nat)
    requires i < |SignLists|
    ensures forall k :: 0 <= k < |SignLists[i]| ==> ListIndex(SignLists[i][k]) == i
  {
    var l := SignLists[i];
    assert |l| == 5;
    forall k | 0 <= k < 5
      ensures ListIndex(l[k]) == i
    {
      if i == 0 { assert l == GtSigns; }
      else if i == 1 { assert l == LtSigns; }
      else if i == 2 { assert l == PlusSigns; }
      else if i == 3 { assert l == MinusSigns; }
      else if i == 4 { assert l == PeriodSigns; }
      else if i == 5 { assert l == CommaSigns; }
      else if i == 6 { assert l == LbracketSigns; }
      else { assert l == RbracketSigns; }
    }
  }

  /** No character appears in two alias lists. */
  lemma SignListsDisjoint()
    ensures forall i, j, k :: 0 <= i < |SignLists| && 0 <= j < |SignLists| && i != j && 0 <= k < |SignLists[i]|
                              ==> SignLists[i][k] !in SignLists[j]
  {
    forall i, j, k | 0 <= i < |SignLists| && 0 <= j < |SignLists| && i != j && 0 <= k < |SignLists[i]|
      ensures SignLists[i][k] !in SignLists[j]
    {
      ListIndexOfList(i);
      ListIndexOfList(j);
    }
  }

  /** The positions `choice` draws in each list; randomness is left to the caller. */
  datatype Picks = Picks(gt: nat, lt: nat, plus: nat, minus: nat,
                         period: nat, comma: nat, lbracket: nat, rbracket: nat)

  predicate PicksInRange(p: Picks)
  {
    && p.gt < |GtSigns| && p.lt < |LtSigns| && p.plus < |PlusSigns| && p.minus < |MinusSigns|
    && p.period < |PeriodSigns| && p.comma < |CommaSigns|
    && p.lbracket < |LbracketSigns| && p.rbracket < |RbracketSigns|
  }

  /** `setChars`: one alias per attribute, each from its own list. */
  function SetChars(p: Picks): (t: Table)
    requires PicksInRange(p)
    ensures Distinct(t)
    ensures t.gt in GtSigns && t.lt in LtSigns && t.plus in PlusSigns && t.minus in MinusSigns
    ensures t.period in PeriodSigns && t.comma in CommaSigns
    ensures t.lbracket in LbracketSigns && t.rbracket in RbracketSigns
  {
    Table(GtSigns[p.gt], LtSigns[p.lt], PlusSigns[p.plus], MinusSigns[p.minus],
          PeriodSigns[p.period], CommaSigns[p.comma], LbracketSigns[p.lbracket], RbracketSigns[p.rbracket])
  }

  /** Every list starts with the traditional glyph, so drawing position 0 everywhere gives the nice table. */
  lemma FirstPicksAreStandard()
    ensures SetChars(Picks(0, 0, 0, 0, 0, 0, 0, 0)) == Nice.SetChars()
  {
  }

  /** The `aliases` dictionary: each drawn glyph to the traditional glyph it stands for. */
  function Aliases(t: Table): map<char, char>
  {
    map[t.gt := '>', t.lt := '<', t.plus := '+', t.minus := '-',
        t.period := '.', t.comma := ',', t.lbracket := '[', t.rbracket := ']']
  }

  /** After a draw, `aliases` has exactly eight entries, one per glyph, each naming its traditional glyph. */
  lemma AliasesOfDraw(p: Picks)
    requires PicksInRange(p)
    ensures var t := SetChars(p);
            && |Aliases(t)| == 8
            && Aliases(t).Keys == GlyphSet(t)
            && forall c :: c in Aliases(t) ==> Aliases(t)[c] == GlyphOf(Nice.SetChars(), Decode(t, c))
  {
    var t := SetChars(p);
    var a := Aliases(t);
    assert a.Keys == GlyphSet(t);
    var m0: map<char, char> := map[];
    var m1 := m0[t.gt := '>'];
    var m2 := m1[t.lt := '<'];
    var m3 := m2[t.plus := '+'];
    var m4 := m3[t.minus := '-'];
    var m5 := m4[t.period := '.'];
    var m6 := m5[t.comma := ','];
    var m7 := m6[t.lbracket := '['];
    var m8 := m7[t.rbracket := ']'];
    assert m8 == a;
    assert |m1| == 1;
    assert |m2| == 2;
    assert |m3| == 3;
    assert |m4| == 4;
    assert |m5| == 5;
    assert |m6| == 6;
    assert |m7| == 7;
  }

  /** What a `troll` hook does to the interpreter after `interpret` returns. */
  datatype Hook =
    | ResetTroll              // `ResetTrollInterpreter`: reset the machine
    | SetCharsTroll(p: Picks) // `SetCharsTrollInterpreter`: draw a new table
    | EffectOnlyTroll         // log-file and browser trolls: outside effects only

  predicate HookInRange(h: Hook)
  {
    h.SetCharsTroll? ==> PicksInRange(h.p)
  }

  function ApplyHook(it: Interp, h: Hook): (r: Interp)
    requires Valid(it.m) && HookInRange(h)
    ensures Valid(r.m)
    // a reset troll wipes tape and cursor and keeps the glyphs
    ensures h == ResetTroll ==> r.table == it.table && r.m == Reset(it.m)
    // a redraw troll keeps tape and cursor and binds a fresh, distinct table
    ensures h.SetCharsTroll? ==> r.m == it.m && r.table == SetChars(h.p) && Distinct(r.table)
    // every other troll leaves the interpreter alone
    ensures h == EffectOnlyTroll ==> r == it
  {
    match h
    case ResetTroll => it.(m := Reset(it.m))
    case SetCharsTroll(p) => it.(table := SetChars(p))
    case EffectOnlyTroll => it
  }

  /** The code that prints the alias map instead of being interpreted. */
  const DirectiveCode: string := "HELPPLZ!!!"

  /** How a troll `execute` call ends. */
  datatype CallResult =
    | PrintedDirective          // `printDirective` ran; nothing was interpreted
    | Returned(outcome: Outcome) // `interpret` returned and the hook ran
    | Raised                    // reading input failed; the exception skips the hook
    | Unfinished                // still running when the fuel ran out

  datatype Reply = Reply(result: CallResult, output: seq<int>, after: Interp)

  /** `TrollInterpreter.execute`. */
  function Execute(it: Interp, code: string, input: seq<Byte>, fuel: nat, h: Hook): (r: Reply)
    requires Valid(it.m) && HookInRange(h)
    ensures Valid(r.after.m)
    // the directive neither interprets nor changes the machine or the glyphs
    ensures code == DirectiveCode <==> r.result == PrintedDirective
    ensures code == DirectiveCode ==> r.after == it && r.output == []
    // the hook runs exactly when `interpret` returned
    ensures r.result.Returned? && h == ResetTroll ==> r.after.m == Reset(it.m) && r.after.table == it.table
    ensures r.result.Returned? && h.SetCharsTroll? ==> r.after.table == SetChars(h.p)
    ensures !r.result.Returned? ==> r.after.table == it.table
    ensures r.result.Returned? ==> !r.result.outcome.InputError?
    // any other code is interpreted once, on the object's own machine and glyphs
    ensures code != DirectiveCode ==>
              var run := Interpret(it.table, code, it.m, input, fuel);
              && r.output == run.final.output
              && (r.result.Returned? <==> run.Halted? && !run.outcome.InputError?)
              && (r.result == Raised <==> run.Halted? && run.outcome.InputError?)
              && (r.result == Unfinished <==> run.OutOfFuel?)
              && (r.result.Returned? ==>
                    r.result.outcome == run.outcome && r.after == ApplyHook(Interp(run.final.m, it.table), h))
              && (!r.result.Returned? ==> r.after == Interp(run.final.m, it.table))
  {
    if code == DirectiveCode then Reply(PrintedDirective, [], it)
    else
      var run := Interpret(it.table, code, it.m, input, fuel);
      var after := Interp(run.final.m, it.table);
      match run
      case OutOfFuel(_) => Reply(Unfinished, run.final.output, after)
      case Halted(o, _) =>
        if o.InputError? then Reply(Raised, run.final.output, after)
        else Reply(Returned(o), run.final.output, ApplyHook(after, h))
  }

  /** After a reset troll, two interpreters with the same glyphs are indistinguishable. */
  lemma ResetHookForgets(it1: Interp, it2: Interp)
    requires Valid(it1.m) && Valid(it2.m) && it1.table == it2.table
    ensures ApplyHook(it1, ResetTroll) == ApplyHook(it2, ResetTroll)
  {
  }

  /**
    A troll call on ordinary code produces what the nice `execute` produces
    on the same object, and ends on the same machine unless the hook ran.
   */
  lemma AgreesWithNice(it: Interp, code: string, input: seq<Byte>, fuel: nat, h: Hook)
    requires Valid(it.m) && HookInRange(h) && code != DirectiveCode
    ensures var r := Execute(it, code, input, fuel, h);
            var (run, after) := Nice.Execute(it, code, input, fuel);
            && r.output == run.final.output
            && (r.result.Returned? ==> r.result.outcome == run.outcome && r.after == ApplyHook(after, h))
            && (!r.result.Returned? ==> r.after == after)
  {
  }

  /** The directive changes nothing, so a later call sees the interpreter as it was. */
  lemma DirectiveTransparent(it: Interp, code: string, input: seq<Byte>, fuel: nat, h: Hook)
    requires Valid(it.m) && HookInRange(h)
    ensures Execute(Execute(it, DirectiveCode, input, fuel, h).after, code, input, fuel, h)
            == Execute(it, code, input, fuel, h)
  {
  }

  /** Construction: `reset` followed by a draw. */
  function New(p: Picks): (it: Interp)
    requires PicksInRange(p)
    ensures Distinct(it.table)
    ensures it.m.ptr == 0 && |it.m.tape| == TapeSize
    ensures forall i :: 0 <= i < |it.m.tape| ==> it.m.tape[i] == 0
  {
    Interp(Reset(Machine([], 0)), SetChars(p))
  }

  /** `handleError` of every troll: one fixed line, never one of the nice messages. */
  function HandleError(side: string): (msg: string)
    ensures msg != Nice.HandleError(side)
    ensures msg != Nice.LeftMessage && msg != Nice.RightMessage && msg != Nice.UnknownMessage
  {
    "Your code is broken. It failed."
  }

  /** The side argument is ignored: every troll failure prints the same line. */
  lemma HandleErrorIgnoresSide(side1: string, side2: string)
    ensures HandleError(side1) == HandleError(side2)
  {
  }
}
