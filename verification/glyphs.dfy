/**
  The symbol table of an interpreter: the eight characters bound to the
  attributes `gt`, `lt`, `plus`, `minus`, `period`, `comma`, `lbracket` and
  `rbracket`, and how one program character is dispatched against them.
 */
module Glyphs {

  datatype Table = Table(gt: char, lt: char, plus: char, minus: char,
                         period: char, comma: char, lbracket: char, rbracket: char)

  /** What a program character does; `Comment` when it is none of the eight glyphs. */
  datatype Op = MoveRight | MoveLeft | Increment | Decrement
              | Output | Input | LoopOpen | LoopClose | Comment

  function GlyphSet(t: Table): set<char>
  {
    {t.gt, t.lt, t.plus, t.minus, t.period, t.comma, t.lbracket, t.rbracket}
  }

  /** The glyph a table binds to an operation. */
  function GlyphOf(t: Table, op: Op): (c: char)
    requires op != Comment
    ensures c in GlyphSet(t)
  {
    match op
    case MoveRight => t.gt
    case MoveLeft => t.lt
    case Increment => t.plus
    case Decrement => t.minus
    case Output => t.period
    case Input => t.comma
    case LoopOpen => t.lbracket
    case LoopClose => t.rbracket
  }

  /** The eight glyphs are pairwise different. The engine never checks this. */
  predicate Distinct(t: Table)
  {
    && t.gt != t.lt && t.gt != t.plus && t.gt != t.minus && t.gt != t.period
    && t.gt != t.comma && t.gt != t.lbracket && t.gt != t.rbracket
    && t.lt != t.plus && t.lt != t.minus && t.lt != t.period && t.lt != t.comma
    && t.lt != t.lbracket && t.lt != t.rbracket
    && t.plus != t.minus && t.plus != t.period && t.plus != t.comma
    && t.plus != t.lbracket && t.plus != t.rbracket
    && t.minus != t.period && t.minus != t.comma && t.minus != t.lbracket
    && t.minus != t.rbracket
    && t.period != t.comma && t.period != t.lbracket && t.period != t.rbracket
    && t.comma != t.lbracket && t.comma != t.rbracket
    && t.lbracket != t.rbracket
  }

  /**
    Dispatch of one character: it is compared with the glyphs in the order
    gt, lt, plus, minus, period, comma, lbracket, rbracket and the first
    equal one wins, so a table with repeated glyphs still dispatches.
   */
  function Decode(t: Table, c: char): (op: Op)
    ensures op == Comment <==> c !in GlyphSet(t)
    ensures op != Comment ==> GlyphOf(t, op) == c
    ensures op == LoopClose ==> c != t.lbracket
  {
    if c == t.gt then MoveRight
    else if c == t.lt then MoveLeft
    else if c == t.plus then Increment
    else if c == t.minus then Decrement
    else if c == t.period then Output
    else if c == t.comma then Input
    else if c == t.lbracket then LoopOpen
    else if c == t.rbracket then LoopClose
    else Comment
  }

  /**
    Dispatch tests the glyphs in `elif` order: whatever a character decodes
    to, none of the glyphs tested before that one equals it.
   */
  lemma DecodeFirstMatch(t: Table, c: char)
    ensures Decode(t, c) == MoveLeft ==> c != t.gt
    ensures Decode(t, c) == Increment ==> c != t.gt && c != t.lt
    ensures Decode(t, c) == Decrement ==> c != t.gt && c != t.lt && c != t.plus
    ensures Decode(t, c) == Output ==> c != t.gt && c != t.lt && c != t.plus && c != t.minus
    ensures Decode(t, c) == Input ==> c != t.gt && c != t.lt && c != t.plus && c != t.minus && c != t.period
    ensures Decode(t, c) == LoopOpen ==>
              c != t.gt && c != t.lt && c != t.plus && c != t.minus && c != t.period && c != t.comma
    ensures Decode(t, c) == LoopClose ==>
              c != t.gt && c != t.lt && c != t.plus && c != t.minus && c != t.period && c != t.comma
              && c != t.lbracket
  {
  }

  /** How a bracket scan counts a character: +1 for lbracket, else -1 for rbracket, else 0. */
  function Weight(t: Table, c: char): (w: int)
    ensures -1 <= w <= 1
    ensures w == 1 <==> c == t.lbracket
    ensures w == -1 <==> c != t.lbracket && c == t.rbracket
  {
    if c == t.lbracket then 1 else if c == t.rbracket then -1 else 0
  }

  /** With distinct glyphs, each glyph dispatches back to its own operation. */
  lemma DecodeGlyphOf(t: Table, op: Op)
    requires Distinct(t)
    requires op != Comment
    ensures Decode(t, GlyphOf(t, op)) == op
  {
  }

  /** With distinct glyphs, no character stands for two operations. */
  lemma GlyphsUnambiguous(t: Table, a: Op, b: Op)
    requires Distinct(t)
    requires a != Comment && b != Comment
    ensures GlyphOf(t, a) == GlyphOf(t, b) <==> a == b
  {
  }

  /** With distinct glyphs, a scan's weight is read off the dispatched operation. */
  lemma WeightOfDecode(t: Table, c: char)
    requires Distinct(t)
    ensures Weight(t, c) == (match Decode(t, c)
                             case LoopOpen => 1
                             case LoopClose => -1
                             case _ => 0)
  {
  }
}
