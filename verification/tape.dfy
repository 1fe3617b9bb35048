/**
  The persistent state of an interpreter: the cell array and the cursor
  `ptr`, with the primitive moves and writes the dispatch loop applies.
 */
module Tape {

  /** Number of cells `reset` allocates. */
  const TapeSize: nat := 30000
  /** Cells wrap modulo this value. */
  const CellModulus: nat := 256

  /** A value a cell can hold; also what one read of input yields. */
  type Byte = x: int | 0 <= x < 256

  datatype Machine = Machine(tape: seq<int>, ptr: int)

  /** The cursor points into the tape and every cell holds a byte. */
  predicate Valid(m: Machine)
  {
    && 0 <= m.ptr < |m.tape|
    && forall i :: 0 <= i < |m.tape| ==> 0 <= m.tape[i] < CellModulus
  }

  /** The cell under the cursor. */
  function Cell(m: Machine): int
    requires 0 <= m.ptr < |m.tape|
  {
    m.tape[m.ptr]
  }

  /** `reset`: cursor to 0, a fresh tape of zero cells; the previous state is irrelevant. */
  function Reset(m: Machine): (r: Machine)
    ensures r.ptr == 0 && |r.tape| == TapeSize
    ensures forall i :: 0 <= i < |r.tape| ==> r.tape[i] == 0
    ensures Valid(r)
  {
    Machine(seq(TapeSize, _ => 0), 0)
  }

  /** Calling `reset` twice is the same as calling it once. */
  lemma ResetIdempotent(m: Machine)
    ensures Reset(Reset(m)) == Reset(m)
  {
  }

  /** Two machines that were both reset are equal, whatever they held before. */
  lemma ResetForgets(m1: Machine, m2: Machine)
    ensures Reset(m1) == Reset(m2)
  {
  }

  function CursorRight(m: Machine): (r: Machine)
    requires Valid(m)
    ensures Valid(r) && r.tape == m.tape
  {
    m.(ptr := (m.ptr + 1) % |m.tape|)
  }

  function CursorLeft(m: Machine): (r: Machine)
    requires Valid(m)
    ensures Valid(r) && r.tape == m.tape
  {
    m.(ptr := (m.ptr - 1) % |m.tape|)
  }

  /** Replace the cell under the cursor, leaving the cursor and all other cells alone. */
  function Write(m: Machine, v: Byte): (r: Machine)
    requires Valid(m)
    ensures Valid(r) && r.ptr == m.ptr && |r.tape| == |m.tape|
    ensures Cell(r) == v
    ensures r.tape == m.tape[m.ptr := Cell(r)]
  {
    m.(tape := m.tape[m.ptr := v])
  }

  function CellInc(m: Machine): (r: Machine)
    requires Valid(m)
    ensures Valid(r) && r.ptr == m.ptr && |r.tape| == |m.tape|
    ensures r.tape == m.tape[m.ptr := Cell(r)]
  {
    Write(m, (Cell(m) + 1) % CellModulus)
  }

  function CellDec(m: Machine): (r: Machine)
    requires Valid(m)
    ensures Valid(r) && r.ptr == m.ptr && |r.tape| == |m.tape|
    ensures r.tape == m.tape[m.ptr := Cell(r)]
  {
    Write(m, (Cell(m) - 1) % CellModulus)
  }

  /** Stepping one place round a cycle of length `n`. */
  lemma WrapStep(p: int, n: int)
    requires 0 <= p < n
    ensures (p + 1) % n == (if p + 1 == n then 0 else p + 1)
    ensures (p - 1) % n == (if p == 0 then n - 1 else p - 1)
  {
    if p + 1 == n {
      assert p + 1 == 1 * n + 0;
    }
    if p == 0 {
      assert p - 1 == (-1) * n + (n - 1);
    }
  }

  lemma MulAtLeast(n: int, k: int)
    requires n > 0 && k >= 1
    ensures n * k >= n
    decreases k
  {
    if k > 1 {
      MulAtLeast(n, k - 1);
      assert n * k == n * (k - 1) + n;
    }
  }

  /** The remainder is determined by any quotient-remainder decomposition. */
  lemma UniqueMod(y: int, q: int, r: int, n: int)
    requires n > 0 && 0 <= r < n && y == n * q + r
    ensures y % n == r
  {
    var q' := y / n;
    var r' := y % n;
    assert y == n * q' + r';
    if q' > q {
      MulAtLeast(n, q' - q);
    } else if q' < q {
      MulAtLeast(n, q - q');
    }
  }

  /** Reducing before adding does not change the wrapped sum. */
  lemma WrapAdd(a: int, b: int, n: int)
    requires n > 0
    ensures (a % n + b) % n == (a + b) % n
  {
    var r := (a % n + b) % n;
    var d := (a % n + b) / n;
    assert a % n + b == n * d + r;
    assert a == n * (a / n) + a % n;
    assert a + b == n * (d + a / n) + r;
    UniqueMod(a + b, d + a / n, r, n);
  }

  /**
    Moving off either end of the tape reappears at the other end, and a cell
    stepped past 255 or below 0 comes back round; every other step is plain
    plus or minus one.
   */
  lemma StepsWrap(m: Machine)
    requires Valid(m)
    ensures CursorRight(m).ptr == if m.ptr == |m.tape| - 1 then 0 else m.ptr + 1
    ensures CursorLeft(m).ptr == if m.ptr == 0 then |m.tape| - 1 else m.ptr - 1
    ensures Cell(CellInc(m)) == if Cell(m) == 255 then 0 else Cell(m) + 1
    ensures Cell(CellDec(m)) == if Cell(m) == 0 then 255 else Cell(m) - 1
  {
    WrapStep(m.ptr, |m.tape|);
    WrapStep(Cell(m), CellModulus);
  }

  /** A move right is undone by a move left, and the other way round. */
  lemma MovesInverse(m: Machine)
    requires Valid(m)
    ensures CursorLeft(CursorRight(m)) == m
    ensures CursorRight(CursorLeft(m)) == m
  {
    WrapStep(m.ptr, |m.tape|);
    WrapStep(CursorRight(m).ptr, |m.tape|);
    WrapStep(CursorLeft(m).ptr, |m.tape|);
  }

  /** An increment is undone by a decrement, and the other way round. */
  lemma IncrementDecrementInverse(m: Machine)
    requires Valid(m)
    ensures CellDec(CellInc(m)) == m
    ensures CellInc(CellDec(m)) == m
  {
    WrapStep(Cell(m), CellModulus);
    WrapStep(Cell(CellInc(m)), CellModulus);
    WrapStep(Cell(CellDec(m)), CellModulus);
    assert CellDec(CellInc(m)).tape == m.tape;
    assert CellInc(CellDec(m)).tape == m.tape;
  }
}
