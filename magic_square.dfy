/** The Siamese fill of an odd-order square (case 1 of `main` in ex3/cube_teacher.cpp): 1 goes
    to the middle of the top row, and each next number goes one row up and one column right,
    wrapping around the edges, or straight down when that cell is taken. */
module MagicSquares {
  import opened Basics

  /** What case 1 prints: a refusal for an even order, or the filled square. */
  datatype Answer = Rejected(msg: string) | Square(cells: array2<int>)

  /** An index at most one turn outside `0 .. n-1`, brought back into it. */
  function Wrap(x: int, n: int): (w: int)
    requires n > 0 && -n < x < 2 * n
    ensures 0 <= w < n && (w == x || w == x + n || w == x - n)
  {
    if x < 0 then x + n else if x >= n then x - n else x
  }

  /** Round `q`, step `r` is number `q * n + r + 1`. Each round runs up-right along a
      diagonal; the next round starts one row below the end of the previous one, which is two
      rows below and one column left of where the previous round started. */
  function CellRow(n: nat, q: int, r: int): int
    requires n > 0 && 0 <= q < n && 0 <= r < n
  {
    Wrap(2 * q - r, n)
  }

  function CellCol(n: nat, q: int, r: int): int
    requires n > 0 && 0 <= q < n && 0 <= r < n
  {
    Wrap(n / 2 - q + r, n)
  }

  /** The round and the step that fill cell (`row`, `col`). */
  function RoundOf(n: nat, row: int, col: int): int
    requires 0 <= row < n && 0 <= col < n
  {
    Wrap(row + col - n / 2, n)
  }

  function StepOf(n: nat, row: int, col: int): int
    requires 0 <= row < n && 0 <= col < n
  {
    Wrap(2 * RoundOf(n, row, col) - row, n)
  }

  /** The number the fill writes into cell (`row`, `col`). */
  function Value(n: nat, row: int, col: int): int
    requires 0 <= row < n && 0 <= col < n
  {
    RoundOf(n, row, col) * n + StepOf(n, row, col) + 1
  }

  /** Round and step `(q, r)` come before `(q2, r2)`. */
  predicate Before(q: int, r: int, q2: int, r2: int)
  {
    q < q2 || (q == q2 && r < r2)
  }

  /** Step `r` of round `q` lands in a cell that is filled at round `q`, step `r`. */
  lemma CellThenIndex(n: nat, q: int, r: int)
    requires n > 0 && 0 <= q < n && 0 <= r < n
    ensures 0 <= CellRow(n, q, r) < n && 0 <= CellCol(n, q, r) < n
    ensures RoundOf(n, CellRow(n, q, r), CellCol(n, q, r)) == q
    ensures StepOf(n, CellRow(n, q, r), CellCol(n, q, r)) == r
  {
  }

  /** Every cell is the one some round and step land in. */
  lemma IndexThenCell(n: nat, row: int, col: int)
    requires 0 <= row < n && 0 <= col < n
    ensures 0 <= RoundOf(n, row, col) < n && 0 <= StepOf(n, row, col) < n
    ensures CellRow(n, RoundOf(n, row, col), StepOf(n, row, col)) == row
    ensures CellCol(n, RoundOf(n, row, col), StepOf(n, row, col)) == col
  {
  }

  /** One row up, one column right and one row down, wrapping around the edges. */
  function Up(n: int, row: int): int
  {
    if row == 0 then n - 1 else row - 1
  }

  function Right(n: int, col: int): int
  {
    if col == n - 1 then 0 else col + 1
  }

  function Down(n: int, row: int): int
  {
    if row == n - 1 then 0 else row + 1
  }

  /** `(row - 1 + n) % n`, `(col + 1) % n` and `(row + 1) % n` for indices inside the square. */
  lemma Neighbours(n: nat, row: int, col: int)
    requires 0 <= row < n && 0 <= col < n
    ensures (row - 1 + n) % n == Up(n, row)
    ensures (col + 1) % n == Right(n, col)
    ensures (row + 1) % n == Down(n, row)
  {
    if row == 0 { ModSmall(n - 1, n); } else { ModWrap(row - 1 + n, n); }
    if col == n - 1 { ModWrap(n, n); } else { ModSmall(col + 1, n); }
    if row == n - 1 { ModWrap(n, n); } else { ModSmall(row + 1, n); }
  }

  /** Up-right of round `q`, step `r` is the next step's cell inside a round, and after the
      round's last step it is the round's own first cell. */
  lemma UpRight(n: nat, q: int, r: int)
    requires n > 0 && 0 <= q < n && 0 <= r < n
    ensures Up(n, CellRow(n, q, r)) == CellRow(n, q, NextStep(n, q, r))
    ensures Right(n, CellCol(n, q, r)) == CellCol(n, q, NextStep(n, q, r))
  {
  }

  /** Straight down from the last step of a round is the next round's first cell. */
  lemma DownAfterRound(n: nat, q: int)
    requires n > 0 && 0 <= q < n - 1
    ensures Down(n, CellRow(n, q, n - 1)) == CellRow(n, q + 1, 0)
    ensures CellCol(n, q, n - 1) == CellCol(n, q + 1, 0)
  {
  }

  /** A later round's numbers are at least a whole round larger. */
  lemma RoundsApart(q: int, q2: int, n: int)
    requires 0 <= q < q2 && n >= 0
    ensures q * n + n <= q2 * n
  {
    var d := q2 - q - 1;
    assert d * n >= 0;
    assert q2 * n == q * n + n + d * n;
  }

  /** `i <= n * n` holds exactly while rounds remain. */
  lemma RoundsLeft(n: nat, q: nat, r: nat)
    requires 0 <= r < n
    ensures q * n + r + 1 <= n * n <==> q < n
  {
    if q < n {
      RoundsApart(q, n, n);
    } else if q > n {
      RoundsApart(n, q, n);
    }
  }

  /** The numbers in the square lie in `1 .. n * n`. */
  lemma ValueBounds(n: nat, row: int, col: int)
    requires 0 <= row < n && 0 <= col < n
    ensures 1 <= Value(n, row, col) <= n * n
  {
    IndexThenCell(n, row, col);
    RoundsLeft(n, RoundOf(n, row, col), StepOf(n, row, col));
    assert RoundOf(n, row, col) * n >= 0;
  }

  /** No two cells of the square share a number. */
  lemma ValuesDistinct(n: nat, row: int, col: int, row2: int, col2: int)
    requires 0 <= row < n && 0 <= col < n && 0 <= row2 < n && 0 <= col2 < n
    requires Value(n, row, col) == Value(n, row2, col2)
    ensures row == row2 && col == col2
  {
    var q, r := RoundOf(n, row, col), StepOf(n, row, col);
    var q2, r2 := RoundOf(n, row2, col2), StepOf(n, row2, col2);
    IndexThenCell(n, row, col);
    IndexThenCell(n, row2, col2);
    if q < q2 {
      RoundsApart(q, q2, n);
    } else if q2 < q {
      RoundsApart(q2, q, n);
    }
  }

  /** Every number `q * n + r + 1` of `1 .. n * n` is written into exactly one cell, and 1 is
      in the middle of the top row. */
  lemma EveryValueOnce(n: nat, q: int, r: int)
    requires n > 0 && 0 <= q < n && 0 <= r < n
    ensures Value(n, CellRow(n, q, r), CellCol(n, q, r)) == q * n + r + 1
    ensures forall row, col :: 0 <= row < n && 0 <= col < n && Value(n, row, col) == q * n + r + 1 ==>
      row == CellRow(n, q, r) && col == CellCol(n, q, r)
    ensures CellRow(n, 0, 0) == 0 && CellCol(n, 0, 0) == n / 2
  {
    CellThenIndex(n, q, r);
    forall row, col | 0 <= row < n && 0 <= col < n && Value(n, row, col) == q * n + r + 1
      ensures row == CellRow(n, q, r) && col == CellCol(n, q, r)
    {
      ValuesDistinct(n, row, col, CellRow(n, q, r), CellCol(n, q, r));
    }
  }

  /** Case 1 of `main` (ex3/cube_teacher.cpp:212-230): an even order is refused; otherwise the
      square holds, in every cell, the number the Siamese walk writes there. */
  method MagicSquare(n: nat) returns (answer: Answer)
    ensures n % 2 == 0 <==> answer.Rejected?
    ensures answer.Rejected? ==> answer.msg == "must be an odd number"
    ensures answer.Square? ==> fresh(answer.cells) && answer.cells.Length0 == n && answer.cells.Length1 == n
    ensures answer.Square? ==> forall row, col :: 0 <= row < n && 0 <= col < n ==>
      answer.cells[row, col] == Value(n, row, col)
  {
    if n % 2 == 0 {
      return Rejected("must be an odd number");
    }
    var matrix := new int[n, n]((_, _) => 0);
    Fill(matrix, n);
    return Square(matrix);
  }

  /** The cells numbered so far: those whose round and step come before `(q, r)`. */
  ghost predicate FilledUpTo(matrix: array2<int>, n: nat, q: int, r: int)
    reads matrix
    requires matrix.Length0 == n && matrix.Length1 == n
  {
    forall row, col :: 0 <= row < n && 0 <= col < n ==>
      matrix[row, col] == if Before(RoundOf(n, row, col), StepOf(n, row, col), q, r) then Value(n, row, col) else 0
  }

  /** The round and the step after round `q`, step `r`. */
  function NextRound(n: int, q: int, r: int): int
  {
    if r < n - 1 then q else q + 1
  }

  function NextStep(n: int, q: int, r: int): int
  {
    if r < n - 1 then r + 1 else 0
  }

  /** The number after `q * n + r + 1` belongs to the next round and step. */
  lemma NextNumber(n: int, q: int, r: int)
    requires 0 <= r < n
    ensures NextRound(n, q, r) * n + NextStep(n, q, r) + 1 == q * n + r + 2
  {
    if r == n - 1 {
      assert (q + 1) * n == q * n + n;
    }
  }

  /** Once step `r` of round `q` is written, the cell up-right of it is taken exactly when
      `r` was the round's last step. */
  lemma UpRightTaken(matrix: array2<int>, n: nat, q: int, r: int)
    requires n > 0 && matrix.Length0 == n && matrix.Length1 == n && 0 <= q < n && 0 <= r < n
    requires FilledUpTo(matrix, n, NextRound(n, q, r), NextStep(n, q, r))
    ensures matrix[Up(n, CellRow(n, q, r)), Right(n, CellCol(n, q, r))] != 0 <==> r == n - 1
  {
    UpRight(n, q, r);
    var r2 := NextStep(n, q, r);
    CellThenIndex(n, q, r2);
    var row, col := CellRow(n, q, r2), CellCol(n, q, r2);
    assert matrix[row, col] == if Before(q, r2, NextRound(n, q, r), r2) then Value(n, row, col) else 0;
    assert q * n >= 0;
  }

  /** The loop of ex3/cube_teacher.cpp:219-230 over a zeroed `n` by `n` matrix. */
  method Fill(matrix: array2<int>, n: nat)
    requires n > 0 && matrix.Length0 == n && matrix.Length1 == n
    requires forall row, col :: 0 <= row < n && 0 <= col < n ==> matrix[row, col] == 0
    modifies matrix
    ensures forall row, col :: 0 <= row < n && 0 <= col < n ==> matrix[row, col] == Value(n, row, col)
  {
    var row, col := 0, n / 2;
    ghost var q, r := 0, 0;
    var i := 1;
    while i <= n * n
      invariant 0 <= row < n && 0 <= col < n
      invariant 0 <= q <= n && 0 <= r < n && (q == n ==> r == 0) && i == q * n + r + 1
      invariant q < n ==> row == CellRow(n, q, r) && col == CellCol(n, q, r)
      invariant FilledUpTo(matrix, n, q, r)
      decreases n * n + 1 - i
    {
      RoundsLeft(n, q, r);
      Place(matrix, n, q, r, row, col, i);
      Neighbours(n, row, col);
      var rowNext := (row - 1 + n) % n;
      var colNext := (col + 1) % n;
      UpRightTaken(matrix, n, q, r);
      if matrix[rowNext, colNext] != 0 {
        rowNext := (row + 1) % n;
        colNext := col;
      }
      if r == n - 1 && q < n - 1 {
        DownAfterRound(n, q);
      }
      UpRight(n, q, r);
      row, col := rowNext, colNext;
      i := i + 1;
      NextNumber(n, q, r);
      q, r := NextRound(n, q, r), NextStep(n, q, r);
    }
    RoundsLeft(n, q, r);
  }

  /** `matrix[row][col] = i` at the cell of round `q`, step `r`: the numbered cells are now
      those up to and including that step. */
  method Place(matrix: array2<int>, n: nat, ghost q: int, ghost r: int, row: int, col: int, i: int)
    requires n > 0 && matrix.Length0 == n && matrix.Length1 == n
    requires 0 <= q < n && 0 <= r < n && i == q * n + r + 1
    requires row == CellRow(n, q, r) && col == CellCol(n, q, r)
    requires FilledUpTo(matrix, n, q, r)
    modifies matrix
    ensures FilledUpTo(matrix, n, NextRound(n, q, r), NextStep(n, q, r))
  {
    CellThenIndex(n, q, r);
    matrix[row, col] := i;
    forall R, C | 0 <= R < n && 0 <= C < n && (R != row || C != col)
      ensures RoundOf(n, R, C) != q || StepOf(n, R, C) != r
    {
      IndexThenCell(n, R, C);
    }
  }
}
