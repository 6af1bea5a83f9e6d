// A bingo board of 5 × 5 numbers stored row by row: marking a number clears its cell and counts
// it in its row and its column, and a full row or column scores the board once.

module Bingo {

  datatype Option<T> = None | Some(value: T)

  type Byte = n: int | 0 <= n < 256

  /** The first cell holding `num`, if any: the source's `position`. */
  function Position(numbers: seq<Option<Byte>>, num: Byte): (r: Option<nat>)
    ensures r.Some? ==> r.value < |numbers| && numbers[r.value] == Some(num)
    ensures r.Some? ==> forall j :: 0 <= j < r.value ==> numbers[j] != Some(num)
    ensures r.None? ==> forall j :: 0 <= j < |numbers| ==> numbers[j] != Some(num)
  {
    if numbers == [] then None
    else if numbers[0] == Some(num) then Some(0)
    else
      match Position(numbers[1..], num)
      case None => None
      case Some(k) => Some(k + 1)
  }

  /** The sum of the numbers not yet marked. */
  function UnmarkedSum(numbers: seq<Option<Byte>>): nat
  {
    if numbers == [] then 0
    else (match numbers[0] case Some(v) => v case None => 0) + UnmarkedSum(numbers[1..])
  }

  /** Marking a cell takes its number out of the sum. */
  lemma {:induction false} UnmarkedSumMark(numbers: seq<Option<Byte>>, i: nat)
    requires i < |numbers| && numbers[i].Some?
    ensures UnmarkedSum(numbers[i := None]) + numbers[i].value == UnmarkedSum(numbers)
  {
    if i > 0 {
      assert numbers[i := None][1..] == numbers[1..][i - 1 := None];
      UnmarkedSumMark(numbers[1..], i - 1);
    } else {
      assert numbers[i := None][1..] == numbers[1..];
    }
  }

  // ---------------------------------------------------------------------------------------
  // Rows and columns

  datatype Line = Row(r: int) | Col(c: int)

  /** Whether cell `i` of the row-by-row board lies on the line. */
  predicate OnLine(i: int, line: Line)
  {
    match line
    case Row(r) => i / 5 == r
    case Col(c) => i % 5 == c
  }

  /** The number of marked cells on the line among the first `n`. */
  function Marks(numbers: seq<Option<Byte>>, n: nat, line: Line): nat
    requires n <= |numbers|
  {
    if n == 0 then 0
    else Marks(numbers, n - 1, line) + (if OnLine(n - 1, line) && numbers[n - 1].None? then 1 else 0)
  }

  /** The number of cells on the line among the first `n`. */
  function Slots(n: nat, line: Line): nat
  {
    if n == 0 then 0 else Slots(n - 1, line) + (if OnLine(n - 1, line) then 1 else 0)
  }

  /** A line's marks never exceed its cells, and reach them exactly when all its cells are
      marked. */
  lemma {:induction false} MarksFull(numbers: seq<Option<Byte>>, n: nat, line: Line)
    requires n <= |numbers|
    ensures Marks(numbers, n, line) <= Slots(n, line)
    ensures Marks(numbers, n, line) == Slots(n, line) <==>
      forall i :: 0 <= i < n && OnLine(i, line) ==> numbers[i].None?
  {
    if n > 0 {
      MarksFull(numbers, n - 1, line);
    }
  }

  /** A row of a full board has five cells. */
  lemma {:induction false} RowSlots(n: nat, r: int)
    requires 0 <= r < 5
    ensures Slots(n, Row(r)) == if n <= 5 * r then 0 else if n >= 5 * r + 5 then 5 else n - 5 * r
  {
    if n > 0 {
      RowSlots(n - 1, r);
    }
  }

  /** A column of a full board has five cells. */
  lemma {:induction false} ColSlots(n: nat, c: int)
    requires 0 <= c < 5
    ensures Slots(n, Col(c)) == if n <= c then 0 else (n - 1 - c) / 5 + 1
  {
    if n > 0 {
      ColSlots(n - 1, c);
      ColStep(n - 1, c);
    }
  }

  /** Cell `k` is on column `c` exactly when it is the next one after the column's earlier cells. */
  lemma ColStep(k: nat, c: int)
    requires 0 <= c < 5
    ensures (if k + 1 <= c then 0 else (k - c) / 5 + 1) ==
      (if k <= c then 0 else (k - 1 - c) / 5 + 1) + (if OnLine(k, Col(c)) then 1 else 0)
  {
    var q, r := k / 5, k % 5;
    assert k == 5 * q + r;
    if k > c {
      if r == c {
        assert (k - c) / 5 == q && (k - 1 - c) / 5 == q - 1;
      } else if r > c {
        assert (k - c) / 5 == q && (k - 1 - c) / 5 == q;
      } else {
        assert (k - c) / 5 == q - 1 && (k - 1 - c) / 5 == q - 1;
      }
    }
  }

  /** On a board of 25 numbers a line has five marks exactly when all its cells are marked. */
  lemma FiveMarks(numbers: seq<Option<Byte>>, line: Line)
    requires |numbers| == 25
    requires line.Row? ==> 0 <= line.r < 5
    requires line.Col? ==> 0 <= line.c < 5
    ensures Marks(numbers, 25, line) == 5 <==>
      forall i :: 0 <= i < 25 && OnLine(i, line) ==> numbers[i].None?
  {
    MarksFull(numbers, 25, line);
    if line.Row? {
      RowSlots(25, line.r);
    } else {
      ColSlots(25, line.c);
    }
  }

  /** Marking an unmarked cell adds one mark to each line through it and none to the others. */
  lemma {:induction false} MarkCounts(numbers: seq<Option<Byte>>, n: nat, i: nat, line: Line)
    requires n <= |numbers| && i < |numbers| && numbers[i].Some?
    ensures Marks(numbers[i := None], n, line) ==
      Marks(numbers, n, line) + (if i < n && OnLine(i, line) then 1 else 0)
  {
    if n > 0 {
      MarkCounts(numbers, n - 1, i, line);
    }
  }

  /** On a board of 25 numbers, marking cell `i` takes its row or column to five marks exactly
      when, after the mark, every cell of that row or that column is marked. */
  lemma FullLine(numbers: seq<Option<Byte>>, i: nat)
    requires |numbers| == 25 && i < 25 && numbers[i].Some?
    ensures var marked := numbers[i := None];
      (Marks(numbers, 25, Row(i / 5)) + 1 == 5 || Marks(numbers, 25, Col(i % 5)) + 1 == 5) <==>
      ((forall j :: 0 <= j < 25 && OnLine(j, Row(i / 5)) ==> marked[j].None?) ||
       (forall j :: 0 <= j < 25 && OnLine(j, Col(i % 5)) ==> marked[j].None?))
  {
    var marked := numbers[i := None];
    MarkCounts(numbers, 25, i, Row(i / 5));
    MarkCounts(numbers, 25, i, Col(i % 5));
    FiveMarks(marked, Row(i / 5));
    FiveMarks(marked, Col(i % 5));
  }

  // ---------------------------------------------------------------------------------------
  // The board

  class Board {
    var numbers: seq<Option<Byte>>
    const rows: array<int>
    const cols: array<int>
    /** Whether the board has scored, after which its numbers are cleared. */
    ghost var won: bool

    /** The counters hold the marks of each row and column until the board scores. */
    ghost predicate Valid()
      reads this, rows, cols
    {
      && rows.Length == 5 && cols.Length == 5 && rows != cols
      && |numbers| <= 25
      && (won ==> numbers == [])
      && (!won ==> forall r :: 0 <= r < 5 ==> rows[r] == Marks(numbers, |numbers|, Row(r)))
      && (!won ==> forall c :: 0 <= c < 5 ==> cols[c] == Marks(numbers, |numbers|, Col(c)))
    }

    /** The source's `from_str`, on the parsed numbers: nothing marked yet. */
    constructor (cells: seq<Byte>)
      requires |cells| <= 25
      ensures Valid() && !won && fresh(rows) && fresh(cols)
      ensures |numbers| == |cells| && forall i :: 0 <= i < |cells| ==> numbers[i] == Some(cells[i])
      ensures rows[..] == [0, 0, 0, 0, 0] && cols[..] == [0, 0, 0, 0, 0]
    {
      numbers := seq(|cells|, i requires 0 <= i < |cells| => Some(cells[i]));
      rows := new int[5](_ => 0);
      cols := new int[5](_ => 0);
      won := false;
      new;
      forall line: Line ensures Marks(numbers, |numbers|, line) == 0 {
        NoMarks(numbers, |numbers|, line);
      }
    }

    /** The source's `mark`. A number not on the board changes nothing; otherwise its first cell
        is marked and counted in its row and column, and when that row or column now has five
        marks the board scores the sum of its unmarked numbers times `num` and is cleared. */
    method Mark(num: Byte) returns (score: Option<nat>)
      requires Valid()
      modifies this, rows, cols
      ensures Valid()
      ensures old(won) ==> score.None? && numbers == [] && won
      ensures Position(old(numbers), num).None? ==>
        && score.None? && numbers == old(numbers) && won == old(won)
        && rows[..] == old(rows[..]) && cols[..] == old(cols[..])
      ensures Position(old(numbers), num).Some? ==>
        var i := Position(old(numbers), num).value;
        var marked := old(numbers)[i := None];
        var bingo := old(rows[i / 5]) + 1 == 5 || old(cols[i % 5]) + 1 == 5;
        && rows[..] == old(rows[..])[i / 5 := old(rows[i / 5]) + 1]
        && cols[..] == old(cols[..])[i % 5 := old(cols[i % 5]) + 1]
        && (bingo ==> score == Some(UnmarkedSum(marked) * num) && numbers == [] && won)
        && (!bingo ==> score.None? && numbers == marked && !won)
    {
      score := None;
      var index := Position(numbers, num);
      if index.Some? {
        var i := index.value;
        var row, col := i / 5, i % 5;
        var marked := numbers[i := None];
        forall line: Line ensures Marks(marked, |marked|, line) ==
          Marks(numbers, |numbers|, line) + (if OnLine(i, line) then 1 else 0)
        {
          MarkCounts(numbers, |numbers|, i, line);
        }
        numbers := marked;
        rows[row] := rows[row] + 1;
        cols[col] := cols[col] + 1;
        if rows[row] == 5 || cols[col] == 5 {
          score := Some(UnmarkedSum(numbers) * num);
          numbers := [];
          won := true;
        }
      }
    }
  }

  lemma {:induction false} NoMarks(numbers: seq<Option<Byte>>, n: nat, line: Line)
    requires n <= |numbers| && forall i :: 0 <= i < |numbers| ==> numbers[i].Some?
    ensures Marks(numbers, n, line) == 0
  {
    if n > 0 {
      NoMarks(numbers, n - 1, line);
    }
  }
}
