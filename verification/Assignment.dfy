/** The contract of the linear-sum-assignment solver the metrics call. The solver
    itself is foreign: it appears as a function parameter about which only
    optimality is known, so every theorem holds for whichever optimum it returns. */
module Assignment {
  import opened Wrappers
  import opened Sums

  type Matrix = seq<seq<int>>

  /** One matched row and column. */
  datatype Pair = Pair(row: nat, column: nat)

  type Pairs = set<Pair>

  ghost predicate Shape(m: Matrix, rows: nat, columns: nat) {
    |m| == rows && forall r :: 0 <= r < rows ==> |m[r]| == columns
  }

  /** No row or column twice, and as many pairs as the smaller side. */
  ghost predicate IsAssignment(p: Pairs, rows: nat, columns: nat) {
    && (forall x :: x in p ==> x.row < rows && x.column < columns)
    && (forall x, y :: x in p && y in p && (x.row == y.row || x.column == y.column) ==> x == y)
    && |p| == Min(rows, columns)
  }

  ghost function Entry(m: Matrix): Pair -> int {
    (x: Pair) => if x.row < |m| && x.column < |m[x.row]| then m[x.row][x.column] else 0
  }

  ghost function Cost(m: Matrix, p: Pairs): int { SumOver(p, Entry(m)) }

  ghost predicate IsOptimal(m: Matrix, rows: nat, columns: nat, p: Pairs) {
    && IsAssignment(p, rows, columns)
    && forall q :: IsAssignment(q, rows, columns) ==> Cost(m, p) <= Cost(m, q)
  }

  ghost function PairSet(s: seq<Pair>): Pairs { set x | x in s }

  ghost predicate Distinct<T>(s: seq<T>) {
    forall i, j :: 0 <= i < j < |s| ==> s[i] != s[j]
  }

  /** What the solver promises: the row and column index arrays, zipped, list the
      pairs of one cheapest assignment, each pair once. */
  ghost predicate Solves(solve: (Matrix, nat, nat) -> seq<Pair>) {
    forall m, rows, columns :: Shape(m, rows, columns) ==>
      var s := solve(m, rows, columns);
      Distinct(s) && IsOptimal(m, rows, columns, PairSet(s))
  }
}
