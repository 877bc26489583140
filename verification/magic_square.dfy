/** The magic-square generator and the integer field formatter of the
    magic-square example, as methods over a two-dimensional array that are
    proved to build exactly the squares `MagicSpec` describes. */
module MagicSquareExample {
  import opened MagicSpec
  import opened Decimal

  /** The magic square of order `n`. Odd and doubly-even orders are filled
      cell by cell from a formula; a singly-even order is assembled from four
      shifted copies of the square of order `n / 2`, after which cells are
      exchanged between the top and bottom halves. `depth` counts the nested
      calls `magic` makes on the way: the order `n / 2` of a singly-even
      square is odd, so the recursion stops after one level. */
  method Magic(n: nat) returns (M: array2<int>, ghost depth: nat)
    ensures fresh(M) && M.Length0 == n && M.Length1 == n
    ensures forall i, j :: 0 <= i < n && 0 <= j < n ==> M[i, j] == MagicEntry(n, i, j)
    ensures depth <= 1 && (depth == 1 <==> n % 4 == 2)
    decreases n
  {
    M := new int[n, n];
    depth := 0;
    if n % 2 == 1 {
      OddOrder(M, n);
    } else if n % 4 == 0 {
      DoublyEvenOrder(M, n);
    } else {
      SinglyEvenHalves(n);
      var p := n / 2;
      var A, d := Magic(p);
      depth := 1 + d;
      FillQuadrants(M, A, n);
      SwapHalves(M, n);
      forall i, j | 0 <= i < n && 0 <= j < n
        ensures M[i, j] == MagicEntry(n, i, j)
      {
        SinglyEvenEntry(n, i, j);
      }
    }
  }

  /** The odd-order loop: column by column, every cell gets its entry. */
  method OddOrder(M: array2<int>, n: nat)
    requires n % 2 == 1 && M.Length0 == n && M.Length1 == n
    modifies M
    ensures forall i, j :: 0 <= i < n && 0 <= j < n ==> M[i, j] == OddEntry(n, i, j)
  {
    var a := (n + 1) / 2;
    var b := n + 1;
    for j := 0 to n
      invariant forall i', j' :: 0 <= i' < n && 0 <= j' < j ==> M[i', j'] == OddEntry(n, i', j')
    {
      for i := 0 to n
        invariant forall i', j' :: 0 <= i' < n && 0 <= j' < j ==> M[i', j'] == OddEntry(n, i', j')
        invariant forall i' :: 0 <= i' < i ==> M[i', j] == OddEntry(n, i', j)
      {
        M[i, j] := n * ((i + j + a) % n) + ((i + 2 * j + b) % n) + 1;
      }
    }
  }

  /** The doubly-even loop: the high cells count down from `n*n`, the others
      count up from 1. */
  method DoublyEvenOrder(M: array2<int>, n: nat)
    requires n % 4 == 0 && M.Length0 == n && M.Length1 == n
    modifies M
    ensures forall i, j :: 0 <= i < n && 0 <= j < n ==> M[i, j] == DoublyEvenEntry(n, i, j)
  {
    for j := 0 to n
      invariant forall i', j' :: 0 <= i' < n && 0 <= j' < j ==> M[i', j'] == DoublyEvenEntry(n, i', j')
    {
      for i := 0 to n
        invariant forall i', j' :: 0 <= i' < n && 0 <= j' < j ==> M[i', j'] == DoublyEvenEntry(n, i', j')
        invariant forall i' :: 0 <= i' < i ==> M[i', j] == DoublyEvenEntry(n, i', j)
      {
        if ((i + 1) / 2) % 2 == ((j + 1) / 2) % 2 {
          M[i, j] := n * n - n * i - j;
        } else {
          M[i, j] := n * i + j + 1;
        }
      }
    }
  }

  /** The four quadrants of a singly-even square from the square `A` of order
      `p == n / 2`: `A` itself top left, `A + 2*p*p` top right, `A + 3*p*p`
      bottom left and `A + p*p` bottom right. */
  method FillQuadrants(M: array2<int>, A: array2<int>, n: nat)
    requires n % 4 == 2 && M.Length0 == n && M.Length1 == n && M != A
    requires A.Length0 == n / 2 && A.Length1 == n / 2
    requires forall i, j :: 0 <= i < n / 2 && 0 <= j < n / 2 ==> A[i, j] == MagicEntry(n / 2, i, j)
    modifies M
    ensures forall r, c :: 0 <= r < n && 0 <= c < n ==> M[r, c] == PreSwapEntry(n, r, c)
  {
    SinglyEvenHalves(n);
    var p := n / 2;
    for j := 0 to p
      invariant forall r, c :: 0 <= r < n && 0 <= c < n && Half(p, c) < j ==>
        M[r, c] == A[Half(p, r), Half(p, c)] + QuadrantOffset(p, r, c)
    {
      for i := 0 to p
        invariant forall r, c :: 0 <= r < n && 0 <= c < n && (Half(p, c) < j || (Half(p, c) == j && Half(p, r) < i)) ==>
          M[r, c] == A[Half(p, r), Half(p, c)] + QuadrantOffset(p, r, c)
      {
        FillCell(M, A, p, i, j);
      }
    }
  }

  /** The four cells that come from `A[i, j]`, one in each quadrant, get
      their values; every other cell keeps its own. */
  method FillCell(M: array2<int>, A: array2<int>, p: nat, i: nat, j: nat)
    requires M.Length0 == 2 * p && M.Length1 == 2 * p && A.Length0 == p && A.Length1 == p
    requires i < p && j < p && M != A
    modifies M
    ensures forall r, c :: 0 <= r < 2 * p && 0 <= c < 2 * p ==>
      M[r, c] == if Half(p, r) == i && Half(p, c) == j then A[i, j] + QuadrantOffset(p, r, c) else old(M[r, c])
  {
    var q := p * p;
    var aij := A[i, j];
    M[i, j] := aij;
    M[i, j + p] := aij + 2 * q;
    M[i + p, j] := aij + 3 * q;
    M[i + p, j + p] := aij + q;
  }

  /** The exchanges between the top and bottom halves of a singly-even
      square: in every top row the band of the first `k` and the last `k - 1`
      columns, then the cells at `(k, 0)` and `(k, k)` once more. */
  method SwapHalves(M: array2<int>, n: nat)
    requires n % 4 == 2 && M.Length0 == n && M.Length1 == n
    modifies M
    ensures forall r, c :: 0 <= r < n && 0 <= c < n ==> M[r, c] == old(M[SwapRow(n, r, c), c])
  {
    SinglyEvenHalves(n);
    var p := n / 2;
    var k := (n - 2) / 4;
    for i := 0 to p
      invariant forall r, c :: 0 <= r < n && 0 <= c < n ==>
        M[r, c] == old(M[BandRow(n, i, r, c), c])
    {
      ExchangeBand(M, n, i);
      forall r, c | 0 <= r < n && 0 <= c < n
        ensures M[r, c] == old(M[BandRow(n, i + 1, r, c), c])
      {
        BandRowStep(n, i, r, c);
      }
    }
    Exchange(M, p, k, 0);
    Exchange(M, p, k, k);
  }

  /** The band loops for top row `i`: every column of the band has its cells
      in rows `i` and `i + p` exchanged. */
  method ExchangeBand(M: array2<int>, n: nat, i: nat)
    requires n % 4 == 2 && M.Length0 == n && M.Length1 == n && i < n / 2
    modifies M
    ensures forall r, c :: 0 <= r < n && 0 <= c < n ==>
      M[r, c] == old(M[if Half(n / 2, r) == i && InSwapBand(n, c) then Partner(n / 2, r) else r, c])
  {
    SinglyEvenHalves(n);
    var p := n / 2;
    var k := (n - 2) / 4;
    for j := 0 to k
      invariant forall r, c :: 0 <= r < n && 0 <= c < n ==>
        M[r, c] == old(M[if Half(p, r) == i && c < j then Partner(p, r) else r, c])
    {
      Exchange(M, p, i, j);
    }
    var j := n - k + 1;
    while j < n
      invariant forall r, c :: 0 <= r < n && 0 <= c < n ==>
        M[r, c] == old(M[if Half(p, r) == i && (c < k || n - k + 1 <= c < j) then Partner(p, r) else r, c])
      decreases n - j
    {
      Exchange(M, p, i, j);
      j := j + 1;
    }
  }

  /** The cells in rows `i` and `i + p` of column `j` exchanged through a
      temporary; nothing else changes. */
  method Exchange(M: array2<int>, p: nat, i: nat, j: nat)
    requires M.Length0 == 2 * p && i < p && j < M.Length1
    modifies M
    ensures forall r, c :: 0 <= r < 2 * p && 0 <= c < M.Length1 ==>
      M[r, c] == old(M[if Half(p, r) == i && c == j then Partner(p, r) else r, c])
  {
    var t := M[i, j];
    M[i, j] := M[i + p, j];
    M[i + p, j] := t;
  }

  /** The row whose original value sits in row `r`, column `c` once the band
      exchanges of the first `i` top rows are done. */
  function BandRow(n: nat, i: nat, r: nat, c: nat): (s: nat)
    requires n % 4 == 2 && r < n
    ensures s < n
  {
    SinglyEvenHalves(n);
    var p := n / 2;
    if Half(p, r) < i && InSwapBand(n, c) then Partner(p, r) else r
  }

  /** The band exchanges of top row `i` followed by those of the earlier rows
      are those of the first `i + 1` rows. */
  lemma BandRowStep(n: nat, i: nat, r: nat, c: nat)
    requires n % 4 == 2 && i < n / 2 && r < n
    ensures var p := n / 2;
      var s := if Half(p, r) == i && InSwapBand(n, c) then Partner(p, r) else r;
      s < n && BandRow(n, i, s, c) == BandRow(n, i + 1, r, c)
  {
    SinglyEvenHalves(n);
  }

  /** `Integer.toString(n)` right-aligned in a field of width `w`. */
  method FixedWidthIntegerToString(n: int, w: int) returns (s: string)
    ensures s == PadLeft(IntToString(n), w)
    ensures |s| == if |IntToString(n)| >= w then |IntToString(n)| else w
  {
    var d := IntToString(n);
    s := d;
    while |s| < w
      invariant |s| >= |d| && s == Spaces(|s| - |d|) + d
      invariant |s| > |d| ==> |s| <= w
      decreases w - |s|
    {
      s := " " + s;
      assert s == Spaces(|s| - |d|) + d;
    }
  }
}
