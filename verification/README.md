# Magic squares of the fjama examples, in Dafny

This project models the magic-square generator `magic(int n)` of fjama's
`MagicSquareExample`, together with its integer field formatter
`fixedWidthIntegertoString(int n, int w)`. fjama is a dense single-precision
matrix library, and `magic` builds the test matrices of its example. It fills an
`n`×`n` array according to the kind of order:

- **Odd order:** a closed modular formula.
- **Doubly-even order** (a multiple of 4): a parity pattern in which some
  cells count down from `n*n` and the rest count up from 1.
- **Singly-even order** (2 mod 4): four shifted copies of the square of
  order `p = n/2`. Cells are then exchanged between the top and bottom halves
  in a band of columns. Two more cells are exchanged at `(k, 0)` and `(k, k)`,
  where `k = (n-2)/4`.

The project has four modules:

- **`MagicSpec`** (`magic_spec.dfy`) describes each entry of the result as a
  function of `n`, `i` and `j` (`MagicEntry`). It proves what those entries
  satisfy:
  - every entry lies in `1..n*n`;
  - odd and doubly-even squares are centrally symmetric;
  - the swap phase only exchanges a cell with the one `p` rows below it, so
    every column keeps its multiset of values;
  - the trace is the magic sum `(n^3 + n)/2` for every order except 2, as the
    driver's comment promises.
- **`MagicSquareExample`** (`magic_square.dfy`) is the imperative method
  `Magic`. It has the source's loops over an `array2<int>`, its recursive call
  and its in-place swaps through a temporary. It is proved to build exactly the
  square `MagicEntry` describes, with a recursion one level deep. The same
  module holds `FixedWidthIntegerToString` and its `while` loop.
- **`Decimal`** (`decimal.dfy`) models `Integer.toString` as `IntToString`,
  with its parser and the round trip. It also defines left padding
  (`PadLeft`) and proves that a padded field reads back as its integer.
- **`SeqLemmas`** (`seq_lemmas.dfy`) holds range sums and multiset facts
  about sequences, used by the trace and column proofs.

Rows and columns are numbered from 0, as in the Java code. All the cited lines
are in `MagicSquareExample.java`, whose full path is in the table.

## Model

| member | source | states |
|---|---|---|
| `MagicSquareExample.Magic` | src/main/java/com/github/sikoried/fjama/examples/MagicSquareExample.java:11-66 | For every order `n >= 0`, returns a fresh `n`×`n` array whose cell `(i, j)` is `MagicEntry(n, i, j)`. The single recursive call is on `n/2 < n`, so it terminates. The ghost `depth` of nested calls is at most 1, and it is 1 exactly when `n ≡ 2 (mod 4)`, because the order `n/2` of that call is odd. |
| `MagicSquareExample.OddOrder` | src/main/java/com/github/sikoried/fjama/examples/MagicSquareExample.java:17-24 | After the column-by-column loops, every cell of an odd-order square holds `n*((i+j+a) % n) + ((i+2j+b) % n) + 1`, with `a = (n+1)/2` and `b = n+1`. |
| `MagicSquareExample.DoublyEvenOrder` | src/main/java/com/github/sikoried/fjama/examples/MagicSquareExample.java:28-37 | After the loops, a cell whose row and column fall in the same class of the `((x+1)/2) % 2` pattern holds `n*n - n*i - j`. Every other cell holds `n*i + j + 1`. |
| `MagicSquareExample.FillQuadrants` | src/main/java/com/github/sikoried/fjama/examples/MagicSquareExample.java:45-53 | Given `A = magic(p)`, after the fill loops every cell `(r, c)` holds `A` at `(r mod p, c mod p)` plus its quadrant's offset: 0 top left, `2p²` top right, `3p²` bottom left and `p²` bottom right (`PreSwapEntry`). |
| `MagicSquareExample.FillCell` | src/main/java/com/github/sikoried/fjama/examples/MagicSquareExample.java:47-51 | One pass of the inner loop sets the four cells that come from `A[i][j]`, one per quadrant, to `A[i][j]` plus that quadrant's offset. Every other cell keeps its value. |
| `MagicSquareExample.SwapHalves` | src/main/java/com/github/sikoried/fjama/examples/MagicSquareExample.java:54-63 | After the band loops and the two fixed swaps, each cell `(r, c)` holds the value that was before in row `SwapRow(n, r, c)` of the same column. |
| `MagicSquareExample.ExchangeBand` | src/main/java/com/github/sikoried/fjama/examples/MagicSquareExample.java:55-60 | The two inner loops for top row `i` exchange rows `i` and `i+p` in exactly the columns `c < k` and `c >= n-k+1`. This holds even when `n-k+1 > n`. Every other cell keeps its value. |
| `MagicSquareExample.Exchange` | src/main/java/com/github/sikoried/fjama/examples/MagicSquareExample.java:56 | A swap through a temporary exchanges `M[i][j]` and `M[i+p][j]`. Nothing else changes. |
| `MagicSquareExample.BandRow` | src/main/java/com/github/sikoried/fjama/examples/MagicSquareExample.java:54-61 | After the band exchanges of the first `i` top rows, the value in `(r, c)` comes from a row inside the square. |
| `MagicSquareExample.BandRowStep` | src/main/java/com/github/sikoried/fjama/examples/MagicSquareExample.java:54-61 | Doing the band exchanges of row `i` after those of the rows before it gives the band exchanges of the first `i+1` rows. |
| `MagicSquareExample.FixedWidthIntegerToString` | src/main/java/com/github/sikoried/fjama/examples/MagicSquareExample.java:90-96 | Returns `Integer.toString(n)` with blanks added in front up to width `w`. Its length is `max(w, len)`, where `len` is the length of the decimal text. |
| `MagicSpec.MagicEntry` | src/main/java/com/github/sikoried/fjama/examples/MagicSquareExample.java:11-66 | The entry `(i, j)` of `magic(n)`. It is the odd formula for odd `n` and the doubly-even formula for multiples of 4. For `n ≡ 2 (mod 4)` it is the pre-swap entry of row `SwapRow(n, i, j)` in the same column. |
| `MagicSpec.OddEntry` | src/main/java/com/github/sikoried/fjama/examples/MagicSquareExample.java:18-22 | The odd-order entry `n*((i+j+a) % n) + ((i+2j+b) % n) + 1`, with `a = (n+1)/2` and `b = n+1`. |
| `MagicSpec.HighCell` | src/main/java/com/github/sikoried/fjama/examples/MagicSquareExample.java:31 | The test `((i+1)/2) % 2 == ((j+1)/2) % 2` that picks the count-down cells. |
| `MagicSpec.DoublyEvenEntry` | src/main/java/com/github/sikoried/fjama/examples/MagicSquareExample.java:31-35 | The doubly-even entry: `n*n - n*i - j` on the count-down cells, and `n*i + j + 1` on the others. |
| `MagicSpec.QuadrantOffset` | src/main/java/com/github/sikoried/fjama/examples/MagicSquareExample.java:48-51 | What the fill adds to `A[i][j]` in each quadrant: 0 top left, `2p²` top right, `3p²` bottom left and `p²` bottom right. |
| `MagicSpec.PreSwapEntry` | src/main/java/com/github/sikoried/fjama/examples/MagicSquareExample.java:45-53 | The entry of a singly-even square after the fill loops and before any swap. It is the odd-order entry of `magic(p)` at the position within the quadrant, plus the quadrant's offset. |
| `MagicSpec.InSwapBand` | src/main/java/com/github/sikoried/fjama/examples/MagicSquareExample.java:55-58 | The columns the band loops visit: `c < k` or `c >= n-k+1`. |
| `MagicSpec.Swapped` | src/main/java/com/github/sikoried/fjama/examples/MagicSquareExample.java:54-63 | Whether top-row cell `(i, c)` ends up exchanged with the cell `p` rows below. It is exchanged once for each swap that names it: the band loops, then the fixed swaps at `(k, 0)` and `(k, k)`. An even number of swaps leaves it in place. |
| `Decimal.PadLeft` | src/main/java/com/github/sikoried/fjama/examples/MagicSquareExample.java:92-94 | The text with blanks added in front until it is `w` long. A text already `w` long or longer is returned unchanged. |
| `MagicSpec.MagicEntryRange` | src/main/java/com/github/sikoried/fjama/examples/MagicSquareExample.java:17-64 | Every entry of `magic(n)` lies in `1..n*n`, for all three kinds of order. |
| `MagicSpec.OddEntryRange` | src/main/java/com/github/sikoried/fjama/examples/MagicSquareExample.java:22 | The odd-order formula gives a value in `1..n*n`. |
| `MagicSpec.DoublyEvenEntryRange` | src/main/java/com/github/sikoried/fjama/examples/MagicSquareExample.java:31-35 | Both doubly-even formulas give a value in `1..n*n`. |
| `MagicSpec.PreSwapEntryRange` | src/main/java/com/github/sikoried/fjama/examples/MagicSquareExample.java:47-51 | Before the swaps, every singly-even entry (an order-`p` entry plus an offset of at most `3p²`) lies in `1..n*n`. |
| `MagicSpec.SinglyEvenHalves` | src/main/java/com/github/sikoried/fjama/examples/MagicSquareExample.java:42-43 | For `n ≡ 2 (mod 4)`: `n = 2p` and `p = 2k+1`, so the recursive call's order `p` is odd. |
| `MagicSpec.SwapRow` | src/main/java/com/github/sikoried/fjama/examples/MagicSquareExample.java:54-63 | The row a swapped-in value comes from is a row of the square. |
| `MagicSpec.SwapExchangesPair` | src/main/java/com/github/sikoried/fjama/examples/MagicSquareExample.java:54-63 | For each top row `i` and column `c`, the final values in rows `i` and `i+p` are either both the pre-swap values of their own rows, or the two values exchanged. |
| `MagicSpec.SwapPattern` | src/main/java/com/github/sikoried/fjama/examples/MagicSquareExample.java:54-63 | The cells that end up exchanged are the band columns in every top row except `k`. In row `k` (when `k > 0`) they are the band without column 0, plus column `k`. Columns strictly between `k` and `n-k+1` keep their pre-swap values. |
| `MagicSpec.SwapPhaseKeepsColumn` | src/main/java/com/github/sikoried/fjama/examples/MagicSquareExample.java:54-63 | After the swap phase, every column holds the same multiset of values as before it. |
| `MagicSpec.OddCentralSymmetry` | src/main/java/com/github/sikoried/fjama/examples/MagicSquareExample.java:22 | In an odd square, cells placed symmetrically about the centre add up to `n*n + 1`. |
| `MagicSpec.HighCellMirror` | src/main/java/com/github/sikoried/fjama/examples/MagicSquareExample.java:31 | The pattern of count-down cells is symmetric about the centre when `n` is a multiple of 4. |
| `MagicSpec.MirrorParity` | src/main/java/com/github/sikoried/fjama/examples/MagicSquareExample.java:31 | When `n` is a multiple of 4, an index and its mirror `n-1-i` give the same `((x+1)/2) % 2`. |
| `MagicSpec.DoublyEvenCentralSymmetry` | src/main/java/com/github/sikoried/fjama/examples/MagicSquareExample.java:31-35 | In a doubly-even square, cells placed symmetrically about the centre add up to `n*n + 1`. |
| `MagicSpec.CentralSymmetry` | src/main/java/com/github/sikoried/fjama/examples/MagicSquareExample.java:17-37 | `magic(n)` is centrally symmetric for odd and doubly-even orders. |
| `MagicSpec.Diagonal` | src/main/java/com/github/sikoried/fjama/examples/MagicSquareExample.java:125 | The main diagonal of `magic(n)` has `n` cells. |
| `MagicSpec.DiagonalPrefix` | src/main/java/com/github/sikoried/fjama/examples/MagicSquareExample.java:125 | The first `m` diagonal cells form a sequence of length `m`. |
| `MagicSpec.DiagonalPrefixAt` | src/main/java/com/github/sikoried/fjama/examples/MagicSquareExample.java:125 | Cell `i` of a diagonal prefix is entry `(i, i)`. |
| `MagicSpec.DiagonalAt` | src/main/java/com/github/sikoried/fjama/examples/MagicSquareExample.java:125 | Cell `i` of the diagonal is entry `(i, i)`. |
| `MagicSpec.MirroredTrace` | src/main/java/com/github/sikoried/fjama/examples/MagicSquareExample.java:105 | For odd and doubly-even orders, twice the trace is `n(n²+1)`. |
| `MagicSpec.DiagonalSwapRow` | src/main/java/com/github/sikoried/fjama/examples/MagicSquareExample.java:54-63 | For singly-even orders of at least 6: diagonal cells in rows `0..k` take their value from `p` rows below, rows `k+1..p+k+1` keep their own, and the last `k-1` rows take theirs from `p` rows above. |
| `MagicSpec.DiagonalSource` | src/main/java/com/github/sikoried/fjama/examples/MagicSquareExample.java:45-63 | A singly-even diagonal cell comes from the same position within its half. It comes from the quadrant whose offset is `DiagonalOffset`. |
| `MagicSpec.SinglyEvenDiagonalEntry` | src/main/java/com/github/sikoried/fjama/examples/MagicSquareExample.java:44-63 | Diagonal cell `i` of a singly-even square is diagonal cell `i mod p` of `magic(p)` plus `3p²`, 0, `p²` or `2p²`, depending on its run. |
| `MagicSpec.SinglyEvenDiagonalCell` | src/main/java/com/github/sikoried/fjama/examples/MagicSquareExample.java:44-63 | The same fact, stated on the two diagonal sequences. |
| `MagicSpec.SinglyEvenDiagonal` | src/main/java/com/github/sikoried/fjama/examples/MagicSquareExample.java:44-63 | The singly-even diagonal is four runs of the diagonal of `magic(p)`, each shifted by one quadrant offset. |
| `MagicSpec.SinglyEvenRuns` | src/main/java/com/github/sikoried/fjama/examples/MagicSquareExample.java:44-63 | For singly-even orders of at least 6, the trace of `magic(n)` is twice the trace of `magic(p)` plus `3p³`. |
| `MagicSpec.SinglyEvenTrace` | src/main/java/com/github/sikoried/fjama/examples/MagicSquareExample.java:105 | For singly-even orders of at least 6, twice the trace is `n(n²+1)`. |
| `MagicSpec.MagicTrace` | src/main/java/com/github/sikoried/fjama/examples/MagicSquareExample.java:105 | For every order except 2, the trace of `magic(n)` is the magic sum `(n³+n)/2`. |
| `MagicSpec.OrderTwoSquare` | src/main/java/com/github/sikoried/fjama/examples/MagicSquareExample.java:41-63 | `magic(2)` is `[[1, 3], [4, 2]]`. Each of its entries equals its pre-swap entry, because with `k = 0` the band is empty and the two fixed swaps both hit `(0, 0)` and undo each other. Its trace 3 is not the magic sum 5. |
| `Decimal.NatToString` | src/main/java/com/github/sikoried/fjama/examples/MagicSquareExample.java:91 | The decimal text of a natural number is non-empty and made only of digits. |
| `Decimal.IntToString` | src/main/java/com/github/sikoried/fjama/examples/MagicSquareExample.java:91 | `Integer.toString(n)` is non-empty. |
| `Decimal.NatRoundTrip` | src/main/java/com/github/sikoried/fjama/examples/MagicSquareExample.java:91 | Reading back the digits of `n` gives `n`. |
| `Decimal.NoLeadingZero` | src/main/java/com/github/sikoried/fjama/examples/MagicSquareExample.java:91 | The digits start with `0` only for zero. |
| `Decimal.IntRoundTrip` | src/main/java/com/github/sikoried/fjama/examples/MagicSquareExample.java:91 | `Integer.toString(n)` is well-formed decimal text, and parsing it gives `n`. |
| `Decimal.IntTextSign` | src/main/java/com/github/sikoried/fjama/examples/MagicSquareExample.java:91 | The text starts with `-` exactly when `n < 0`, and never with a blank. |
| `Decimal.PadLeftShape` | src/main/java/com/github/sikoried/fjama/examples/MagicSquareExample.java:92-94 | The padded field has length `max(w, len)`, where `len` is the length of the text. It ends with the text, and everything in front of the text is blank. A text already `w` long is unchanged. |
| `Decimal.TrimPadLeft` | src/main/java/com/github/sikoried/fjama/examples/MagicSquareExample.java:92-94 | Removing the leading blanks of a padded text that does not itself start with a blank gives the text back. |
| `Decimal.FixedWidthRoundTrip` | src/main/java/com/github/sikoried/fjama/examples/MagicSquareExample.java:90-96 | A fixed-width integer field, with its leading blanks removed, reads back as the integer it was made from. |

## Left out

- `main` (lines 99-162) is left out. It is a timing and printing driver: it uses `Date` and `System.out`, and it calls the eigenvalue, SVD, LU and QR decompositions. Only the trace figure it prints (line 125, described at line 105) is modelled, as `MagicSpec.MagicTrace`.
- `fixedWidthFloattoString` (lines 76-86) and the `print` helper (lines 70-72) are left out. The first formats through `java.text.DecimalFormat`, which is not part of this model. The second only writes to standard output.
- The `Matrix` class, which `magic` returns its array through at line 65, is not part of this model. The result is the array itself, and `A.get(i, j)` is read as `A[i, j]`.
- `MagicSquareExample.Magic` stores entries as `int`; the source stores them in a `float[][]`. A float holds every integer up to 2^24 exactly. So the entries, which are at most `n*n`, are exact for orders up to 4096. Larger orders would round in the source and are not modelled.
- `MagicSquareExample.Magic` uses unbounded integers. The source computes `n*n`, `n*i` and `2*p*p` in 32-bit `int`, which wraps around only for orders well beyond the float limit above.
- `MagicSquareExample.Magic` takes its order as a `nat`. The source throws `NegativeArraySizeException` at line 13 for a negative `n`, and that error path is not modelled.
- `Decimal.IntToString` is defined over all integers, not only 32-bit ones. It agrees with `Integer.toString` on the 32-bit range.
- Row sums, column sums and the anti-diagonal sum of `magic(n)` are not proved. Only the trace is, because it is the property the source states.
