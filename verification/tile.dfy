/** The matrix transpose kernels: an N×N matrix stored row-major in a flat
    buffer is copied into a second buffer with rows and columns swapped, either
    row by row or tile by tile.

    Buffers are sequences passed by value. The contents of the output buffer
    before the call are the argument `prior`; the kernel returns the buffer as
    it is afterwards. The input is therefore never written, and the two buffers
    can never alias, as they never do in the program, which allocates them
    separately. Elements are only copied, so their type is a parameter. */
module Tile {

  /** Flat position of cell (row, col) in a row-major matrix with n columns. */
  function Index(row: int, col: int, n: int): int
  {
    row * n + col
  }

  lemma MulMono(a: int, b: int, n: int)
    requires a <= b && 0 <= n
    ensures a * n <= b * n
  {
    assert b * n - a * n == (b - a) * n;
  }

  /** Every cell of an n×n matrix lies inside the first n*n slots. */
  lemma IndexBounds(n: nat)
    ensures forall row, col :: 0 <= row < n && 0 <= col < n ==> 0 <= Index(row, col, n) < n * n
  {
    forall row, col | 0 <= row < n && 0 <= col < n
      ensures 0 <= Index(row, col, n) < n * n
    {
      MulMono(0, row, n);
      MulMono(row, n - 1, n);
    }
  }

  /** Distinct cells occupy distinct slots. */
  lemma IndexInjective(n: nat)
    ensures forall r1, c1, r2, c2 ::
      0 <= r1 && 0 <= c1 < n && 0 <= r2 && 0 <= c2 < n && Index(r1, c1, n) == Index(r2, c2, n)
      ==> r1 == r2 && c1 == c2
  {
    forall r1, c1, r2, c2 |
      0 <= r1 && 0 <= c1 < n && 0 <= r2 && 0 <= c2 < n && Index(r1, c1, n) == Index(r2, c2, n)
      ensures r1 == r2 && c1 == c2
    {
      if r1 < r2 {
        MulMono(r1 + 1, r2, n);
      } else if r2 < r1 {
        MulMono(r2 + 1, r1, n);
      }
    }
  }

  /** Every one of the first n*n slots holds a cell: slot k is row k / n, column k % n. */
  lemma IndexCovers(k: int, n: nat)
    requires 0 <= k < n * n
    ensures 0 <= k / n < n && 0 <= k % n < n
    ensures Index(k / n, k % n, n) == k
  {
    if n <= k / n {
      MulMono(n, k / n, n);
    }
  }

  /** `output` is the buffer `prior` after the transpose of the n×n matrix in
      `input` was written into it: cell (c, r) of the output holds cell (r, c)
      of the input, and every slot from n*n on is left as it was. */
  ghost predicate IsTransposeOf<T>(output: seq<T>, input: seq<T>, prior: seq<T>, n: nat)
    requires |input| >= n * n && |prior| >= n * n
  {
    IndexBounds(n);
    && |output| == |prior|
    && (forall r, c :: 0 <= r < n && 0 <= c < n ==> output[Index(c, r, n)] == input[Index(r, c, n)])
    && (forall k :: n * n <= k < |output| ==> output[k] == prior[k])
  }

  /** Reference definition of the transposed buffer, slot by slot: slot k below
      n*n is row k / n, column k % n of the output, which is read from row k % n,
      column k / n of the input. */
  function TransposeOf<T>(input: seq<T>, prior: seq<T>, n: nat): (output: seq<T>)
    requires |input| >= n * n && |prior| >= n * n
  {
    seq(|prior|, k requires 0 <= k < |prior| =>
      if k < n * n then
        IndexCovers(k, n);
        IndexBounds(n);
        input[Index(k % n, k / n, n)]
      else
        prior[k])
  }

  /** The cell-wise description determines the buffer, and the reference
      definition meets it: any two transposes of the same input into the same
      buffer agree. */
  lemma TransposeOfIsUnique<T>(output: seq<T>, input: seq<T>, prior: seq<T>, n: nat)
    requires |input| >= n * n && |prior| >= n * n
    ensures IsTransposeOf(output, input, prior, n) <==> output == TransposeOf(input, prior, n)
  {
    var t := TransposeOf(input, prior, n);
    IndexBounds(n);
    IndexInjective(n);
    forall r, c | 0 <= r < n && 0 <= c < n
      ensures t[Index(c, r, n)] == input[Index(r, c, n)]
    {
      var k := Index(c, r, n);
      IndexCovers(k, n);
    }
    assert IsTransposeOf(t, input, prior, n);
    if IsTransposeOf(output, input, prior, n) {
      forall k | 0 <= k < |output|
        ensures output[k] == t[k]
      {
        if k < n * n {
          IndexCovers(k, n);
          assert output[Index(k / n, k % n, n)] == input[Index(k % n, k / n, n)];
        }
      }
    }
  }

  /** Whether the blocked traversal has already copied input cell (r, c) when it
      is about to copy cell (i, j) of the tile whose top-left corner is (ii, jj):
      all tile rows above, the tiles to the left in this tile row, the rows of
      this tile above row i, and row i of this tile left of column j. */
  ghost predicate BlockedDone(r: int, c: int, ii: int, jj: int, i: int, j: int, B: int)
  {
    || r < ii
    || (ii <= r < ii + B && c < jj)
    || (ii <= r < i && jj <= c < jj + B)
    || (r == i && jj <= c < j)
  }

  /** The output buffer holds the transposed cell for every input cell already
      copied and its prior contents everywhere else. */
  ghost predicate CopiedSoFar<T>(output: seq<T>, input: seq<T>, prior: seq<T>, n: nat,
                                 ii: int, jj: int, i: int, j: int, B: int)
    requires |input| >= n * n && |prior| >= n * n
  {
    IndexBounds(n);
    && |output| == |prior|
    && (forall r, c :: 0 <= r < n && 0 <= c < n ==>
          output[Index(c, r, n)] ==
            if BlockedDone(r, c, ii, jj, i, j, B) then input[Index(r, c, n)] else prior[Index(c, r, n)])
    && (forall k :: n * n <= k < |output| ==> output[k] == prior[k])
  }

  predicate InSquare(p: (int, int), n: int)
  {
    0 <= p.0 < n && 0 <= p.1 < n
  }

  predicate NoRepeats<X(==)>(s: seq<X>)
  {
    forall a, b :: 0 <= a < b < |s| ==> s[a] != s[b]
  }

  /** The cells visited so far are exactly the cells already copied, each once. */
  ghost predicate VisitedSoFar(visits: seq<(int, int)>, n: nat, ii: int, jj: int, i: int, j: int, B: int)
  {
    && (forall k :: 0 <= k < |visits| ==>
          InSquare(visits[k], n) && BlockedDone(visits[k].0, visits[k].1, ii, jj, i, j, B))
    && (forall r, c :: 0 <= r < n && 0 <= c < n && BlockedDone(r, c, ii, jj, i, j, B) ==> (r, c) in visits)
    && NoRepeats(visits)
  }

  /** One copy `output[j * N + i] = input[i * N + j]`. */
  lemma CopyCell<T>(output: seq<T>, input: seq<T>, prior: seq<T>, n: nat,
                    ii: int, jj: int, i: int, j: int, B: int)
    requires |input| >= n * n && |prior| >= n * n
    requires 0 <= ii <= i < ii + B && i < n && 0 <= jj <= j < jj + B && j < n
    requires CopiedSoFar(output, input, prior, n, ii, jj, i, j, B)
    ensures 0 <= Index(j, i, n) < |output| && 0 <= Index(i, j, n) < |input|
    ensures CopiedSoFar(output[Index(j, i, n) := input[Index(i, j, n)]], input, prior, n, ii, jj, i, j + 1, B)
  {
    IndexBounds(n);
    IndexInjective(n);
  }

  /** `transpose`: copy row by row, so that output[j*N + i] == input[i*N + j]
      for all i, j below N, and nothing from slot N*N on is written. */
  method Transpose<T>(input: seq<T>, prior: seq<T>, N: nat) returns (output: seq<T>)
    requires |input| >= N * N && |prior| >= N * N
    ensures IsTransposeOf(output, input, prior, N)
    ensures output == TransposeOf(input, prior, N)
  {
    output := prior;
    var i := 0;
    while i < N
      invariant 0 <= i <= N
      invariant CopiedSoFar(output, input, prior, N, 0, 0, i, 0, N)
    {
      var j := 0;
      while j < N
        invariant 0 <= j <= N
        invariant CopiedSoFar(output, input, prior, N, 0, 0, i, j, N)
      {
        CopyCell(output, input, prior, N, 0, 0, i, j, N);
        output := output[Index(j, i, N) := input[Index(i, j, N)]];
        j := j + 1;
      }
      i := i + 1;
    }
    TransposeOfIsUnique(output, input, prior, N);
  }

  /** Row i of the tile at (ii, jj) of `blocked_transpose`: the columns from
      jj, at most B of them, clipped at N. */
  method CopyTileRow<T>(output0: seq<T>, input: seq<T>, prior: seq<T>, N: nat, ii: int, jj: int, i: int, B: int,
                        ghost visits0: seq<(int, int)>)
    returns (output: seq<T>, ghost visits: seq<(int, int)>)
    requires |input| >= N * N && |prior| >= N * N
    requires 0 <= ii <= i < ii + B && i < N && 0 <= jj < N
    requires CopiedSoFar(output0, input, prior, N, ii, jj, i, jj, B)
    requires VisitedSoFar(visits0, N, ii, jj, i, jj, B)
    ensures CopiedSoFar(output, input, prior, N, ii, jj, i + 1, jj, B)
    ensures VisitedSoFar(visits, N, ii, jj, i + 1, jj, B)
  {
    output := output0;
    visits := visits0;
    var j := jj;
    while j < jj + B && j < N
      invariant jj <= j <= jj + B && j <= N
      invariant CopiedSoFar(output, input, prior, N, ii, jj, i, j, B)
      invariant VisitedSoFar(visits, N, ii, jj, i, j, B)
      decreases N - j
    {
      CopyCell(output, input, prior, N, ii, jj, i, j, B);
      output := output[Index(j, i, N) := input[Index(i, j, N)]];
      visits := visits + [(i, j)];
      j := j + 1;
    }
  }

  /** One tile of `blocked_transpose`: the rows from ii and the columns from
      jj, at most B of each, clipped at N. Afterwards the tile counts as copied,
      as do the tiles before it, and each of its cells was visited once. */
  method CopyTile<T>(output0: seq<T>, input: seq<T>, prior: seq<T>, N: nat, ii: int, jj: int, B: int,
                     ghost visits0: seq<(int, int)>)
    returns (output: seq<T>, ghost visits: seq<(int, int)>)
    requires |input| >= N * N && |prior| >= N * N
    requires 0 <= ii < N && 0 <= jj < N && B > 0
    requires CopiedSoFar(output0, input, prior, N, ii, jj, ii, jj, B)
    requires VisitedSoFar(visits0, N, ii, jj, ii, jj, B)
    ensures CopiedSoFar(output, input, prior, N, ii, jj + B, ii, jj + B, B)
    ensures VisitedSoFar(visits, N, ii, jj + B, ii, jj + B, B)
  {
    output := output0;
    visits := visits0;
    var i := ii;
    while i < ii + B && i < N
      invariant ii <= i <= ii + B && i <= N
      invariant CopiedSoFar(output, input, prior, N, ii, jj, i, jj, B)
      invariant VisitedSoFar(visits, N, ii, jj, i, jj, B)
      decreases N - i
    {
      output, visits := CopyTileRow(output, input, prior, N, ii, jj, i, B, visits);
      i := i + 1;
    }
  }

  /** `blocked_transpose`: walk B×B tiles, clipping the last tile of each row
      and column at N. It computes exactly what `Transpose` computes, for every
      block size, whether or not B divides N; the ghost trace `visits` records
      the copied cells in order and shows each cell of the matrix is copied
      exactly once. The tile loops only end when B is positive or when the
      matrix is empty. */
  method BlockedTranspose<T>(input: seq<T>, prior: seq<T>, N: nat, B: int)
    returns (output: seq<T>, ghost visits: seq<(int, int)>)
    requires |input| >= N * N && |prior| >= N * N
    requires B > 0 || N == 0
    ensures IsTransposeOf(output, input, prior, N)
    ensures output == TransposeOf(input, prior, N)
    ensures forall k :: 0 <= k < |visits| ==> InSquare(visits[k], N)
    ensures forall r, c :: 0 <= r < N && 0 <= c < N ==> (r, c) in visits
    ensures NoRepeats(visits)
  {
    output := prior;
    visits := [];
    var ii := 0;
    while ii < N
      invariant 0 <= ii
      invariant CopiedSoFar(output, input, prior, N, ii, 0, ii, 0, B)
      invariant VisitedSoFar(visits, N, ii, 0, ii, 0, B)
      decreases N - ii
    {
      var jj := 0;
      while jj < N
        invariant 0 <= jj
        invariant CopiedSoFar(output, input, prior, N, ii, jj, ii, jj, B)
        invariant VisitedSoFar(visits, N, ii, jj, ii, jj, B)
        decreases N - jj
      {
        output, visits := CopyTile(output, input, prior, N, ii, jj, B, visits);
        jj := jj + B;
      }
      ii := ii + B;
    }
    TransposeOfIsUnique(output, input, prior, N);
  }

  /** The blocked kernel and the plain kernel leave the same buffer behind,
      whatever the positive block size. */
  method BlockedMatchesPlain<T>(input: seq<T>, prior: seq<T>, N: nat, B: int)
    returns (plain: seq<T>, blocked: seq<T>)
    requires |input| >= N * N && |prior| >= N * N
    requires B > 0
    ensures plain == blocked
  {
    plain := Transpose(input, prior, N);
    ghost var visits;
    blocked, visits := BlockedTranspose(input, prior, N, B);
  }

  /** The input set-up of `main`: cell (i, j) holds its own flat index i*N + j.
      `prior` stands for the freshly allocated, unset buffer. */
  method InitInput(N: nat, prior: seq<int>) returns (input: seq<int>)
    requires |prior| == N * N
    ensures |input| == N * N
    ensures forall k :: 0 <= k < N * N ==> input[k] == k
  {
    IndexBounds(N);
    IndexInjective(N);
    input := prior;
    var i := 0;
    while i < N
      invariant 0 <= i <= N
      invariant |input| == N * N
      invariant forall r, c :: 0 <= r < i && 0 <= c < N ==> input[Index(r, c, N)] == Index(r, c, N)
    {
      var j := 0;
      while j < N
        invariant 0 <= j <= N
        invariant |input| == N * N
        invariant forall r, c :: 0 <= r < N && 0 <= c < N && (r < i || (r == i && c < j)) ==>
          input[Index(r, c, N)] == Index(r, c, N)
      {
        input := input[Index(i, j, N) := Index(i, j, N)];
        j := j + 1;
      }
      i := i + 1;
    }
    forall k | 0 <= k < N * N
      ensures input[k] == k
    {
      IndexCovers(k, N);
    }
  }

  /** With the input of `main`, the transposed buffer holds at slot k the flat
      index of the mirror cell: row k % N, column k / N. */
  lemma TransposedInitInput(input: seq<int>, prior: seq<int>, N: nat)
    requires |input| == N * N && |prior| >= N * N
    requires forall k :: 0 <= k < N * N ==> input[k] == k
    ensures forall k :: 0 <= k < N * N ==> TransposeOf(input, prior, N)[k] == Index(k % N, k / N, N)
  {
    var t := TransposeOf(input, prior, N);
    forall k | 0 <= k < N * N
      ensures t[k] == Index(k % N, k / N, N)
    {
      IndexCovers(k, N);
      IndexBounds(N);
    }
  }
}
