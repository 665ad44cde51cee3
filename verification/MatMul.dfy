/** The matrix-multiply kernels of the loop fuzzer: two trust-ir loop orders and the C loop nest they
    are compared against, in wrapping 32-bit arithmetic. A pointer is an array and an element offset:
    `gep` adds a sign-extended index to the offset, and memory is touched only by loads and stores. */
module MatMul {
  import Bits

  type Int32 = x: int | -0x8000_0000 <= x < 0x8000_0000

  function Wrap32(x: int): Int32 {
    (x + 0x8000_0000) % 0x1_0000_0000 - 0x8000_0000
  }

  function Mul32(x: int, y: int): Int32 {
    Wrap32(x * y)
  }

  function Add32(x: int, y: int): Int32 {
    Wrap32(x + y)
  }

  /** Where row `i` of an n-by-n matrix starts. */
  function Row(i: int, n: int): int {
    i * n
  }

  function At(s: seq<Int32>, p: int): int {
    if 0 <= p < |s| then s[p] else 0
  }

  /** The first `m` products of row `i` of `a` with column `j` of `b`, added exactly. */
  function Dot(a: seq<Int32>, b: seq<Int32>, n: nat, i: int, j: int, m: nat): int {
    if m == 0 then 0 else Dot(a, b, n, i, j, m - 1) + At(a, Row(i, n) + (m - 1)) * At(b, Row(m - 1, n) + j)
  }

  /** Position `p` of C once `m` products have been accumulated into it. */
  function Entry(c: seq<Int32>, a: seq<Int32>, b: seq<Int32>, n: nat, p: nat, m: nat): Int32
    requires n > 0
  {
    Wrap32(At(c, p) + Dot(a, b, n, p / n, p % n, m))
  }

  /** C = C0 + A * B, each entry modulo 2^32; positions from n * n on are left alone. */
  predicate IsProduct(after: seq<Int32>, c: seq<Int32>, a: seq<Int32>, b: seq<Int32>, n: int) {
    && |after| == |c|
    && forall p :: 0 <= p < |c| ==> after[p] == if n > 0 && p < n * n then Entry(c, a, b, n, p, n) else c[p]
  }

  /** The sizes the kernels are for: the element count is an i32, and the arrays hold it. */
  predicate Sized(n: Int32, c: int, a: int, b: int) {
    n > 0 ==> n * n < 0x8000_0000 && n * n <= c && n * n <= a && n * n <= b
  }

  // --- Arithmetic -----------------------------------------------------------------------------------

  lemma WrapSmall(x: int)
    requires -0x8000_0000 <= x < 0x8000_0000
    ensures Wrap32(x) == x
  {
  }

  lemma AddSmall(x: int, y: int)
    requires -0x8000_0000 <= x + y < 0x8000_0000
    ensures Add32(x, y) == x + y
  {
  }

  lemma ModAdd(x: int, y: int, q: int)
    requires y == x + q * 0x1_0000_0000
    ensures x % 0x1_0000_0000 == y % 0x1_0000_0000
  {
  }

  /** Wrapping the product and the running sum loses nothing. */
  lemma WrapStep(x: int, y: int)
    ensures Wrap32(Wrap32(x) + Wrap32(y)) == Wrap32(x + y)
  {
    var (qx, qy) := ((x + 0x8000_0000) / 0x1_0000_0000, (y + 0x8000_0000) / 0x1_0000_0000);
    assert x == Wrap32(x) + qx * 0x1_0000_0000;
    assert y == Wrap32(y) + qy * 0x1_0000_0000;
    ModAdd(Wrap32(x) + Wrap32(y) + 0x8000_0000, x + y + 0x8000_0000, qx + qy);
  }

  lemma RowBound(i: nat, n: nat)
    requires i < n
    ensures 0 <= Row(i, n) <= n * n - n
  {
    var d: nat := n - 1 - i;
    assert n * n - n == i * n + d * n;
  }

  lemma RowFits(i: nat, n: nat)
    requires i < n && n * n < 0x8000_0000
    ensures 0 <= Row(i, n) <= n * n - n && Mul32(i, n) == Row(i, n)
  {
    RowBound(i, n);
    WrapSmall(i * n);
  }

  lemma RowNext(i: int, n: int)
    ensures Row(i + 1, n) == Row(i, n) + n && Row(0, n) == 0 && Row(n, n) == n * n
  {
  }

  lemma Coordinates(i: nat, j: nat, n: nat)
    requires j < n
    ensures Row(i, n) >= 0 && (Row(i, n) + j) / n == i && (Row(i, n) + j) % n == j
  {
    Bits.DivModUnique(i * n + j, n, i, j);
  }

  /** One multiply-accumulate takes position (i, j) from k products to k + 1. */
  lemma MultiplyAccumulate(c: seq<Int32>, a: seq<Int32>, b: seq<Int32>, n: nat, i: nat, j: nat, k: nat)
    requires j < n && 0 <= Row(i, n) + j && 0 <= Row(i, n) + k < |a| && 0 <= Row(k, n) + j < |b|
    ensures Add32(Entry(c, a, b, n, Row(i, n) + j, k), Mul32(a[Row(i, n) + k], b[Row(k, n) + j])) ==
            Entry(c, a, b, n, Row(i, n) + j, k + 1)
  {
    Coordinates(i, j, n);
    hide Row, Wrap32;
    var (x, y) := (a[Row(i, n) + k] as int, b[Row(k, n) + j] as int);
    assert Dot(a, b, n, i, j, k + 1) == Dot(a, b, n, i, j, k) + x * y;
    WrapStep(At(c, Row(i, n) + j) + Dot(a, b, n, i, j, k), x * y);
  }

  // --- ikj: the product is stored back at every step --------------------------------------------------

  /** Products accumulated at `p` when rows before `row` are done, `k` full passes over this row are,
      and the next pass has reached column `j`. */
  function StoredSteps(n: nat, row: int, k: nat, j: nat, p: int): nat {
    if p < row then n else if p < row + j then k + 1 else if p < row + n then k else 0
  }

  predicate StoreState(now: seq<Int32>, c: seq<Int32>, a: seq<Int32>, b: seq<Int32>, n: nat, row: int, k: nat, j: nat) {
    && n > 0 && |now| == |c|
    && forall p :: 0 <= p < |c| ==> now[p] == Entry(c, a, b, n, p, StoredSteps(n, row, k, j, p))
  }

  lemma StoreStart(c: seq<Int32>, a: seq<Int32>, b: seq<Int32>, n: nat)
    requires n > 0
    ensures StoreState(c, c, a, b, n, Row(0, n), 0, 0)
  {
    forall p | 0 <= p < |c|
      ensures c[p] == Entry(c, a, b, n, p, 0)
    {
      WrapSmall(c[p]);
    }
  }

  lemma StorePassDone(now: seq<Int32>, c: seq<Int32>, a: seq<Int32>, b: seq<Int32>, n: nat, row: int, k: nat)
    requires StoreState(now, c, a, b, n, row, k, n)
    ensures StoreState(now, c, a, b, n, row, k + 1, 0)
  {
    forall p | 0 <= p < |c|
      ensures StoredSteps(n, row, k, n, p) == StoredSteps(n, row, k + 1, 0, p)
    {
    }
  }

  lemma StoreRowDone(now: seq<Int32>, c: seq<Int32>, a: seq<Int32>, b: seq<Int32>, n: nat, i: int)
    requires StoreState(now, c, a, b, n, Row(i, n), n, 0)
    ensures StoreState(now, c, a, b, n, Row(i + 1, n), 0, 0)
  {
    RowNext(i, n);
    hide Row;
    forall p | 0 <= p < |c|
      ensures StoredSteps(n, Row(i, n), n, 0, p) == StoredSteps(n, Row(i + 1, n), 0, 0, p)
    {
    }
  }

  lemma StoreStep(now: seq<Int32>, c: seq<Int32>, a: seq<Int32>, b: seq<Int32>, n: nat, i: nat, k: nat, j: nat)
    requires j < n && 0 <= Row(i, n) + k < |a| && 0 <= Row(k, n) + j < |b| && 0 <= Row(i, n) + j < |c|
    requires StoreState(now, c, a, b, n, Row(i, n), k, j)
    ensures StoreState(now[Row(i, n) + j := Add32(now[Row(i, n) + j], Mul32(a[Row(i, n) + k], b[Row(k, n) + j]))],
                       c, a, b, n, Row(i, n), k, j + 1)
  {
    hide Entry, Row, Wrap32, Add32, Mul32;
    var q := Row(i, n) + j;
    MultiplyAccumulate(c, a, b, n, i, j, k);
    var next := now[q := Add32(now[q], Mul32(a[Row(i, n) + k], b[Row(k, n) + j]))];
    forall p | 0 <= p < |c|
      ensures next[p] == Entry(c, a, b, n, p, StoredSteps(n, Row(i, n), k, j + 1, p))
    {
      if p != q {
        assert StoredSteps(n, Row(i, n), k, j + 1, p) == StoredSteps(n, Row(i, n), k, j, p);
      }
    }
  }

  lemma StoreEnd(now: seq<Int32>, c: seq<Int32>, a: seq<Int32>, b: seq<Int32>, n: nat)
    requires StoreState(now, c, a, b, n, Row(n, n), 0, 0)
    ensures IsProduct(now, c, a, b, n)
  {
    RowNext(n, n);
    forall p | 0 <= p < |c| && p >= n * n
      ensures now[p] == c[p]
    {
      WrapSmall(c[p]);
    }
  }

  lemma EmptyProduct(c: seq<Int32>, a: seq<Int32>, b: seq<Int32>, n: int)
    requires n <= 0
    ensures IsProduct(c, c, a, b, n)
  {
  }

  /** `gen_ikj`: loads A once per (i, k), then loads, updates and stores C along the row. */
  method MatmulIkj(C: array<Int32>, A: array<Int32>, B: array<Int32>, N: Int32)
    requires C != A && C != B && Sized(N, C.Length, A.Length, B.Length)
    modifies C
    ensures IsProduct(C[..], old(C[..]), A[..], B[..], N)
  {
    hide StoreState, IsProduct, Wrap32, Mul32, Add32, Row;
    ghost var (c0, a, b) := (C[..], A[..], B[..]);
    if N <= 0 { EmptyProduct(c0, a, b, N); } else { StoreStart(c0, a, b, N); }
    var i: Int32 := 0;
    while i < N
      invariant 0 <= i && (N <= 0 ==> C[..] == c0)
      invariant N > 0 ==> i <= N && StoreState(C[..], c0, a, b, N, Row(i, N), 0, 0)
      decreases N - i
    {
      RowFits(i, N);
      var rowC, rowA := Mul32(i, N), Mul32(i, N);
      var k: Int32 := 0;
      while k < N
        invariant 0 <= k <= N && StoreState(C[..], c0, a, b, N, Row(i, N), k, 0)
        decreases N - k
      {
        RowFits(k, N);
        var s := A[rowA + k];
        var rowB := Mul32(k, N);
        var j: Int32 := 0;
        while j < N
          invariant 0 <= j <= N && StoreState(C[..], c0, a, b, N, Row(i, N), k, j)
          decreases N - j
        {
          StoreStep(C[..], c0, a, b, N, i, k, j);
          ghost var now := C[..];
          var cg := rowC + j;
          var cv := C[cg];
          var bv := B[rowB + j];
          var prod := Mul32(s, bv);
          C[cg] := Add32(cv, prod);
          assert C[..] == now[cg := Add32(cv, prod)];
          AddSmall(j, 1);
          j := Add32(j, 1);
        }
        StorePassDone(C[..], c0, a, b, N, Row(i, N), k);
        AddSmall(k, 1);
        k := Add32(k, 1);
      }
      StoreRowDone(C[..], c0, a, b, N, i);
      AddSmall(i, 1);
      i := Add32(i, 1);
    }
    if N > 0 { StoreEnd(C[..], c0, a, b, N); }
  }

  /** `C_REF`: the same order, one statement over array indices. */
  method MatmulReference(C: array<Int32>, A: array<Int32>, B: array<Int32>, N: Int32)
    requires C != A && C != B && Sized(N, C.Length, A.Length, B.Length)
    modifies C
    ensures IsProduct(C[..], old(C[..]), A[..], B[..], N)
  {
    hide StoreState, IsProduct, Wrap32, Mul32, Add32, Row;
    ghost var (c0, a, b) := (C[..], A[..], B[..]);
    if N <= 0 { EmptyProduct(c0, a, b, N); } else { StoreStart(c0, a, b, N); }
    var i := 0;
    while i < N
      invariant 0 <= i && (N <= 0 ==> C[..] == c0)
      invariant N > 0 ==> i <= N && StoreState(C[..], c0, a, b, N, Row(i, N), 0, 0)
    {
      RowFits(i, N);
      var k := 0;
      while k < N
        invariant 0 <= k <= N && StoreState(C[..], c0, a, b, N, Row(i, N), k, 0)
      {
        RowFits(k, N);
        AddSmall(Row(i, N), k);
        var s := A[Add32(Mul32(i, N), k)];
        var j := 0;
        while j < N
          invariant 0 <= j <= N && StoreState(C[..], c0, a, b, N, Row(i, N), k, j)
        {
          StoreStep(C[..], c0, a, b, N, i, k, j);
          ghost var now := C[..];
          AddSmall(Row(i, N), j);
          AddSmall(Row(k, N), j);
          var q := Add32(Mul32(i, N), j);
          C[q] := Add32(C[q], Mul32(s, B[Add32(Mul32(k, N), j)]));
          assert C[..] == now[q := C[q]];
          j := j + 1;
        }
        StorePassDone(C[..], c0, a, b, N, Row(i, N), k);
        k := k + 1;
      }
      StoreRowDone(C[..], c0, a, b, N, i);
      i := i + 1;
    }
    if N > 0 { StoreEnd(C[..], c0, a, b, N); }
  }

  // --- ijk: a running sum carried in a block parameter, stored once -----------------------------------

  /** Entries before `done` hold their full sum, the others what they held at the start. */
  predicate DotState(now: seq<Int32>, c: seq<Int32>, a: seq<Int32>, b: seq<Int32>, n: nat, done: int) {
    && n > 0 && |now| == |c|
    && forall p :: 0 <= p < |c| ==> now[p] == if p < done then Entry(c, a, b, n, p, n) else c[p]
  }

  lemma DotStart(c: seq<Int32>, a: seq<Int32>, b: seq<Int32>, n: nat)
    requires n > 0
    ensures DotState(c, c, a, b, n, Row(0, n))
  {
  }

  lemma DotEntry(now: seq<Int32>, c: seq<Int32>, a: seq<Int32>, b: seq<Int32>, n: nat, p: nat)
    requires DotState(now, c, a, b, n, p) && p < |c|
    ensures now[p] == Entry(c, a, b, n, p, 0)
    ensures DotState(now[p := Entry(c, a, b, n, p, n)], c, a, b, n, p + 1)
  {
    WrapSmall(c[p]);
  }

  lemma DotEnd(now: seq<Int32>, c: seq<Int32>, a: seq<Int32>, b: seq<Int32>, n: nat)
    requires DotState(now, c, a, b, n, Row(n, n))
    ensures IsProduct(now, c, a, b, n)
  {
  }

  /** `gen_ijk`: the sum for one entry is carried around the k loop and stored after it. */
  method MatmulIjk(C: array<Int32>, A: array<Int32>, B: array<Int32>, N: Int32)
    requires C != A && C != B && Sized(N, C.Length, A.Length, B.Length)
    modifies C
    ensures IsProduct(C[..], old(C[..]), A[..], B[..], N)
  {
    hide DotState, Entry, IsProduct, Wrap32, Mul32, Add32, Row;
    ghost var (c0, a, b) := (C[..], A[..], B[..]);
    if N <= 0 { EmptyProduct(c0, a, b, N); } else { DotStart(c0, a, b, N); }
    var i: Int32 := 0;
    while i < N
      invariant 0 <= i && (N <= 0 ==> C[..] == c0)
      invariant N > 0 ==> i <= N && DotState(C[..], c0, a, b, N, Row(i, N))
      decreases N - i
    {
      RowFits(i, N);
      var rowC, rowA := Mul32(i, N), Mul32(i, N);
      var j: Int32 := 0;
      while j < N
        invariant 0 <= j <= N && DotState(C[..], c0, a, b, N, Row(i, N) + j)
        decreases N - j
      {
        DotEntry(C[..], c0, a, b, N, Row(i, N) + j);
        ghost var now := C[..];
        var cg := rowC + j;
        var acc: Int32 := C[cg];
        var k: Int32 := 0;
        while k < N
          invariant 0 <= k <= N && acc == Entry(c0, a, b, N, Row(i, N) + j, k) && C[..] == now
          decreases N - k
        {
          RowFits(k, N);
          MultiplyAccumulate(c0, a, b, N, i, j, k);
          var s := A[rowA + k];
          var rowB := Mul32(k, N);
          var bv := B[rowB + j];
          acc := Add32(acc, Mul32(s, bv));
          AddSmall(k, 1);
          k := Add32(k, 1);
        }
        C[cg] := acc;
        assert C[..] == now[cg := acc];
        AddSmall(j, 1);
        j := Add32(j, 1);
      }
      RowNext(i, N);
      AddSmall(i, 1);
      i := Add32(i, 1);
    }
    if N > 0 { DotEnd(C[..], c0, a, b, N); }
  }

  /** The specification fixes every element, so the three kernels leave identical memory. */
  lemma ProductIsUnique(x: seq<Int32>, y: seq<Int32>, c: seq<Int32>, a: seq<Int32>, b: seq<Int32>, n: int)
    requires IsProduct(x, c, a, b, n) && IsProduct(y, c, a, b, n)
    ensures x == y
  {
    forall p | 0 <= p < |c|
      ensures x[p] == y[p]
    {
    }
  }
}
