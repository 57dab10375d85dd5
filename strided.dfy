/**
 * The strided-array indexing law behind `dapx`: which storage positions a
 * `(N, stride, offset)` descriptor visits, the offset rule of the simple entry
 * point, the direct in-place semantics of "add alpha to every visited element",
 * and the gather / add / scatter path the WebAssembly routine takes when the
 * array has to be copied into module memory.
 *
 * Element values are exact reals; storage is a sequence. Positions outside the
 * storage behave as a typed array does: a store there is dropped.
 *
 * The traversals are defined step by step (visit `offset`, then carry on from
 * `offset + stride`), as the loops that run them are; the lemmas restate them
 * in closed form over the positions `offset + i*stride`.
 */
module Strided {

  /** Storage position of logical element `i` of the view `(stride, offset)`. */
  function Pos(offset: int, stride: int, i: int): (p: int) {
    offset + i * stride
  }

  /** Number of elements a call with count `N` visits (`N <= 0` visits none). */
  function Count(N: int): (n: nat) {
    if N > 0 then N else 0
  }

  /** Every one of the `N` positions visited from `offset` lies inside storage of length `len`. */
  predicate InBounds(N: int, stride: int, offset: int, len: int)
    decreases N
  {
    N <= 0 || (0 <= offset < len && InBounds(N - 1, stride, offset + stride, len))
  }

  /**
   * Offset rule of the simple entry point: 0 for a positive stride, otherwise
   * `(1-N)*stride`, so that a negative stride starts at the highest position
   * and ends at 0.
   */
  function Stride2Offset(N: int, stride: int): (o: int)
    ensures stride > 0 ==> o == 0
    ensures stride == 0 ==> o == 0
    ensures N > 0 ==> o >= 0
    ensures N > 0 && stride < 0 ==> o == (N - 1) * -stride && Pos(o, stride, N - 1) == 0
  {
    if stride > 0 then 0
    else
      NonNegativeProduct(if N > 0 then N - 1 else 0, -stride);
      assert (1 - N) * stride == (N - 1) * -stride;
      (1 - N) * stride
  }

  lemma NonNegativeProduct(a: int, b: int)
    requires a >= 0 && b >= 0
    ensures a * b >= 0
  {
  }

  /** A typed-array store: position `k` gets `v`; a store outside the array is dropped. */
  function Put(s: seq<real>, k: int, v: real): (r: seq<real>)
    ensures |r| == |s|
  {
    if 0 <= k < |s| then s[k := v] else s
  }

  /** One visit of the kernel: `alpha` added to the element at `k`, if there is one. */
  function AddAt(s: seq<real>, k: int, alpha: real): (r: seq<real>)
    ensures |r| == |s|
  {
    if 0 <= k < |s| then s[k := s[k] + alpha] else s
  }

  /**
   * Direct semantics of the kernel: visit the `N` positions `offset`,
   * `offset + stride`, ... in order, adding `alpha` at each.
   */
  function AddStrided(N: int, alpha: real, s: seq<real>, stride: int, offset: int): (r: seq<real>)
    decreases N
    ensures |r| == |s|
    ensures N <= 0 ==> r == s
  {
    if N <= 0 then s
    else AddStrided(N - 1, alpha, AddAt(s, offset, alpha), stride, offset + stride)
  }

  /**
   * Staging copy: slot `i` of the unit-stride block receives the element at
   * `Pos(offset, stride, i)`; a slot whose position lies outside `s` keeps
   * whatever `fill` held there.
   */
  function Gather(s: seq<real>, stride: int, offset: int, fill: seq<real>): (b: seq<real>)
    ensures |b| == |fill|
    ensures forall i :: 0 <= i < |b| && 0 <= Pos(offset, stride, i) < |s| ==> b[i] == s[Pos(offset, stride, i)]
  {
    seq(|fill|, i requires 0 <= i < |fill| =>
      if 0 <= Pos(offset, stride, i) < |s| then s[Pos(offset, stride, i)] else fill[i])
  }

  /** The unit-stride block after the kernel: `alpha` added to every slot. */
  function Shift(b: seq<real>, alpha: real): (r: seq<real>)
    ensures |r| == |b|
    ensures forall i :: 0 <= i < |b| ==> r[i] == b[i] + alpha
  {
    seq(|b|, i requires 0 <= i < |b| => b[i] + alpha)
  }

  /**
   * Read-back: store the slots of `b` in order at `offset`, `offset + stride`,
   * ...; stores outside `s` are dropped.
   */
  function Scatter(s: seq<real>, stride: int, offset: int, b: seq<real>): (r: seq<real>)
    decreases |b|
    ensures |r| == |s|
  {
    if |b| == 0 then s
    else Scatter(Put(s, offset, b[0]), stride, offset + stride, b[1..])
  }

  /** Moving the start one stride forward shifts the logical index by one. */
  lemma PosStep(offset: int, stride: int, i: int)
    ensures Pos(offset + stride, stride, i) == Pos(offset, stride, i + 1)
  {
    assert (i + 1) * stride == i * stride + stride;
  }

  /** With a non-zero stride, distinct logical indices reach distinct positions. */
  lemma PosInjective(offset: int, stride: int, i: int, j: int)
    requires stride != 0 && i != j
    ensures Pos(offset, stride, i) != Pos(offset, stride, j)
  {
    assert Pos(offset, stride, i) - Pos(offset, stride, j) == (i - j) * stride;
    if i < j {
      MulNonZero(j - i, stride);
    } else {
      MulNonZero(i - j, stride);
    }
  }

  lemma MulMonotone(a: int, b: int, c: int)
    requires 0 <= a <= b && c >= 0
    ensures 0 <= a * c <= b * c
  {
    assert b * c - a * c == (b - a) * c;
    NonNegativeProduct(b - a, c);
    NonNegativeProduct(a, c);
  }

  lemma MulNonZero(a: int, b: int)
    requires a > 0 && b != 0
    ensures a * b != 0
  {
    if b > 0 {
      assert a * b >= b;
    } else {
      assert a * -b >= -b;
    }
  }

  /** `InBounds` says exactly that every position `offset + i*stride`, `0 <= i < N`, lies in `[0, len)`. */
  lemma {:induction false} InBoundsIff(N: int, stride: int, offset: int, len: int)
    ensures InBounds(N, stride, offset, len) <==> forall i :: 0 <= i < N ==> 0 <= Pos(offset, stride, i) < len
  {
    if N > 0 {
      var next := offset + stride;
      InBoundsIff(N - 1, stride, next, len);
      forall i | 0 <= i < N - 1 ensures Pos(next, stride, i) == Pos(offset, stride, i + 1) {
        PosStep(offset, stride, i);
      }
      if forall i :: 0 <= i < N ==> 0 <= Pos(offset, stride, i) < len {
        assert Pos(offset, stride, 0) == offset;
        forall i | 0 <= i < N - 1 ensures 0 <= Pos(next, stride, i) < len {
          assert 0 <= Pos(offset, stride, i + 1) < len;
        }
      }
      if InBounds(N, stride, offset, len) {
        forall i | 0 <= i < N ensures 0 <= Pos(offset, stride, i) < len {
          if i > 0 {
            assert Pos(next, stride, i - 1) == Pos(offset, stride, i);
          }
        }
      }
    }
  }

  /** A block of `N` consecutive slots from `ptr` that fits in memory is in bounds at unit stride. */
  lemma {:induction false} InBoundsUnitStride(N: int, ptr: int, len: int)
    requires 0 <= ptr && ptr + Count(N) <= len
    ensures InBounds(N, 1, ptr, len)
  {
    if N > 0 {
      InBoundsUnitStride(N - 1, ptr + 1, len);
    }
  }

  /** A position that none of the `N` visits reaches keeps its value. */
  lemma {:induction false} AddStridedUntouched(N: int, alpha: real, s: seq<real>, stride: int, offset: int, k: int)
    requires 0 <= k < |s|
    requires forall i :: 0 <= i < N ==> Pos(offset, stride, i) != k
    ensures AddStrided(N, alpha, s, stride, offset)[k] == s[k]
  {
    if N > 0 {
      var next := offset + stride;
      assert Pos(offset, stride, 0) != k;
      forall i | 0 <= i < N - 1 ensures Pos(next, stride, i) != k {
        PosStep(offset, stride, i);
      }
      AddStridedUntouched(N - 1, alpha, AddAt(s, offset, alpha), stride, next, k);
    }
  }

  /** With a non-zero stride, every visited position inside `s` ends up as its old value plus `alpha`. */
  lemma {:induction false} AddStridedVisited(N: int, alpha: real, s: seq<real>, stride: int, offset: int, i: int)
    requires stride != 0
    requires 0 <= i < N
    requires 0 <= Pos(offset, stride, i) < |s|
    ensures AddStrided(N, alpha, s, stride, offset)[Pos(offset, stride, i)] == s[Pos(offset, stride, i)] + alpha
  {
    var k := Pos(offset, stride, i);
    var s', next := AddAt(s, offset, alpha), offset + stride;
    if i == 0 {
      forall j | 0 <= j < N - 1 ensures Pos(next, stride, j) != k {
        PosStep(offset, stride, j);
        PosInjective(offset, stride, j + 1, 0);
      }
      AddStridedUntouched(N - 1, alpha, s', stride, next, k);
    } else {
      PosStep(offset, stride, i - 1);
      PosInjective(offset, stride, i, 0);
      AddStridedVisited(N - 1, alpha, s', stride, offset + stride, i - 1);
    }
  }

  /** With stride 0 every visit lands on `offset`, so it accumulates `N` additions of `alpha`. */
  lemma {:induction false} ZeroStrideAccumulates(N: nat, alpha: real, s: seq<real>, offset: int)
    requires 0 <= offset < |s|
    ensures AddStrided(N, alpha, s, 0, offset)[offset] == s[offset] + (N as real) * alpha
  {
    if N > 0 {
      ZeroStrideAccumulates(N - 1, alpha, AddAt(s, offset, alpha), offset);
      assert ((N - 1) as real) * alpha + alpha == (N as real) * alpha;
    }
  }

  /**
   * Running the kernel on a unit-stride block starting at `ptr` adds `alpha` to
   * each of its `n` slots and leaves the rest of memory alone.
   */
  lemma UnitStrideKernel(n: nat, alpha: real, m: seq<real>, ptr: int)
    requires 0 <= ptr && ptr + n <= |m|
    ensures AddStrided(n, alpha, m, 1, ptr) == m[..ptr] + Shift(m[ptr..ptr + n], alpha) + m[ptr + n..]
  {
    var r := AddStrided(n, alpha, m, 1, ptr);
    var block := Shift(m[ptr..ptr + n], alpha);
    var t := m[..ptr] + block + m[ptr + n..];
    UnitStrideBlock(n, alpha, m, ptr);
    forall k | 0 <= k < |m| ensures r[k] == t[k] {
      if ptr <= k < ptr + n {
        assert t[k] == block[k - ptr];
      }
    }
  }

  /** Pointwise form of `UnitStrideKernel`. */
  lemma {:induction false} UnitStrideBlock(n: nat, alpha: real, m: seq<real>, ptr: int)
    requires 0 <= ptr && ptr + n <= |m|
    ensures forall k :: 0 <= k < |m| ==>
      AddStrided(n, alpha, m, 1, ptr)[k] == if ptr <= k < ptr + n then m[k] + alpha else m[k]
  {
    if n > 0 {
      UnitStrideBlock(n - 1, alpha, AddAt(m, ptr, alpha), ptr + 1);
    }
  }

  /**
   * Scattering back a block whose in-range slots hold the old values plus
   * `alpha` gives the direct in-place update, when the stride is non-zero.
   */
  lemma {:induction false} ScatterAddedBlock(s: seq<real>, alpha: real, stride: int, offset: int, b: seq<real>)
    requires stride != 0
    requires forall i :: 0 <= i < |b| && 0 <= Pos(offset, stride, i) < |s| ==> b[i] == s[Pos(offset, stride, i)] + alpha
    ensures Scatter(s, stride, offset, b) == AddStrided(|b|, alpha, s, stride, offset)
    decreases |b|
  {
    if |b| > 0 {
      var s', next := AddAt(s, offset, alpha), offset + stride;
      assert Pos(offset, stride, 0) == offset;
      assert Put(s, offset, b[0]) == s';
      forall i | 0 <= i < |b| - 1 && 0 <= Pos(next, stride, i) < |s'|
        ensures b[1..][i] == s'[Pos(next, stride, i)] + alpha
      {
        PosStep(offset, stride, i);
        PosInjective(offset, stride, i + 1, 0);
      }
      ScatterAddedBlock(s', alpha, stride, next, b[1..]);
    }
  }

  /**
   * Copy round trip: gather the `|fill|` strided elements into a unit-stride
   * block, add `alpha` to each slot and scatter back with the original stride
   * and offset; the result is the direct in-place update.
   */
  lemma CopyRoundTrip(s: seq<real>, alpha: real, stride: int, offset: int, fill: seq<real>)
    requires stride != 0
    ensures Scatter(s, stride, offset, Shift(Gather(s, stride, offset, fill), alpha)) == AddStrided(|fill|, alpha, s, stride, offset)
  {
    ScatterAddedBlock(s, alpha, stride, offset, Shift(Gather(s, stride, offset, fill), alpha));
  }

  /**
   * With stride 0 every store of the read-back lands on `offset`; when all
   * slots hold the same value `v`, the result is that single store.
   */
  lemma {:induction false} ScatterZeroStride(t: seq<real>, offset: int, b: seq<real>, v: real)
    requires |b| > 0
    requires forall i :: 0 <= i < |b| && 0 <= offset < |t| ==> b[i] == v
    ensures Scatter(t, 0, offset, b) == Put(t, offset, v)
    decreases |b|
  {
    if |b| > 1 {
      ScatterZeroStride(Put(t, offset, b[0]), offset, b[1..], v);
    }
  }

  /**
   * Memory `m` holds, from slot `ptr` on, the staged copies of the in-range
   * elements of the view `(N, stride, offset)` over `s`.
   */
  predicate Staged(m: seq<real>, ptr: int, s: seq<real>, N: int, stride: int, offset: int) {
    0 <= ptr && ptr + Count(N) <= |m| &&
    forall i :: 0 <= i < N && 0 <= Pos(offset, stride, i) < |s| ==> m[ptr + i] == s[Pos(offset, stride, i)]
  }

  /**
   * The whole copy path: the kernel adds `alpha` to the `N` staged slots in
   * place and the read-back scatters them into `s`. The result is the direct
   * update of `s`, except that with stride 0 the repeated visits collapse
   * into one.
   */
  lemma StagedRoundTrip(s: seq<real>, alpha: real, stride: int, offset: int, m: seq<real>, ptr: int, N: int)
    requires Staged(m, ptr, s, N, stride, offset)
    ensures Scatter(s, stride, offset, AddStrided(N, alpha, m, 1, ptr)[ptr..ptr + Count(N)])
            == AddStrided(if stride == 0 && N > 0 then 1 else N, alpha, s, stride, offset)
  {
    var n := Count(N);
    UnitStrideKernel(n, alpha, m, ptr);
    var block := AddStrided(N, alpha, m, 1, ptr)[ptr..ptr + n];
    assert block == Shift(m[ptr..ptr + n], alpha);
    forall i | 0 <= i < |block| && 0 <= Pos(offset, stride, i) < |s|
      ensures block[i] == s[Pos(offset, stride, i)] + alpha
    {
      assert m[ptr..ptr + n][i] == m[ptr + i];
    }
    if stride != 0 {
      ScatterAddedBlock(s, alpha, stride, offset, block);
    } else if n > 0 {
      forall i | 0 <= i < |block| && 0 <= offset < |s| ensures block[i] == s[offset] + alpha {
        assert Pos(offset, stride, i) == offset;
      }
      ScatterZeroStride(s, offset, block, if 0 <= offset < |s| then s[offset] + alpha else 0.0);
    }
  }

  /** Step `j` of the reversed view lands where step `N-1-j` of the original does. */
  lemma PosReversed(offset: int, stride: int, N: int, j: int)
    ensures Pos(Pos(offset, stride, N - 1), -stride, j) == Pos(offset, stride, N - 1 - j)
  {
    calc {
      Pos(Pos(offset, stride, N - 1), -stride, j);
      offset + (N - 1) * stride + j * -stride;
      { assert j * -stride == -(j * stride); }
      offset + (N - 1) * stride - j * stride;
      { assert (N - 1) * stride - j * stride == (N - 1 - j) * stride; }
      offset + (N - 1 - j) * stride;
    }
  }

  /** One position of `ReverseStride`. */
  lemma ReverseStrideAt(N: int, alpha: real, s: seq<real>, stride: int, offset: int, k: int)
    requires N > 0 && stride != 0 && 0 <= k < |s|
    ensures AddStrided(N, alpha, s, -stride, Pos(offset, stride, N - 1))[k] == AddStrided(N, alpha, s, stride, offset)[k]
  {
    var last, back := Pos(offset, stride, N - 1), -stride;
    if i :| 0 <= i < N && Pos(offset, stride, i) == k {
      PosReversed(offset, stride, N, N - 1 - i);
      AddStridedVisited(N, alpha, s, stride, offset, i);
      AddStridedVisited(N, alpha, s, back, last, N - 1 - i);
    } else {
      forall j | 0 <= j < N ensures Pos(last, back, j) != k {
        PosReversed(offset, stride, N, j);
        assert Pos(offset, stride, N - 1 - j) != k;
      }
      AddStridedUntouched(N, alpha, s, stride, offset, k);
      AddStridedUntouched(N, alpha, s, back, last, k);
    }
  }

  /**
   * Reversing the traversal: the view that starts at the last position and
   * steps by `-stride` updates exactly the same elements.
   */
  lemma ReverseStride(N: int, alpha: real, s: seq<real>, stride: int, offset: int)
    ensures AddStrided(N, alpha, s, -stride, Pos(offset, stride, N - 1)) == AddStrided(N, alpha, s, stride, offset)
  {
    if N > 0 && stride != 0 {
      var r := AddStrided(N, alpha, s, -stride, Pos(offset, stride, N - 1));
      var t := AddStrided(N, alpha, s, stride, offset);
      forall k | 0 <= k < |s| ensures r[k] == t[k] {
        ReverseStrideAt(N, alpha, s, stride, offset, k);
      }
    }
  }

  /**
   * The simple entry point visits the contiguous run `0, |stride|, ..., (N-1)*|stride|`:
   * upwards for a positive stride, downwards from the highest position for a
   * negative one.
   */
  lemma Stride2OffsetPositions(N: int, stride: int, i: int)
    requires stride != 0 && 0 <= i < N
    ensures Pos(Stride2Offset(N, stride), stride, i) == if stride > 0 then i * stride else (N - 1 - i) * -stride
  {
    if stride < 0 {
      assert Pos(Stride2Offset(N, stride), stride, i) == (1 - N) * stride + i * stride;
      assert (1 - N) * stride + i * stride == (N - 1 - i) * -stride;
    }
  }

  /**
   * Storage of length greater than `(N-1)*|stride|` holds every position the
   * simple entry point visits.
   */
  lemma Stride2OffsetInBounds(N: int, stride: int, len: int)
    requires stride != 0
    requires N > 0 ==> (N - 1) * (if stride > 0 then stride else -stride) < len
    ensures InBounds(N, stride, Stride2Offset(N, stride), len)
  {
    var a := if stride > 0 then stride else -stride;
    forall i | 0 <= i < N ensures 0 <= Pos(Stride2Offset(N, stride), stride, i) < len {
      Stride2OffsetPositions(N, stride, i);
      var j := if stride > 0 then i else N - 1 - i;
      assert 0 <= j <= N - 1;
      assert Pos(Stride2Offset(N, stride), stride, i) == j * a;
      MulMonotone(j, N - 1, a);
    }
    InBoundsIff(N, stride, Stride2Offset(N, stride), len);
  }

  /**
   * Under the simple entry point's offset rule the sign of the stride does not
   * matter: a negative stride updates the same elements as its magnitude.
   */
  lemma SimpleEntrySignOfStride(N: int, alpha: real, s: seq<real>, stride: int)
    requires stride < 0
    ensures AddStrided(N, alpha, s, stride, Stride2Offset(N, stride)) == AddStrided(N, alpha, s, -stride, Stride2Offset(N, -stride))
  {
    ReverseStride(N, alpha, s, -stride, 0);
    if N > 0 {
      assert Pos(0, -stride, N - 1) == Stride2Offset(N, stride);
    } else {
      assert AddStrided(N, alpha, s, stride, Stride2Offset(N, stride)) == s;
    }
  }
}
