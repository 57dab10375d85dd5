/**
 * The WebAssembly-backed `dapx` routine: an object that owns the module's
 * linear memory and exposes the two entry points `main` (here `Dapx`) and
 * `ndarray`. A call stages the caller's strided array into module memory
 * (unless the array already is that memory), runs the kernel there and, when
 * a copy was made, reads the results back into the caller's array.
 *
 * Memory is modelled as an array of elements rather than bytes, and a
 * "pointer" as an element index into it.
 */
module WasmDapx {
  import opened Strided

  /**
   * Where the kernel finds the array in module memory: the element index of
   * its base, the stride and offset to use there, and whether the data had to
   * be copied in.
   */
  datatype PointerDescriptor = PointerDescriptor(ptr: int, stride: int, offset: int, copy: bool)

  /**
   * Memory `after` still holds every slot of `before` except the `n` slots
   * from `ptr`, which it has room for.
   */
  predicate KeepsOutside(before: seq<real>, after: seq<real>, ptr: int, n: nat) {
    |before| <= |after| && 0 <= ptr && ptr + n <= |after| &&
    forall k :: 0 <= k < |before| && !(ptr <= k < ptr + n) ==> after[k] == before[k]
  }

  /** The kernel on a staged unit-stride block writes nothing outside that block. */
  lemma KernelKeepsOutside(before: seq<real>, staged: seq<real>, N: int, alpha: real, ptr: int)
    requires KeepsOutside(before, staged, ptr, Count(N))
    ensures KeepsOutside(before, AddStrided(N, alpha, staged, 1, ptr), ptr, Count(N))
  {
    if N > 0 {
      UnitStrideBlock(N, alpha, staged, ptr);
    }
  }

  class Routine {
    /** The module's linear memory. */
    var mem: array<real>
    /** Whether the module has been initialized; the entry points require it. */
    ghost var initialized: bool

    /** A routine over a fresh, empty memory, not yet initialized. */
    constructor ()
      ensures fresh(mem) && mem.Length == 0
      ensures !initialized
    {
      mem := new real[0];
      initialized := false;
    }

    /** One-time initialization; calling it again changes nothing. */
    method InitializeSync()
      modifies this`initialized
      ensures initialized
    {
      initialized := true;
    }

    /**
     * Reserves room for `n` elements and returns where they start. Memory
     * grows when it is too small; growing keeps its old contents.
     */
    method Allocate(n: nat) returns (ptr: int)
      modifies this`mem
      ensures 0 <= ptr && ptr + n <= mem.Length
      ensures mem == old(mem) || fresh(mem)
      ensures old(mem.Length) <= mem.Length && mem[..old(mem.Length)] == old(mem[..])
    {
      if mem.Length < n {
        var current, grown := mem, new real[n];
        var j := 0;
        while j < current.Length
          invariant 0 <= j <= current.Length
          invariant grown[..j] == current[..j]
        {
          grown[j] := current[j];
          j := j + 1;
        }
        assert current[..] == current[..j];
        mem := grown;
      }
      ptr := 0;
    }

    /**
     * Staging copy: slot `ptr + i` of memory receives `x[offsetX + i*strideX]`
     * for each of the `N` visits; a visit outside `x` leaves its slot as it was.
     */
    method CopyIn(N: int, x: array<real>, strideX: int, offsetX: int, ptr: int)
      requires x != mem
      requires 0 <= ptr && ptr + Count(N) <= mem.Length
      modifies mem
      ensures mem[ptr..ptr + Count(N)] == Gather(x[..], strideX, offsetX, old(mem[ptr..ptr + Count(N)]))
      ensures forall k :: 0 <= k < mem.Length && !(ptr <= k < ptr + Count(N)) ==> mem[k] == old(mem[k])
    {
      ghost var fill := mem[ptr..ptr + Count(N)];
      ghost var block := Gather(x[..], strideX, offsetX, fill);
      var i := 0;
      var ix := offsetX;
      while i < N
        invariant 0 <= i <= Count(N)
        invariant ix == Pos(offsetX, strideX, i)
        invariant forall j :: 0 <= j < i ==> mem[ptr + j] == block[j]
        invariant forall k :: 0 <= k < mem.Length && !(ptr <= k < ptr + i) ==> mem[k] == old(mem[k])
      {
        if 0 <= ix < x.Length {
          mem[ptr + i] := x[ix];
        }
        ix := ix + strideX;
        i := i + 1;
      }
      assert mem[ptr..ptr + Count(N)] == block;
    }

    /**
     * The compiled kernel: for `i = 0, 1, ..., N-1` adds `alpha` to the
     * memory element at `ptr + offset + i*stride`. It checks no bounds, so
     * every visit must stay inside memory.
     */
    method Kernel(N: int, alpha: real, ptr: int, stride: int, offset: int)
      requires InBounds(N, stride, ptr + offset, mem.Length)
      modifies mem
      ensures mem[..] == AddStrided(N, alpha, old(mem[..]), stride, ptr + offset)
    {
      var i := 0;
      var ix := ptr + offset;
      while i < N
        invariant 0 <= i <= Count(N)
        invariant InBounds(N - i, stride, ix, mem.Length)
        invariant AddStrided(N - i, alpha, mem[..], stride, ix) == AddStrided(N, alpha, old(mem[..]), stride, ptr + offset)
      {
        ghost var before := mem[..];
        mem[ix] := mem[ix] + alpha;
        assert mem[..] == AddAt(before, ix, alpha);
        ix := ix + stride;
        i := i + 1;
      }
    }

    /**
     * Read-back: stores memory slot `ptr + i` at `x[offsetX + i*strideX]` for
     * `i = 0, 1, ..., N-1`; a store outside `x` is dropped.
     */
    method ReadBack(N: int, ptr: int, x: array<real>, strideX: int, offsetX: int)
      requires x != mem
      requires 0 <= ptr && ptr + Count(N) <= mem.Length
      modifies x
      ensures x[..] == Scatter(old(x[..]), strideX, offsetX, old(mem[ptr..ptr + Count(N)]))
    {
      ghost var block := mem[ptr..ptr + Count(N)];
      var i := 0;
      var ix := offsetX;
      while i < N
        invariant 0 <= i <= Count(N)
        invariant Scatter(x[..], strideX, ix, block[i..]) == Scatter(old(x[..]), strideX, offsetX, block)
      {
        ghost var before := x[..];
        assert block[i..][0] == mem[ptr + i] && block[i..][1..] == block[i + 1..];
        if 0 <= ix < x.Length {
          x[ix] := mem[ptr + i];
        }
        assert x[..] == Put(before, ix, mem[ptr + i]);
        ix := ix + strideX;
        i := i + 1;
      }
    }

    /**
     * Turns the caller's strided array into a pointer into module memory. An
     * array that is the module's memory is used where it is; any other array
     * is copied into a freshly reserved unit-stride, zero-offset block.
     */
    method Stage(N: int, x: array<real>, strideX: int, offsetX: int) returns (p: PointerDescriptor)
      modifies this`mem, mem
      ensures p.copy <==> x != old(mem)
      ensures !p.copy ==> p == PointerDescriptor(0, strideX, offsetX, false) && mem == old(mem) && mem[..] == old(mem[..])
      ensures p.copy ==> p.stride == 1 && p.offset == 0 && x != mem && Staged(mem[..], p.ptr, x[..], N, strideX, offsetX)
      ensures p.copy ==> KeepsOutside(old(mem[..]), mem[..], p.ptr, Count(N))
      ensures x[..] == old(x[..])
      ensures mem == old(mem) || fresh(mem)
      ensures old(mem.Length) <= mem.Length
    {
      if x == mem {
        p := PointerDescriptor(0, strideX, offsetX, false);
      } else {
        ghost var before := mem[..];
        var ptr := Allocate(Count(N));
        assert mem[..|before|] == before;
        ghost var grown := mem[..];
        CopyIn(N, x, strideX, offsetX, ptr);
        forall k | 0 <= k < |before| && !(ptr <= k < ptr + Count(N)) ensures mem[k] == before[k] {
          assert grown[k] == mem[..|before|][k];
        }
        p := PointerDescriptor(ptr, 1, 0, true);
      }
    }

    /**
     * The explicit-offset entry point. Adds `alpha` to the `N` elements of `x`
     * at `offsetX + i*strideX` and returns `x` itself. When `x` must be copied
     * and the stride is 0, the copy is read back once per visit from a block
     * whose every slot holds `x[offsetX] + alpha`, so that element gains a
     * single `alpha`.
     */
    method Ndarray(N: int, alpha: real, x: array<real>, strideX: int, offsetX: int) returns (out: array<real>)
      requires initialized
      requires x == mem ==> InBounds(N, strideX, offsetX, mem.Length)
      modifies this`mem, mem, x
      ensures out == x
      ensures N <= 0 ==> x[..] == old(x[..])
      ensures x == old(mem) ==> x[..] == AddStrided(N, alpha, old(x[..]), strideX, offsetX)
      ensures x != old(mem) ==> x[..] == AddStrided(if strideX == 0 && N > 0 then 1 else N, alpha, old(x[..]), strideX, offsetX)
      ensures x == old(mem) ==> mem == old(mem)
      ensures x != old(mem) ==> exists ptr :: KeepsOutside(old(mem[..]), mem[..], ptr, Count(N))
      ensures mem == old(mem) || fresh(mem)
      ensures old(mem.Length) <= mem.Length
    {
      ghost var s := x[..];
      var p := Stage(N, x, strideX, offsetX);
      ghost var staged := mem[..];
      assert InBounds(N, p.stride, p.ptr + p.offset, mem.Length) by {
        if p.copy {
          InBoundsUnitStride(N, p.ptr, mem.Length);
        }
      }
      Kernel(N, alpha, p.ptr, p.stride, p.offset);
      if p.copy {
        ghost var computed := AddStrided(N, alpha, staged, 1, p.ptr);
        assert mem[..] == computed;
        StagedRoundTrip(s, alpha, strideX, offsetX, staged, p.ptr, N);
        assert x[..] == s;
        assert mem[p.ptr..p.ptr + Count(N)] == computed[p.ptr..p.ptr + Count(N)];
        KernelKeepsOutside(old(mem[..]), staged, N, alpha, p.ptr);
        ReadBack(N, p.ptr, x, strideX, offsetX);
        assert KeepsOutside(old(mem[..]), mem[..], p.ptr, Count(N));
      } else {
        assert x[..] == AddStrided(N, alpha, s, strideX, offsetX);
      }
      out := x;
    }

    /**
     * The simple entry point (`main` in the JavaScript object): the offset
     * comes from the stride by `Stride2Offset`, and the call is otherwise
     * `Ndarray`.
     */
    method Dapx(N: int, alpha: real, x: array<real>, strideX: int) returns (out: array<real>)
      requires initialized
      requires x == mem ==> InBounds(N, strideX, Stride2Offset(N, strideX), mem.Length)
      modifies this`mem, mem, x
      ensures out == x
      ensures N <= 0 ==> x[..] == old(x[..])
      ensures x == old(mem) ==> x[..] == AddStrided(N, alpha, old(x[..]), strideX, Stride2Offset(N, strideX))
      ensures x != old(mem) ==> x[..] == AddStrided(if strideX == 0 && N > 0 then 1 else N, alpha, old(x[..]), strideX, Stride2Offset(N, strideX))
      ensures x == old(mem) ==> mem == old(mem)
      ensures x != old(mem) ==> exists ptr :: KeepsOutside(old(mem[..]), mem[..], ptr, Count(N))
      ensures mem == old(mem) || fresh(mem)
      ensures old(mem.Length) <= mem.Length
    {
      out := Ndarray(N, alpha, x, strideX, Stride2Offset(N, strideX));
    }
  }
}
