/**
 * The documented and tested calls of the routine, checked against the
 * model's contracts. Every array but the last one's is the caller's own (not
 * module memory), so those calls take the copy path.
 */
module DapxExamples {
  import opened Strided
  import opened WasmDapx

  /** `main` with unit stride over the whole array. */
  method MainUnitStride() {
    var r := new Routine();
    r.InitializeSync();
    var x := new real[3];
    x[0], x[1], x[2] := 1.0, -2.0, 2.0;
    var out := r.Dapx(3, 5.0, x, 1);
    assert out == x && x[..] == [6.0, 3.0, 7.0];
  }

  /** `ndarray` over the last three elements. */
  method NdarrayOffset() {
    var r := new Routine();
    r.InitializeSync();
    var x := new real[6];
    x[0], x[1], x[2], x[3], x[4], x[5] := 1.0, -2.0, 3.0, -4.0, 5.0, -6.0;
    var out := r.Ndarray(3, 5.0, x, 1, 3);
    assert x[..] == [1.0, -2.0, 3.0, 1.0, 10.0, -1.0];
  }

  /** A negative stride from the last element visits the even indices. */
  method NdarrayNegativeStride() {
    var r := new Routine();
    r.InitializeSync();
    var x := new real[5];
    x[0], x[1], x[2], x[3], x[4] := 2.0, -3.0, -5.0, 7.0, 6.0;
    var out := r.Ndarray(3, 5.0, x, -2, 4);
    assert x[..] == [7.0, -3.0, 0.0, 7.0, 11.0];
  }

  /** The third visit (index 5) falls outside the array and is dropped; a non-positive count changes nothing. */
  method NdarrayTailAndEmpty() {
    var r := new Routine();
    r.InitializeSync();
    var x := new real[5];
    x[0], x[1], x[2], x[3], x[4] := 1.0, 2.0, 3.0, 4.0, 5.0;
    var out := r.Ndarray(3, 5.0, x, 2, 1);
    assert x[..] == [1.0, 7.0, 3.0, 9.0, 5.0];
    out := r.Ndarray(-1, 5.0, x, 1, 0);
    out := r.Ndarray(0, 5.0, x, 1, 0);
    assert x[..] == [1.0, 7.0, 3.0, 9.0, 5.0];
  }

  /** `main` over a whole array of eight. */
  method MainWholeArray() {
    var r := new Routine();
    r.InitializeSync();
    var x := new real[8];
    x[0], x[1], x[2], x[3], x[4], x[5], x[6], x[7] := -2.0, 1.0, 3.0, -5.0, 4.0, 0.0, -1.0, -3.0;
    UnitStrideKernel(8, 5.0, x[..], 0);
    var out := r.Dapx(8, 5.0, x, 1);
    assert x[..] == [3.0, 6.0, 8.0, 0.0, 9.0, 5.0, 4.0, 2.0];
  }

  /** `ndarray` with stride 2 from offset 1 changes only the odd indices. */
  method NdarrayOddIndices() {
    var r := new Routine();
    r.InitializeSync();
    var x := new real[8];
    x[0], x[1], x[2], x[3], x[4], x[5], x[6], x[7] := 2.0, 1.0, 2.0, -2.0, -2.0, 2.0, 3.0, 4.0;
    var out := r.Ndarray(4, 5.0, x, 2, 1);
    assert x[..] == [2.0, 6.0, 2.0, 3.0, -2.0, 7.0, 3.0, 9.0];
  }

  /** `ndarray` over a whole array of five, from offset 0. */
  method NdarrayWholeArray() {
    var r := new Routine();
    r.InitializeSync();
    var x := new real[5];
    x[0], x[1], x[2], x[3], x[4] := 1.0, 2.0, 3.0, 4.0, 5.0;
    var out := r.Ndarray(5, 5.0, x, 1, 0);
    assert out == x && x[..] == [6.0, 7.0, 8.0, 9.0, 10.0];
  }

  /** A positive stride from offset 0 gives the same array as the negative stride from the end. */
  method NdarrayPositiveStride() {
    var r := new Routine();
    r.InitializeSync();
    var x := new real[5];
    x[0], x[1], x[2], x[3], x[4] := 2.0, -3.0, -5.0, 7.0, 6.0;
    var out := r.Ndarray(3, 5.0, x, 2, 0);
    assert x[..] == [7.0, -3.0, 0.0, 7.0, 11.0];
  }

  /**
   * Stride 0 on the copy path: all three visits stage the same element, and
   * every read-back store lands on it, so it gains `alpha` once.
   */
  method NdarrayZeroStrideCopy() {
    var r := new Routine();
    r.InitializeSync();
    var x := new real[2];
    x[0], x[1] := 1.0, 2.0;
    var out := r.Ndarray(3, 5.0, x, 0, 0);
    assert x[..] == [6.0, 2.0];
  }

  /**
   * Stride 0 on an array that is module memory: no copy is made, and the
   * element gains `alpha` at every visit.
   */
  method NdarrayZeroStrideInPlace() {
    var r := new Routine();
    r.InitializeSync();
    var y := new real[3];
    var out := r.Ndarray(3, 1.0, y, 1, 0);
    assert r.mem.Length >= 3;
    var x := r.mem;
    var v := x[0];
    ZeroStrideAccumulates(3, 5.0, x[..], 0);
    out := r.Ndarray(3, 5.0, x, 0, 0);
    assert x[0] == v + 15.0;
  }
}
