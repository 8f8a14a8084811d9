/** The part of numpy that the spectral model relies on: real-valued
    n-dimensional arrays, inserting length-1 axes (`x[:, np.newaxis]`),
    elementwise functions, and elementwise binary operators under numpy's
    broadcasting rule. */
module NdArray {

  datatype Option<+T> = None | Some(value: T) {
    predicate IsFailure() { None? }

    function PropagateFailure<U>(): Option<U>
      requires None?
    {
      None
    }

    function Extract(): T
      requires Some?
    {
      value
    }
  }

  /** An array: its shape, and its entry at every index inside that shape
      (what `at` gives outside the shape means nothing). */
  datatype Tensor = Tensor(shape: seq<nat>, at: seq<nat> -> real)

  predicate InBounds(shape: seq<nat>, idx: seq<nat>) {
    |idx| == |shape| && forall k :: 0 <= k < |idx| ==> idx[k] < shape[k]
  }

  function Max(a: nat, b: nat): nat {
    if a < b then b else a
  }

  /** The length `s` shows on axis `k` of a rank-`n` broadcast: numpy lines
      the shapes up on their last axes and pads the shorter one with 1s on
      the left. */
  function AxisLen(s: seq<nat>, n: nat, k: nat): nat
    requires |s| <= n && k < n
  {
    if k < n - |s| then 1 else s[k - (n - |s|)]
  }

  /** numpy's broadcasting rule: on every axis the lengths agree or one is 1. */
  predicate Compatible(s: seq<nat>, t: seq<nat>) {
    var n := Max(|s|, |t|);
    forall k :: 0 <= k < n ==>
      AxisLen(s, n, k) == AxisLen(t, n, k) || AxisLen(s, n, k) == 1 || AxisLen(t, n, k) == 1
  }

  /** The shape of a broadcast: on each right-aligned axis the length that
      is not 1. */
  function BroadcastShape(s: seq<nat>, t: seq<nat>): seq<nat>
    requires Compatible(s, t)
  {
    var n := Max(|s|, |t|);
    seq(n, k requires 0 <= k < n => if AxisLen(s, n, k) == 1 then AxisLen(t, n, k) else AxisLen(s, n, k))
  }

  /** Axis `k` of a broadcast shape is the length an operand shows there
      that is not 1 (either, when both are 1). */
  lemma BroadcastAxis(s: seq<nat>, t: seq<nat>, k: nat)
    requires Compatible(s, t) && k < Max(|s|, |t|)
    ensures |BroadcastShape(s, t)| == Max(|s|, |t|)
    ensures AxisLen(s, Max(|s|, |t|), k) != 1 ==> BroadcastShape(s, t)[k] == AxisLen(s, Max(|s|, |t|), k)
    ensures AxisLen(t, Max(|s|, |t|), k) != 1 ==> BroadcastShape(s, t)[k] == AxisLen(t, Max(|s|, |t|), k)
  {
  }

  /** The broadcast shape is a shape both operands fit and on every axis
      at least one of them supplies; it does not depend on the order of the
      operands. */
  lemma BroadcastFits(s: seq<nat>, t: seq<nat>)
    requires Compatible(s, t)
    ensures Compatible(t, s) && BroadcastShape(s, t) == BroadcastShape(t, s)
    ensures Fits(s, BroadcastShape(s, t)) && Fits(t, BroadcastShape(s, t))
    ensures forall k :: 0 <= k < |BroadcastShape(s, t)| ==>
              Covers(s, BroadcastShape(s, t), k) || Covers(t, BroadcastShape(s, t), k)
  {
    var n := Max(|s|, |t|);
    var r := BroadcastShape(s, t);
    assert Max(|t|, |s|) == n;
    forall k | 0 <= k < n
      ensures r[k] == BroadcastShape(t, s)[k]
    {
      BroadcastAxis(s, t, k);
      BroadcastAxis(t, s, k);
    }
    forall j | 0 <= j < |s|
      ensures s[j] == 1 || s[j] == r[n - |s| + j]
    {
      BroadcastAxis(s, t, n - |s| + j);
    }
    forall j | 0 <= j < |t|
      ensures t[j] == 1 || t[j] == r[n - |t| + j]
    {
      BroadcastAxis(s, t, n - |t| + j);
    }
    forall k | 0 <= k < n
      ensures Covers(s, r, k) || Covers(t, r, k)
    {
      BroadcastAxis(s, t, k);
    }
  }

  /** The index into an operand of shape `s` that feeds entry `idx` of a
      broadcast result: the trailing coordinates of `idx`, with 0 on every
      axis where the operand has length 1. */
  function Align(s: seq<nat>, idx: seq<nat>): (r: seq<nat>)
    requires |s| <= |idx|
    ensures |r| == |s|
  {
    seq(|s|, j requires 0 <= j < |s| => if s[j] == 1 then 0 else idx[|idx| - |s| + j])
  }

  /** The value operand `t` contributes to entry `idx` of a broadcast (an
      operand of higher rank than `idx` contributes nothing meaningful). */
  function Val(t: Tensor, idx: seq<nat>): real {
    if |t.shape| <= |idx| then t.at(Align(t.shape, idx)) else 0.0
  }

  /** `a op b` with broadcasting; None where numpy raises "operands could not
      be broadcast together". */
  function Zip(a: Tensor, b: Tensor, op: (real, real) -> real): Option<Tensor> {
    if !Compatible(a.shape, b.shape) then None
    else
      Some(Tensor(BroadcastShape(a.shape, b.shape),
                  idx => if |a.shape| <= |idx| && |b.shape| <= |idx| then op(Val(a, idx), Val(b, idx)) else 0.0))
  }

  /** An elementwise function such as `x / c` or `x ** c` for a plain number c. */
  function Map(t: Tensor, f: real -> real): (r: Tensor)
    ensures r.shape == t.shape
  {
    Tensor(t.shape, idx => f(t.at(idx)))
  }

  /** A plain number, which numpy treats as an array of shape (). */
  function Const(v: real): (r: Tensor)
    ensures r.shape == []
  {
    Tensor([], idx => v)
  }

  function Vector(v: seq<real>): Tensor {
    Tensor([|v|], idx => if |idx| == 1 && idx[0] < |v| then v[idx[0]] else 0.0)
  }

  predicate IsMatrix(m: seq<seq<real>>) {
    forall i :: 0 <= i < |m| ==> |m[i]| == |m[0]|
  }

  function Cols(m: seq<seq<real>>): nat {
    if |m| == 0 then 0 else |m[0]|
  }

  /** A two-dimensional array given row by row. */
  function Matrix(m: seq<seq<real>>): Tensor
    requires IsMatrix(m)
  {
    Tensor([|m|, Cols(m)],
           idx => if |idx| == 2 && idx[0] < |m| && idx[1] < |m[idx[0]]| then m[idx[0]][idx[1]] else 0.0)
  }

  /** `np.diag(v)` for a one-dimensional `v`: the square matrix with `v` on
      its diagonal and 0 elsewhere. */
  function DiagMatrix(v: seq<real>): Tensor {
    Tensor([|v|, |v|], idx => if |idx| == 2 && idx[0] < |v| && idx[0] == idx[1] then v[idx[0]] else 0.0)
  }

  /** `np.arange(start, stop, 1.)` for whole-number bounds: the numbers
      start, start + 1, ..., stop - 1, and nothing when stop <= start. */
  function Arange(start: int, stop: int): Tensor {
    Tensor([if start < stop then stop - start else 0], idx => if |idx| == 1 then (start + idx[0]) as real else 0.0)
  }

  /** `idx` without its coordinate on axis `k`. */
  function Drop(idx: seq<nat>, k: nat): (r: seq<nat>)
    ensures k < |idx| ==> |r| == |idx| - 1
    ensures k < |idx| ==> forall j :: 0 <= j < k ==> r[j] == idx[j]
    ensures k < |idx| ==> forall j :: k <= j < |idx| - 1 ==> r[j] == idx[j + 1]
  {
    if k < |idx| then idx[..k] + idx[k + 1..] else idx
  }

  /** Indexing with `np.newaxis` in position `k`: a new axis of length 1. */
  function NewAxis(t: Tensor, k: nat): Tensor
    requires k <= |t.shape|
  {
    Tensor(t.shape[..k] + [1] + t.shape[k..], idx => t.at(Drop(idx, k)))
  }

  /** An index of the widened array has 0 on the new axis, and without that
      coordinate it is an index of the original array. */
  lemma NewAxisIndex(t: Tensor, k: nat, idx: seq<nat>)
    requires k <= |t.shape| && InBounds(NewAxis(t, k).shape, idx)
    ensures idx[k] == 0
    ensures InBounds(t.shape, Drop(idx, k))
  {
    var s := NewAxis(t, k).shape;
    assert s[k] == 1;
    var d := Drop(idx, k);
    forall j | 0 <= j < |d|
      ensures d[j] < t.shape[j]
    {
      if j < k {
        assert s[j] == t.shape[j];
      } else {
        assert s[j + 1] == t.shape[j];
      }
    }
  }

  // ---------------------------------------------------------------------
  // Broadcasting towards a known target shape
  // ---------------------------------------------------------------------

  /** Shape `s` broadcasts into `target` without changing it: on each of its
      axes it has length 1 or the target's length. */
  predicate Fits(s: seq<nat>, target: seq<nat>) {
    |s| <= |target| && forall j :: 0 <= j < |s| ==> s[j] == 1 || s[j] == target[|target| - |s| + j]
  }

  /** Shape `s` supplies the full length of `target`'s axis `k`. */
  predicate Covers(s: seq<nat>, target: seq<nat>, k: nat)
    requires |s| <= |target| && k < |target|
  {
    AxisLen(s, |target|, k) == target[k]
  }

  lemma AxisLenShift(s: seq<nat>, n: nat, m: nat, k: nat)
    requires |s| <= n <= m && k < n
    ensures AxisLen(s, n, k) == AxisLen(s, m, k + (m - n))
  {
  }

  lemma FitsAxisLen(s: seq<nat>, target: seq<nat>, k: nat)
    requires Fits(s, target) && k < |target|
    ensures AxisLen(s, |target|, k) == 1 || AxisLen(s, |target|, k) == target[k]
  {
    if k >= |target| - |s| {
      var j := k - (|target| - |s|);
      assert s[j] == 1 || s[j] == target[|target| - |s| + j];
    }
  }

  /** Reading an operand through the result's index gives the operand's own
      broadcast index. */
  lemma AlignThrough(a: Tensor, b: Tensor, idx: seq<nat>)
    requires Compatible(a.shape, b.shape)
    requires |BroadcastShape(a.shape, b.shape)| <= |idx|
    ensures Align(a.shape, Align(BroadcastShape(a.shape, b.shape), idx)) == Align(a.shape, idx)
  {
    var s := BroadcastShape(a.shape, b.shape);
    var n := |s|;
    var inner := Align(s, idx);
    forall j | 0 <= j < |a.shape|
      ensures Align(a.shape, inner)[j] == Align(a.shape, idx)[j]
    {
      var i := n - |a.shape| + j;
      assert AxisLen(a.shape, n, i) == a.shape[j];
      if a.shape[j] != 1 {
        assert s[i] == a.shape[j];
        assert inner[i] == idx[|idx| - n + i];
      }
    }
  }

  lemma AlignThroughRight(a: Tensor, b: Tensor, idx: seq<nat>)
    requires Compatible(a.shape, b.shape)
    requires |BroadcastShape(a.shape, b.shape)| <= |idx|
    ensures Align(b.shape, Align(BroadcastShape(a.shape, b.shape), idx)) == Align(b.shape, idx)
  {
    var s := BroadcastShape(a.shape, b.shape);
    var n := |s|;
    var inner := Align(s, idx);
    forall j | 0 <= j < |b.shape|
      ensures Align(b.shape, inner)[j] == Align(b.shape, idx)[j]
    {
      var i := n - |b.shape| + j;
      assert AxisLen(b.shape, n, i) == b.shape[j];
      if b.shape[j] != 1 {
        assert Compatible(a.shape, b.shape);
        assert AxisLen(a.shape, n, i) == b.shape[j] || AxisLen(a.shape, n, i) == 1;
        assert s[i] == b.shape[j];
        assert inner[i] == idx[|idx| - n + i];
      }
    }
  }

  /** Broadcasting two operands that both fit a target shape succeeds, fits
      the target, supplies every axis either operand supplied, and at every
      index of the target combines the two operands' broadcast values. */
  lemma ZipBroadcast(a: Tensor, b: Tensor, op: (real, real) -> real, target: seq<nat>)
    requires Fits(a.shape, target) && Fits(b.shape, target)
    ensures Zip(a, b, op).Some?
    ensures |Zip(a, b, op).value.shape| == Max(|a.shape|, |b.shape|)
    ensures Fits(Zip(a, b, op).value.shape, target)
    ensures forall k :: 0 <= k < |target| && (Covers(a.shape, target, k) || Covers(b.shape, target, k)) ==>
              Covers(Zip(a, b, op).value.shape, target, k)
    ensures forall idx :: InBounds(target, idx) ==> Val(Zip(a, b, op).value, idx) == op(Val(a, idx), Val(b, idx))
  {
    var n := Max(|a.shape|, |b.shape|);
    var m := |target|;
    forall k | 0 <= k < n
      ensures AxisLen(a.shape, n, k) == 1 || AxisLen(a.shape, n, k) == target[k + (m - n)]
      ensures AxisLen(b.shape, n, k) == 1 || AxisLen(b.shape, n, k) == target[k + (m - n)]
    {
      AxisLenShift(a.shape, n, m, k);
      AxisLenShift(b.shape, n, m, k);
      FitsAxisLen(a.shape, target, k + (m - n));
      FitsAxisLen(b.shape, target, k + (m - n));
    }
    assert Compatible(a.shape, b.shape);
    var s := BroadcastShape(a.shape, b.shape);
    var r := Zip(a, b, op).value;
    assert r.shape == s;
    forall k | 0 <= k < m && (Covers(a.shape, target, k) || Covers(b.shape, target, k))
      ensures Covers(s, target, k)
    {
      if k >= m - n {
        AxisLenShift(a.shape, n, m, k - (m - n));
        AxisLenShift(b.shape, n, m, k - (m - n));
      }
    }
    forall idx | InBounds(target, idx)
      ensures Val(r, idx) == op(Val(a, idx), Val(b, idx))
    {
      var inner := Align(s, idx);
      AlignThrough(a, b, idx);
      AlignThroughRight(a, b, idx);
      assert r.at(inner) == op(Val(a, inner), Val(b, inner));
    }
  }

  /** An index of the target, seen through an operand that fits it, stays
      within the operand's shape and keeps every coordinate on the axes the
      operand supplies. */
  lemma ValIndex(t: Tensor, target: seq<nat>, idx: seq<nat>)
    requires Fits(t.shape, target) && InBounds(target, idx)
    ensures InBounds(t.shape, Align(t.shape, idx))
    ensures forall j :: 0 <= j < |t.shape| && t.shape[j] == target[|target| - |t.shape| + j] ==>
              Align(t.shape, idx)[j] == idx[|target| - |t.shape| + j]
  {
  }

  lemma ShapeFromCovers(s: seq<nat>, target: seq<nat>)
    requires |s| == |target|
    requires forall k :: 0 <= k < |target| ==> Covers(s, target, k)
    ensures s == target
  {
    forall k | 0 <= k < |s|
      ensures s[k] == target[k]
    {
      assert Covers(s, target, k);
    }
  }

  /** When the two operands together supply every axis of the target, their
      broadcast has exactly the target's shape. */
  lemma ZipExact(a: Tensor, b: Tensor, op: (real, real) -> real, target: seq<nat>)
    requires Fits(a.shape, target) && Fits(b.shape, target)
    requires Max(|a.shape|, |b.shape|) == |target|
    requires forall k :: 0 <= k < |target| ==> Covers(a.shape, target, k) || Covers(b.shape, target, k)
    ensures Zip(a, b, op).Some?
    ensures Zip(a, b, op).value.shape == target
    ensures forall idx :: InBounds(target, idx) ==> Zip(a, b, op).value.at(idx) == op(Val(a, idx), Val(b, idx))
  {
    ZipBroadcast(a, b, op, target);
    var r := Zip(a, b, op).value;
    ShapeFromCovers(r.shape, target);
    forall idx | InBounds(target, idx)
      ensures r.at(idx) == op(Val(a, idx), Val(b, idx))
    {
      ValOwn(r, idx);
    }
  }

  /** On an index of its own shape a tensor contributes its own entry. */
  lemma ValOwn(t: Tensor, idx: seq<nat>)
    requires InBounds(t.shape, idx)
    ensures Val(t, idx) == t.at(idx)
  {
    assert Align(t.shape, idx) == idx;
  }
}
