/** `power_law` of models.py: the cross-power-spectrum of a component that is
    a power law in frequency and in multipoles,

      cross[c1, c2, f1, f2, l] = amplitude[c1, c2] * ells[l] ** alpha[c1, c2]
                                 * sed[c2, f2] * sed[c1, f1]

    where each of `beta`, `alpha` and `amplitude` is either a plain number or
    resolved per component (TEB), and the component axes (c1, c2) exist only
    when at least one of them is.  Real exponentiation `x ** y` is not
    modelled: every member takes it as the parameter `pow`. */
module Models {
  import opened NdArray

  type PowFn = (real, real) -> real

  /** `beta` and `alpha`: one number, or one number per component. */
  datatype Param = Scalar(value: real) | PerComp(values: seq<real>)

  /** `amplitude`: one number, a one-dimensional array (the diagonal of the
      component matrix), or the full component matrix. */
  datatype Amp = AScalar(value: real) | Diag(diagonal: seq<real>) | Full(rows: seq<seq<real>>)

  /** The arguments of `power_law`, with `lmin` and `lmax` whole numbers. */
  datatype Inputs = Inputs(freq: seq<real>, freq0: real, beta: Param,
                           lmin: int, lmax: int, ell0: real,
                           alpha: Param, amplitude: Amp)
  {
    /** The divisions by `freq0` and `ell0` are defined, and a matrix
        amplitude is rectangular, as every two-dimensional array is. */
    predicate Valid() {
      freq0 != 0.0 && ell0 != 0.0 && (amplitude.Full? ==> IsMatrix(amplitude.rows))
    }
  }

  function Times(x: real, y: real): real { x * y }

  function Plus(x: real, y: real): real { x + y }

  // ---------------------------------------------------------------------
  // The evaluation, step by step as the source builds its arrays
  // ---------------------------------------------------------------------

  /** `np.arange(lmin, lmax + 1, 1.) / ell0`. */
  function Ells(p: Inputs): (r: Tensor)
    requires p.ell0 != 0.0
    ensures r.shape == [if p.lmin <= p.lmax then p.lmax - p.lmin + 1 else 0]
    ensures forall idx :: InBounds(r.shape, idx) ==>
              p.lmin + idx[0] <= p.lmax && r.at(idx) == (p.lmin + idx[0]) as real / p.ell0
  {
    Map(Arange(p.lmin, p.lmax + 1), x => x / p.ell0)
  }

  /** `freq / freq0`. */
  function FreqRatio(p: Inputs): (r: Tensor)
    requires p.freq0 != 0.0
    ensures r.shape == [|p.freq|]
    ensures forall idx :: InBounds(r.shape, idx) ==> r.at(idx) == p.freq[idx[0]] / p.freq0
  {
    Map(Vector(p.freq), x => x / p.freq0)
  }

  /** The pair (`sed`, `sed_t`): shapes (TEB, 1, freq, 1) and
      (TEB, 1, freq, 1, 1) for a per-component `beta`, (freq, 1) and
      (freq, 1, 1) for a plain one. */
  function Sed(pow: PowFn, p: Inputs): Option<(Tensor, Tensor)>
    requires p.freq0 != 0.0
  {
    var ratio := FreqRatio(p);
    match p.beta
    case PerComp(b) =>
      var sed :- Zip(ratio, NewAxis(Vector(b), 1), pow);
      var sed4 := NewAxis(NewAxis(sed, 1), 3);
      Some((sed4, NewAxis(sed4, 4)))
    case Scalar(b) =>
      var sed := NewAxis(Map(ratio, x => pow(x, b)), 1);
      Some((sed, NewAxis(sed, 1)))
  }

  /** `t[:, :, np.newaxis, np.newaxis, np.newaxis]` for a two-dimensional
      `t` (written `t[..., np.newaxis, np.newaxis, np.newaxis]` for alpha). */
  function Widen(t: Tensor): (r: Tensor)
    requires |t.shape| == 2
    ensures r.shape == t.shape + [1, 1, 1]
  {
    NewAxis(NewAxis(NewAxis(t, 2), 3), 4)
  }

  /** The multipole exponent: the plain `alpha`, or
      `(alpha + alpha[:, np.newaxis]) / 2.` widened to (TEB, TEB, 1, 1, 1). */
  function AlphaExponent(alpha: Param): Option<Tensor> {
    match alpha
    case Scalar(a) => Some(Const(a))
    case PerComp(a) =>
      var sum :- Zip(Vector(a), NewAxis(Vector(a), 1), Plus);
      var pair := Map(sum, x => x / 2.0);
      Some(Widen(pair))
  }

  /** The amplitude: the plain number, or the (TEB, TEB) matrix, built with
      `np.diag` from a one-dimensional amplitude, widened to
      (TEB, TEB, 1, 1, 1). */
  function AmplitudeFactor(amp: Amp): Tensor
    requires amp.Full? ==> IsMatrix(amp.rows)
  {
    match amp
    case AScalar(a) => Const(a)
    case Diag(d) => Widen(DiagMatrix(d))
    case Full(m) => Widen(Matrix(m))
  }

  /** `ells**alpha`. */
  function Scaling(pow: PowFn, p: Inputs): Option<Tensor>
    requires p.ell0 != 0.0
  {
    var alpha :- AlphaExponent(p.alpha);
    Zip(Ells(p), alpha, pow)
  }

  /** `amplitude * ells**alpha * sed * sed_t`; None where numpy could not
      broadcast the operands together. */
  function PowerLaw(pow: PowFn, p: Inputs): Option<Tensor>
    requires p.Valid()
  {
    var seds :- Sed(pow, p);
    var scaling :- Scaling(pow, p);
    Product(AmplitudeFactor(p.amplitude), scaling, seds.0, seds.1)
  }

  /** `a * b * c * d`, multiplied left to right with broadcasting. */
  function Product(a: Tensor, b: Tensor, c: Tensor, d: Tensor): Option<Tensor> {
    var ab :- Zip(a, b, Times);
    var abc :- Zip(ab, c, Times);
    Zip(abc, d, Times)
  }

  // ---------------------------------------------------------------------
  // The result entry by entry
  // ---------------------------------------------------------------------

  /** True when some input carries the component dimension. */
  predicate HasComponents(p: Inputs) {
    p.beta.PerComp? || p.alpha.PerComp? || !p.amplitude.AScalar?
  }

  /** Every component-resolved input has `count` components (and a matrix
      amplitude is `count` by `count`). */
  predicate Consistent(p: Inputs, count: nat) {
    && (p.beta.PerComp? ==> |p.beta.values| == count)
    && (p.alpha.PerComp? ==> |p.alpha.values| == count)
    && (p.amplitude.Diag? ==> |p.amplitude.diagonal| == count)
    && (p.amplitude.Full? ==> |p.amplitude.rows| == count && Cols(p.amplitude.rows) == count)
  }

  function NumEll(p: Inputs): nat {
    if p.lmin <= p.lmax then p.lmax - p.lmin + 1 else 0
  }

  /** ([TEB, TEB,] freq, freq, ell). */
  function OutShape(p: Inputs, count: nat): seq<nat> {
    if HasComponents(p) then [count, count, |p.freq|, |p.freq|, NumEll(p)]
    else [|p.freq|, |p.freq|, NumEll(p)]
  }

  function BetaAt(beta: Param, c: nat): real
    requires beta.PerComp? ==> c < |beta.values|
  {
    match beta
    case Scalar(b) => b
    case PerComp(b) => b[c]
  }

  /** `(freq[f] / freq0) ** beta[c]`. */
  function SedAt(pow: PowFn, p: Inputs, c: nat, f: nat): real
    requires p.freq0 != 0.0 && f < |p.freq|
    requires p.beta.PerComp? ==> c < |p.beta.values|
  {
    pow(p.freq[f] / p.freq0, BetaAt(p.beta, c))
  }

  /** The exponent of the cross-spectrum between two components: the mean of
      the components' own exponents. */
  function AlphaPair(a: seq<real>, c1: nat, c2: nat): real
    requires c1 < |a| && c2 < |a|
  {
    (a[c1] + a[c2]) / 2.0
  }

  function AlphaAt(alpha: Param, c1: nat, c2: nat): real
    requires alpha.PerComp? ==> c1 < |alpha.values| && c2 < |alpha.values|
  {
    match alpha
    case Scalar(a) => a
    case PerComp(a) => AlphaPair(a, c1, c2)
  }

  function AmpAt(amp: Amp, c1: nat, c2: nat): real
    requires amp.Diag? ==> c1 < |amp.diagonal| && c2 < |amp.diagonal|
    requires amp.Full? ==> c1 < |amp.rows| && c2 < |amp.rows[c1]|
  {
    match amp
    case AScalar(a) => a
    case Diag(d) => if c1 == c2 then d[c1] else 0.0
    case Full(m) => m[c1][c2]
  }

  /** Multipole `lmin + l` over `ell0`. */
  function EllAt(p: Inputs, l: nat): real
    requires p.ell0 != 0.0
  {
    (p.lmin + l) as real / p.ell0
  }

  predicate IndexOk(p: Inputs, count: nat, c1: nat, c2: nat, f1: nat, f2: nat) {
    (HasComponents(p) ==> c1 < count && c2 < count) && f1 < |p.freq| && f2 < |p.freq|
  }

  /** The entry (c1, c2, f1, f2, l), in the order the source multiplies:
      amplitude, multipole power law, `sed` (second component and frequency),
      `sed_t` (first component and frequency). */
  function Entry(pow: PowFn, p: Inputs, count: nat, c1: nat, c2: nat, f1: nat, f2: nat, l: nat): real
    requires p.Valid() && Consistent(p, count) && IndexOk(p, count, c1, c2, f1, f2)
  {
    AmpAt(p.amplitude, c1, c2) * pow(EllAt(p, l), AlphaAt(p.alpha, c1, c2))
      * SedAt(pow, p, c2, f2) * SedAt(pow, p, c1, f1)
  }

  // Coordinates of an index of the output; without component axes both
  // component coordinates read as 0.
  function Comp1(idx: seq<nat>): nat { if |idx| == 5 then idx[0] else 0 }
  function Comp2(idx: seq<nat>): nat { if |idx| == 5 then idx[1] else 0 }
  function Freq1(idx: seq<nat>): nat requires 3 <= |idx| { idx[|idx| - 3] }
  function Freq2(idx: seq<nat>): nat requires 3 <= |idx| { idx[|idx| - 2] }
  function EllIndex(idx: seq<nat>): nat requires 3 <= |idx| { idx[|idx| - 1] }

  function EntryAt(pow: PowFn, p: Inputs, count: nat, idx: seq<nat>): real
    requires p.Valid() && Consistent(p, count) && InBounds(OutShape(p, count), idx)
  {
    Entry(pow, p, count, Comp1(idx), Comp2(idx), Freq1(idx), Freq2(idx), EllIndex(idx))
  }
  // ---------------------------------------------------------------------
  // The factors, each in its own shape
  // ---------------------------------------------------------------------

  /** `(freq / freq0)**beta[:, np.newaxis]` is the (TEB, freq) array of
      `(freq[f] / freq0) ** beta[c]` (models.py:42). */
  lemma SedGrid(pow: PowFn, p: Inputs, b: seq<real>)
    requires p.freq0 != 0.0 && p.beta == PerComp(b)
    ensures Zip(FreqRatio(p), NewAxis(Vector(b), 1), pow).Some?
    ensures Zip(FreqRatio(p), NewAxis(Vector(b), 1), pow).value.shape == [|b|, |p.freq|]
    ensures forall idx :: InBounds([|b|, |p.freq|], idx) ==>
              Zip(FreqRatio(p), NewAxis(Vector(b), 1), pow).value.at(idx) == SedAt(pow, p, idx[0], idx[1])
  {
    var ratio := FreqRatio(p);
    var col := NewAxis(Vector(b), 1);
    var target := [|b|, |p.freq|];
    assert col.shape == [|b|, 1];
    assert Covers(col.shape, target, 0) && Covers(ratio.shape, target, 1);
    ZipExact(ratio, col, pow, target);
    forall idx | InBounds(target, idx)
      ensures Zip(ratio, col, pow).value.at(idx) == SedAt(pow, p, idx[0], idx[1])
    {
      ValIndex(ratio, target, idx);
      ValIndex(col, target, idx);
      NewAxisIndex(Vector(b), 1, Align(col.shape, idx));
    }
  }

  /** With a per-component `beta`, `sed` (TEB, 1, freq, 1) and `sed_t`
      (TEB, 1, freq, 1, 1) both hold `(freq[f] / freq0) ** beta[c]` at
      component c and frequency f (models.py:42-44).  The three lemmas
      after it prove the parts separately, which keeps each proof small. */
  lemma SedEntriesPerComp(pow: PowFn, p: Inputs)
    requires p.freq0 != 0.0 && p.beta.PerComp?
    ensures Sed(pow, p).Some?
    ensures Sed(pow, p).value.0.shape == [|p.beta.values|, 1, |p.freq|, 1]
    ensures Sed(pow, p).value.1.shape == [|p.beta.values|, 1, |p.freq|, 1, 1]
    ensures forall idx :: InBounds(Sed(pow, p).value.0.shape, idx) ==>
              Sed(pow, p).value.0.at(idx) == SedAt(pow, p, idx[0], idx[2])
    ensures forall idx :: InBounds(Sed(pow, p).value.1.shape, idx) ==>
              Sed(pow, p).value.1.at(idx) == SedAt(pow, p, idx[0], idx[2])
  {
    SedOwnShapesPerComp(pow, p);
    SedValuesPerComp(pow, p);
    SedTValuesPerComp(pow, p);
  }

  /** The shapes of `sed` and `sed_t` for a per-component `beta`. */
  lemma SedOwnShapesPerComp(pow: PowFn, p: Inputs)
    requires p.freq0 != 0.0 && p.beta.PerComp?
    ensures Sed(pow, p).Some?
    ensures Sed(pow, p).value.0.shape == [|p.beta.values|, 1, |p.freq|, 1]
    ensures Sed(pow, p).value.1.shape == [|p.beta.values|, 1, |p.freq|, 1, 1]
  {
    SedGrid(pow, p, p.beta.values);
  }

  /** The entries of `sed` for a per-component `beta`. */
  lemma SedValuesPerComp(pow: PowFn, p: Inputs)
    requires p.freq0 != 0.0 && p.beta.PerComp?
    ensures Sed(pow, p).Some?
    ensures Sed(pow, p).value.0.shape == [|p.beta.values|, 1, |p.freq|, 1]
    ensures forall idx :: InBounds(Sed(pow, p).value.0.shape, idx) ==>
              Sed(pow, p).value.0.at(idx) == SedAt(pow, p, idx[0], idx[2])
  {
    var b := p.beta.values;
    SedOwnShapesPerComp(pow, p);
    SedGrid(pow, p, b);
    var sed := Zip(FreqRatio(p), NewAxis(Vector(b), 1), pow).value;
    var t3 := NewAxis(sed, 1);
    forall idx | InBounds(Sed(pow, p).value.0.shape, idx)
      ensures Sed(pow, p).value.0.at(idx) == SedAt(pow, p, idx[0], idx[2])
    {
      NewAxisIndex(t3, 3, idx);
      var d3 := Drop(idx, 3);
      NewAxisIndex(sed, 1, d3);
      assert Drop(d3, 1) == [idx[0], idx[2]];
    }
  }

  /** The entries of `sed_t` for a per-component `beta`. */
  lemma SedTValuesPerComp(pow: PowFn, p: Inputs)
    requires p.freq0 != 0.0 && p.beta.PerComp?
    ensures Sed(pow, p).Some?
    ensures Sed(pow, p).value.1.shape == [|p.beta.values|, 1, |p.freq|, 1, 1]
    ensures forall idx :: InBounds(Sed(pow, p).value.1.shape, idx) ==>
              Sed(pow, p).value.1.at(idx) == SedAt(pow, p, idx[0], idx[2])
  {
    SedOwnShapesPerComp(pow, p);
    SedValuesPerComp(pow, p);
    var sed4 := Sed(pow, p).value.0;
    forall idx | InBounds(Sed(pow, p).value.1.shape, idx)
      ensures Sed(pow, p).value.1.at(idx) == SedAt(pow, p, idx[0], idx[2])
    {
      NewAxisIndex(sed4, 4, idx);
      assert Drop(idx, 4)[0] == idx[0] && Drop(idx, 4)[2] == idx[2];
    }
  }

  /** With a plain `beta`, `sed` (freq, 1) and `sed_t` (freq, 1, 1) both hold
      `(freq[f] / freq0) ** beta` at frequency f (models.py:46-48). */
  lemma SedEntriesScalar(pow: PowFn, p: Inputs)
    requires p.freq0 != 0.0 && p.beta.Scalar?
    ensures Sed(pow, p).Some?
    ensures Sed(pow, p).value.0.shape == [|p.freq|, 1]
    ensures Sed(pow, p).value.1.shape == [|p.freq|, 1, 1]
    ensures forall idx :: InBounds(Sed(pow, p).value.0.shape, idx) ==>
              Sed(pow, p).value.0.at(idx) == SedAt(pow, p, 0, idx[0])
    ensures forall idx :: InBounds(Sed(pow, p).value.1.shape, idx) ==>
              Sed(pow, p).value.1.at(idx) == SedAt(pow, p, 0, idx[0])
  {
    var b := p.beta.value;
    var grid := Map(FreqRatio(p), x => pow(x, b));
    ColumnEntries(grid);
    forall idx | InBounds([|p.freq|], idx)
      ensures grid.at(idx) == SedAt(pow, p, 0, idx[0])
    {
    }
  }

  /** `t[:, np.newaxis]` and `t[:, np.newaxis, np.newaxis]` of a
      one-dimensional `t` hold at each index the entry of `t` at the first
      coordinate. */
  lemma ColumnEntries(t: Tensor)
    requires |t.shape| == 1
    ensures forall idx :: InBounds(NewAxis(t, 1).shape, idx) ==>
              InBounds(t.shape, [idx[0]]) && NewAxis(t, 1).at(idx) == t.at([idx[0]])
    ensures forall idx :: InBounds(NewAxis(NewAxis(t, 1), 1).shape, idx) ==>
              InBounds(t.shape, [idx[0]]) && NewAxis(NewAxis(t, 1), 1).at(idx) == t.at([idx[0]])
  {
    var t2 := NewAxis(t, 1);
    forall idx | InBounds(t2.shape, idx)
      ensures InBounds(t.shape, [idx[0]]) && t2.at(idx) == t.at([idx[0]])
    {
      NewAxisIndex(t, 1, idx);
      assert Drop(idx, 1) == [idx[0]];
    }
    forall idx | InBounds(NewAxis(t2, 1).shape, idx)
      ensures InBounds(t.shape, [idx[0]]) && NewAxis(t2, 1).at(idx) == t.at([idx[0]])
    {
      NewAxisIndex(t2, 1, idx);
      assert Drop(idx, 1)[0] == idx[0];
    }
  }

  /** Every entry of the widened array is the entry of `t` at its first two
      coordinates. */
  lemma WidenEntries(t: Tensor)
    requires |t.shape| == 2
    ensures forall idx :: InBounds(Widen(t).shape, idx) ==>
              InBounds(t.shape, [idx[0], idx[1]]) && Widen(t).at(idx) == t.at([idx[0], idx[1]])
  {
    var t3 := NewAxis(t, 2);
    var t4 := NewAxis(t3, 3);
    forall idx | InBounds(Widen(t).shape, idx)
      ensures InBounds(t.shape, [idx[0], idx[1]]) && Widen(t).at(idx) == t.at([idx[0], idx[1]])
    {
      NewAxisIndex(t4, 4, idx);
      var d4 := Drop(idx, 4);
      NewAxisIndex(t3, 3, d4);
      var d3 := Drop(d4, 3);
      NewAxisIndex(t, 2, d3);
      assert Drop(d3, 2) == [idx[0], idx[1]];
    }
  }

  /** With a per-component `alpha`, the exponent array is (TEB, TEB, 1, 1, 1)
      and holds `(alpha[c1] + alpha[c2]) / 2` at (c1, c2) (models.py:51-52). */
  lemma AlphaEntriesPerComp(a: seq<real>)
    ensures AlphaExponent(PerComp(a)).Some?
    ensures AlphaExponent(PerComp(a)).value.shape == [|a|, |a|, 1, 1, 1]
    ensures forall idx :: InBounds(AlphaExponent(PerComp(a)).value.shape, idx) ==>
              AlphaExponent(PerComp(a)).value.at(idx) == AlphaPair(a, idx[0], idx[1])
  {
    var row := Vector(a);
    var col := NewAxis(Vector(a), 1);
    var target := [|a|, |a|];
    assert col.shape == [|a|, 1];
    assert Covers(col.shape, target, 0) && Covers(row.shape, target, 1);
    ZipExact(row, col, Plus, target);
    var sum := Zip(row, col, Plus).value;
    var pair := Map(sum, x => x / 2.0);
    forall idx | InBounds(target, idx)
      ensures pair.at(idx) == AlphaPair(a, idx[0], idx[1])
    {
      ValIndex(row, target, idx);
      ValIndex(col, target, idx);
      NewAxisIndex(Vector(a), 1, Align(col.shape, idx));
    }
    WidenEntries(pair);
  }

  /** A one-dimensional amplitude becomes the diagonal matrix, a matrix stays
      as it is, and either is widened to (TEB, TEB, 1, 1, 1)
      (models.py:56-59). */
  lemma AmplitudeEntries(amp: Amp)
    requires amp.Full? ==> IsMatrix(amp.rows)
    ensures amp.Diag? ==> AmplitudeFactor(amp).shape == [|amp.diagonal|, |amp.diagonal|, 1, 1, 1]
    ensures amp.Full? ==> AmplitudeFactor(amp).shape == [|amp.rows|, Cols(amp.rows), 1, 1, 1]
    ensures !amp.AScalar? ==> forall idx :: InBounds(AmplitudeFactor(amp).shape, idx) ==>
              AmplitudeFactor(amp).at(idx) == AmpAt(amp, idx[0], idx[1])
  {
    match amp
    case AScalar(_) =>
    case Diag(d) => WidenEntries(DiagMatrix(d));
    case Full(m) => WidenEntries(Matrix(m));
  }

  // ---------------------------------------------------------------------
  // The factors, broadcast to the output shape
  // ---------------------------------------------------------------------

  /** The amplitude factor fits the output and, unless it is a plain number,
      supplies both component axes (models.py:56-61). */
  lemma AmplitudeShape(p: Inputs, count: nat)
    requires p.Valid() && Consistent(p, count)
    ensures Fits(AmplitudeFactor(p.amplitude).shape, OutShape(p, count))
    ensures p.amplitude.AScalar? ==> |AmplitudeFactor(p.amplitude).shape| == 0
    ensures !p.amplitude.AScalar? ==>
              && |AmplitudeFactor(p.amplitude).shape| == 5
              && Covers(AmplitudeFactor(p.amplitude).shape, OutShape(p, count), 0)
              && Covers(AmplitudeFactor(p.amplitude).shape, OutShape(p, count), 1)
  {
    AmplitudeEntries(p.amplitude);
    if !p.amplitude.AScalar? {
      assert OutShape(p, count) == [count, count, |p.freq|, |p.freq|, NumEll(p)];
      assert AmplitudeFactor(p.amplitude).shape == [count, count, 1, 1, 1];
    }
  }

  /** At every index of the output the amplitude factor contributes
      `amplitude[c1, c2]` (models.py:56-61, 63). */
  lemma AmplitudeValues(p: Inputs, count: nat, idx: seq<nat>)
    requires p.Valid() && Consistent(p, count) && InBounds(OutShape(p, count), idx)
    ensures Val(AmplitudeFactor(p.amplitude), idx) == AmpAt(p.amplitude, Comp1(idx), Comp2(idx))
  {
    AmplitudeShape(p, count);
    AmplitudeEntries(p.amplitude);
    ValIndex(AmplitudeFactor(p.amplitude), OutShape(p, count), idx);
  }

  /** The multipole axis fits the output and supplies its last axis; the
      exponent array fits it and, when per-component, supplies both
      component axes (models.py:39, 50-54). */
  lemma EllsAndAlphaFit(p: Inputs, count: nat)
    requires p.Valid() && Consistent(p, count)
    ensures AlphaExponent(p.alpha).Some?
    ensures Fits(Ells(p).shape, OutShape(p, count))
    ensures Covers(Ells(p).shape, OutShape(p, count), |OutShape(p, count)| - 1)
    ensures Fits(AlphaExponent(p.alpha).value.shape, OutShape(p, count))
    ensures |AlphaExponent(p.alpha).value.shape| == (if p.alpha.PerComp? then 5 else 0)
    ensures p.alpha.PerComp? ==>
              && Covers(AlphaExponent(p.alpha).value.shape, OutShape(p, count), 0)
              && Covers(AlphaExponent(p.alpha).value.shape, OutShape(p, count), 1)
  {
    if p.alpha.PerComp? {
      AlphaEntriesPerComp(p.alpha.values);
    }
  }

  /** `ells**alpha` fits the output, supplies the multipole axis and, for a
      per-component `alpha`, both component axes (models.py:39, 50-54, 63). */
  lemma ScalingShape(pow: PowFn, p: Inputs, count: nat)
    requires p.Valid() && Consistent(p, count)
    ensures Scaling(pow, p).Some?
    ensures Fits(Scaling(pow, p).value.shape, OutShape(p, count))
    ensures |Scaling(pow, p).value.shape| == (if p.alpha.PerComp? then 5 else 1)
    ensures Covers(Scaling(pow, p).value.shape, OutShape(p, count), |OutShape(p, count)| - 1)
    ensures p.alpha.PerComp? ==>
              && Covers(Scaling(pow, p).value.shape, OutShape(p, count), 0)
              && Covers(Scaling(pow, p).value.shape, OutShape(p, count), 1)
  {
    EllsAndAlphaFit(p, count);
    ZipBroadcast(Ells(p), AlphaExponent(p.alpha).value, pow, OutShape(p, count));
  }

  /** Whatever the other inputs, a per-component `alpha` gives `ells**alpha`
      the shape (TEB_alpha, TEB_alpha, 1, 1, ell) (models.py:39, 50-54, 63). */
  lemma ScalingShapePerComp(pow: PowFn, p: Inputs)
    requires p.ell0 != 0.0 && p.alpha.PerComp?
    ensures Scaling(pow, p).Some?
    ensures Scaling(pow, p).value.shape == [|p.alpha.values|, |p.alpha.values|, 1, 1, NumEll(p)]
  {
    var a := p.alpha.values;
    AlphaEntriesPerComp(a);
    var target := [|a|, |a|, 1, 1, NumEll(p)];
    var exponent := AlphaExponent(p.alpha).value;
    assert Covers(exponent.shape, target, 0) && Covers(exponent.shape, target, 1);
    assert Covers(Ells(p).shape, target, 4);
    ZipExact(Ells(p), exponent, pow, target);
  }

  /** Whatever the other inputs, a plain `alpha` gives `ells**alpha` the
      shape (ell) (models.py:39, 53-54, 63). */
  lemma ScalingShapeScalar(pow: PowFn, p: Inputs)
    requires p.ell0 != 0.0 && p.alpha.Scalar?
    ensures Scaling(pow, p).Some?
    ensures Scaling(pow, p).value.shape == [NumEll(p)]
  {
    var target := [NumEll(p)];
    assert Covers(Ells(p).shape, target, 0);
    ZipExact(Ells(p), AlphaExponent(p.alpha).value, pow, target);
  }

  /** `sed` and `sed_t` always exist: `freq / freq0` against
      `beta[:, np.newaxis]` never fails to broadcast (models.py:41-48). */
  lemma SedExists(pow: PowFn, p: Inputs)
    requires p.freq0 != 0.0
    ensures Sed(pow, p).Some?
  {
    if p.beta.PerComp? {
      SedOwnShapesPerComp(pow, p);
    }
  }

  /** At every index of the output the multipole axis contributes
      `(lmin + l) / ell0` (models.py:39, 63). */
  lemma EllsValue(p: Inputs, count: nat, idx: seq<nat>)
    requires p.Valid() && Consistent(p, count) && InBounds(OutShape(p, count), idx)
    ensures Val(Ells(p), idx) == EllAt(p, EllIndex(idx))
  {
    var target := OutShape(p, count);
    assert Ells(p).shape == [target[|target| - 1]];
    assert Fits(Ells(p).shape, target);
    ValIndex(Ells(p), target, idx);
  }

  /** At every index of the output the exponent array contributes
      `alpha[c1, c2]` (models.py:50-54, 63). */
  lemma AlphaValue(p: Inputs, count: nat, idx: seq<nat>)
    requires p.Valid() && Consistent(p, count) && InBounds(OutShape(p, count), idx)
    ensures AlphaExponent(p.alpha).Some?
    ensures Val(AlphaExponent(p.alpha).value, idx) == AlphaAt(p.alpha, Comp1(idx), Comp2(idx))
  {
    match p.alpha
    case Scalar(a) =>
      assert Align([], idx) == [];
    case PerComp(a) =>
      AlphaPerCompValue(a, OutShape(p, count), idx);
  }

  /** A per-component exponent array, (TEB, TEB, 1, 1, 1), read at an index
      of a five-axis target whose leading axes have length TEB. */
  lemma AlphaPerCompValue(a: seq<real>, target: seq<nat>, idx: seq<nat>)
    requires |target| == 5 && target[0] == |a| && target[1] == |a| && InBounds(target, idx)
    ensures AlphaExponent(PerComp(a)).Some?
    ensures Val(AlphaExponent(PerComp(a)).value, idx) == AlphaPair(a, idx[0], idx[1])
  {
    AlphaEntriesPerComp(a);
    var exponent := AlphaExponent(PerComp(a)).value;
    assert Fits(exponent.shape, target);
    ValIndex(exponent, target, idx);
    var aligned := Align(exponent.shape, idx);
    assert aligned[0] == idx[0] && aligned[1] == idx[1];
  }

  /** At every index of the output `ells**alpha` contributes
      `ells[l] ** alpha[c1, c2]` (models.py:39, 50-54, 63). */
  lemma ScalingValues(pow: PowFn, p: Inputs, count: nat, idx: seq<nat>)
    requires p.Valid() && Consistent(p, count) && InBounds(OutShape(p, count), idx)
    ensures Scaling(pow, p).Some?
    ensures Val(Scaling(pow, p).value, idx) ==
              pow(EllAt(p, EllIndex(idx)), AlphaAt(p.alpha, Comp1(idx), Comp2(idx)))
  {
    EllsAndAlphaFit(p, count);
    EllsValue(p, count, idx);
    AlphaValue(p, count, idx);
    ZipBroadcast(Ells(p), AlphaExponent(p.alpha).value, pow, OutShape(p, count));
  }

  /** With a per-component `beta`, `sed` (TEB, 1, freq, 1) supplies the
      second component and frequency axes of the output and `sed_t`
      (TEB, 1, freq, 1, 1) the first ones (models.py:42-44, 63). */
  lemma SedShapesPerComp(pow: PowFn, p: Inputs, count: nat)
    requires p.Valid() && Consistent(p, count) && p.beta.PerComp?
    ensures Sed(pow, p).Some?
    ensures OutShape(p, count) == [count, count, |p.freq|, |p.freq|, NumEll(p)]
    ensures Fits(Sed(pow, p).value.0.shape, OutShape(p, count))
    ensures Fits(Sed(pow, p).value.1.shape, OutShape(p, count))
    ensures |Sed(pow, p).value.0.shape| == 4 && |Sed(pow, p).value.1.shape| == 5
    ensures Covers(Sed(pow, p).value.0.shape, OutShape(p, count), 1)
    ensures Covers(Sed(pow, p).value.0.shape, OutShape(p, count), 3)
    ensures Covers(Sed(pow, p).value.1.shape, OutShape(p, count), 0)
    ensures Covers(Sed(pow, p).value.1.shape, OutShape(p, count), 2)
  {
    SedEntriesPerComp(pow, p);
  }

  /** With a plain `beta`, `sed` (freq, 1) supplies the second frequency axis
      of the output and `sed_t` (freq, 1, 1) the first (models.py:46-48, 63). */
  lemma SedShapesScalar(pow: PowFn, p: Inputs, count: nat)
    requires p.Valid() && Consistent(p, count) && p.beta.Scalar?
    ensures Sed(pow, p).Some?
    ensures Fits(Sed(pow, p).value.0.shape, OutShape(p, count))
    ensures Fits(Sed(pow, p).value.1.shape, OutShape(p, count))
    ensures |Sed(pow, p).value.0.shape| == 2 && |Sed(pow, p).value.1.shape| == 3
    ensures Covers(Sed(pow, p).value.0.shape, OutShape(p, count), |OutShape(p, count)| - 2)
    ensures Covers(Sed(pow, p).value.1.shape, OutShape(p, count), |OutShape(p, count)| - 3)
  {
    SedEntriesScalar(pow, p);
    FrequencyColumnFits(|p.freq|, OutShape(p, count));
  }

  /** A (F, 1) column and a (F, 1, 1) column fit any target whose two
      frequency axes, third and second from the end, both have length F. */
  lemma FrequencyColumnFits(f: nat, target: seq<nat>)
    requires |target| >= 3 && target[|target| - 3] == f && target[|target| - 2] == f
    ensures Fits([f, 1], target) && Fits([f, 1, 1], target)
    ensures Covers([f, 1], target, |target| - 2)
    ensures Covers([f, 1, 1], target, |target| - 3)
  {
  }

  /** At every index of the output `sed` contributes `sed[c2, f2]` and
      `sed_t` contributes `sed[c1, f1]` (models.py:41-48, 63). */
  lemma SedValues(pow: PowFn, p: Inputs, count: nat, idx: seq<nat>)
    requires p.Valid() && Consistent(p, count) && InBounds(OutShape(p, count), idx)
    ensures Sed(pow, p).Some?
    ensures Val(Sed(pow, p).value.0, idx) == SedAt(pow, p, Comp2(idx), Freq2(idx))
    ensures Val(Sed(pow, p).value.1, idx) == SedAt(pow, p, Comp1(idx), Freq1(idx))
  {
    var target := OutShape(p, count);
    if p.beta.PerComp? {
      SedShapesPerComp(pow, p, count);
      SedEntriesPerComp(pow, p);
    } else {
      SedShapesScalar(pow, p, count);
      SedEntriesScalar(pow, p);
    }
    ValIndex(Sed(pow, p).value.0, target, idx);
    ValIndex(Sed(pow, p).value.1, target, idx);
  }

  // ---------------------------------------------------------------------
  // The result
  // ---------------------------------------------------------------------

  predicate CoveredByOne(a: Tensor, b: Tensor, c: Tensor, d: Tensor, target: seq<nat>, k: nat)
    requires Fits(a.shape, target) && Fits(b.shape, target)
    requires Fits(c.shape, target) && Fits(d.shape, target)
    requires k < |target|
  {
    Covers(a.shape, target, k) || Covers(b.shape, target, k) ||
    Covers(c.shape, target, k) || Covers(d.shape, target, k)
  }

  /** Four factors that each fit a target shape multiply without error; the
      product fits the target, has the largest of their ranks, supplies
      every axis one of them supplies, and at every index of the target is
      the product of what the factors contribute there. */
  lemma ProductBroadcast(a: Tensor, b: Tensor, c: Tensor, d: Tensor, target: seq<nat>)
    requires Fits(a.shape, target) && Fits(b.shape, target)
    requires Fits(c.shape, target) && Fits(d.shape, target)
    ensures Product(a, b, c, d).Some?
    ensures |Product(a, b, c, d).value.shape| == Max(Max(Max(|a.shape|, |b.shape|), |c.shape|), |d.shape|)
    ensures Fits(Product(a, b, c, d).value.shape, target)
    ensures forall k :: 0 <= k < |target| && CoveredByOne(a, b, c, d, target, k) ==>
              Covers(Product(a, b, c, d).value.shape, target, k)
    ensures forall idx :: InBounds(target, idx) ==>
              Val(Product(a, b, c, d).value, idx) == Times(Times(Times(Val(a, idx), Val(b, idx)), Val(c, idx)), Val(d, idx))
  {
    ZipBroadcast(a, b, Times, target);
    var ab := Zip(a, b, Times).value;
    ZipBroadcast(ab, c, Times, target);
    var abc := Zip(ab, c, Times).value;
    ZipBroadcast(abc, d, Times, target);
  }

  /** One unfolding step of `PowerLaw`, kept apart so that callers need not
      unfold it themselves. */
  lemma PowerLawIsProduct(pow: PowFn, p: Inputs)
    requires p.Valid() && Sed(pow, p).Some? && Scaling(pow, p).Some?
    ensures PowerLaw(pow, p) == Product(AmplitudeFactor(p.amplitude), Scaling(pow, p).value,
                                        Sed(pow, p).value.0, Sed(pow, p).value.1)
  {
  }

  /** The result fits the output shape, has its rank, and supplies every one
      of its axes. */
  lemma ProductShape(pow: PowFn, p: Inputs, count: nat)
    requires p.Valid() && Consistent(p, count)
    ensures PowerLaw(pow, p).Some?
    ensures PowerLaw(pow, p).value.shape == OutShape(p, count)
  {
    FactorsCover(pow, p, count);
    var amp := AmplitudeFactor(p.amplitude);
    var scaling := Scaling(pow, p).value;
    var seds := Sed(pow, p).value;
    ProductBroadcast(amp, scaling, seds.0, seds.1, OutShape(p, count));
    PowerLawIsProduct(pow, p);
    ShapeFromCovers(PowerLaw(pow, p).value.shape, OutShape(p, count));
  }

  /** The four factors fit the output shape, and each of its axes is
      supplied by one of them: the component axes by whichever input is
      resolved per component, the frequency axes by `sed_t` and `sed`, and
      the multipole axis by `ells**alpha`. */
  lemma FactorsCover(pow: PowFn, p: Inputs, count: nat)
    requires p.Valid() && Consistent(p, count)
    ensures Sed(pow, p).Some? && Scaling(pow, p).Some?
    ensures Fits(AmplitudeFactor(p.amplitude).shape, OutShape(p, count))
    ensures Fits(Scaling(pow, p).value.shape, OutShape(p, count))
    ensures Fits(Sed(pow, p).value.0.shape, OutShape(p, count))
    ensures Fits(Sed(pow, p).value.1.shape, OutShape(p, count))
    ensures forall k :: 0 <= k < |OutShape(p, count)| ==>
              CoveredByOne(AmplitudeFactor(p.amplitude), Scaling(pow, p).value,
                           Sed(pow, p).value.0, Sed(pow, p).value.1, OutShape(p, count), k)
  {
    if p.beta.PerComp? {
      FactorsCoverPerComp(pow, p, count);
    } else {
      FactorsCoverScalar(pow, p, count);
    }
  }

  lemma FactorsCoverPerComp(pow: PowFn, p: Inputs, count: nat)
    requires p.Valid() && Consistent(p, count) && p.beta.PerComp?
    ensures Sed(pow, p).Some? && Scaling(pow, p).Some?
    ensures Fits(AmplitudeFactor(p.amplitude).shape, OutShape(p, count))
    ensures Fits(Scaling(pow, p).value.shape, OutShape(p, count))
    ensures Fits(Sed(pow, p).value.0.shape, OutShape(p, count))
    ensures Fits(Sed(pow, p).value.1.shape, OutShape(p, count))
    ensures forall k :: 0 <= k < |OutShape(p, count)| ==>
              CoveredByOne(AmplitudeFactor(p.amplitude), Scaling(pow, p).value,
                           Sed(pow, p).value.0, Sed(pow, p).value.1, OutShape(p, count), k)
  {
    var target := OutShape(p, count);
    AmplitudeShape(p, count);
    ScalingShape(pow, p, count);
    SedShapesPerComp(pow, p, count);
    var amp := AmplitudeFactor(p.amplitude);
    var scaling := Scaling(pow, p).value;
    var seds := Sed(pow, p).value;
    forall k | 0 <= k < |target|
      ensures CoveredByOne(amp, scaling, seds.0, seds.1, target, k)
    {
      if k == 0 || k == 2 {
        assert Covers(seds.1.shape, target, k);
      } else if k == 1 || k == 3 {
        assert Covers(seds.0.shape, target, k);
      } else {
        assert Covers(scaling.shape, target, k);
      }
    }
  }

  lemma FactorsCoverScalar(pow: PowFn, p: Inputs, count: nat)
    requires p.Valid() && Consistent(p, count) && p.beta.Scalar?
    ensures Sed(pow, p).Some? && Scaling(pow, p).Some?
    ensures Fits(AmplitudeFactor(p.amplitude).shape, OutShape(p, count))
    ensures Fits(Scaling(pow, p).value.shape, OutShape(p, count))
    ensures Fits(Sed(pow, p).value.0.shape, OutShape(p, count))
    ensures Fits(Sed(pow, p).value.1.shape, OutShape(p, count))
    ensures forall k :: 0 <= k < |OutShape(p, count)| ==>
              CoveredByOne(AmplitudeFactor(p.amplitude), Scaling(pow, p).value,
                           Sed(pow, p).value.0, Sed(pow, p).value.1, OutShape(p, count), k)
  {
    var target := OutShape(p, count);
    AmplitudeShape(p, count);
    ScalingShape(pow, p, count);
    SedShapesScalar(pow, p, count);
    var amp := AmplitudeFactor(p.amplitude);
    var scaling := Scaling(pow, p).value;
    var seds := Sed(pow, p).value;
    if HasComponents(p) {
      assert |target| == 5;
      assert p.alpha.PerComp? || !p.amplitude.AScalar?;
    }
    TrailingAxesCovered(amp, scaling, seds.0, seds.1, target);
  }

  /** When the last three axes are covered by `d`, `c` and `b` in turn, and
      any two leading axes by `a` or by `b`, every axis is covered. */
  lemma TrailingAxesCovered(a: Tensor, b: Tensor, c: Tensor, d: Tensor, target: seq<nat>)
    requires Fits(a.shape, target) && Fits(b.shape, target)
    requires Fits(c.shape, target) && Fits(d.shape, target)
    requires |target| == 3 || |target| == 5
    requires Covers(d.shape, target, |target| - 3)
    requires Covers(c.shape, target, |target| - 2)
    requires Covers(b.shape, target, |target| - 1)
    requires |target| == 5 ==>
               (Covers(a.shape, target, 0) && Covers(a.shape, target, 1)) ||
               (Covers(b.shape, target, 0) && Covers(b.shape, target, 1))
    ensures forall k :: 0 <= k < |target| ==> CoveredByOne(a, b, c, d, target, k)
  {
    forall k | 0 <= k < |target|
      ensures CoveredByOne(a, b, c, d, target, k)
    {
      if |target| == 5 && k < 2 {
        assert k == 0 || k == 1;
      }
    }
  }

  /** At every index of the output the result is the product, in the
      source's order, of what the four factors contribute there. */
  lemma ProductValues(pow: PowFn, p: Inputs, count: nat, idx: seq<nat>)
    requires p.Valid() && Consistent(p, count) && InBounds(OutShape(p, count), idx)
    ensures PowerLaw(pow, p).Some? && Sed(pow, p).Some? && Scaling(pow, p).Some?
    ensures Val(PowerLaw(pow, p).value, idx) ==
              Times(Times(Times(Val(AmplitudeFactor(p.amplitude), idx), Val(Scaling(pow, p).value, idx)),
                          Val(Sed(pow, p).value.0, idx)),
                    Val(Sed(pow, p).value.1, idx))
  {
    AmplitudeShape(p, count);
    ScalingShape(pow, p, count);
    if p.beta.PerComp? {
      SedShapesPerComp(pow, p, count);
    } else {
      SedShapesScalar(pow, p, count);
    }
    ProductBroadcast(AmplitudeFactor(p.amplitude), Scaling(pow, p).value,
                     Sed(pow, p).value.0, Sed(pow, p).value.1, OutShape(p, count));
    PowerLawIsProduct(pow, p);
  }

  /** The coordinates of an index of the output are within every input. */
  lemma CoordinatesInRange(p: Inputs, count: nat, idx: seq<nat>)
    requires p.Valid() && Consistent(p, count) && InBounds(OutShape(p, count), idx)
    ensures IndexOk(p, count, Comp1(idx), Comp2(idx), Freq1(idx), Freq2(idx))
    ensures p.amplitude.Diag? ==> Comp1(idx) < |p.amplitude.diagonal| && Comp2(idx) < |p.amplitude.diagonal|
    ensures p.amplitude.Full? ==> Comp1(idx) < |p.amplitude.rows| && Comp2(idx) < |p.amplitude.rows[Comp1(idx)]|
    ensures p.alpha.PerComp? ==> Comp1(idx) < |p.alpha.values| && Comp2(idx) < |p.alpha.values|
    ensures p.beta.PerComp? ==> Comp1(idx) < |p.beta.values| && Comp2(idx) < |p.beta.values|
  {
  }

  /** `EntryAt` written with the same products as the result. */
  lemma EntryAtAsProduct(pow: PowFn, p: Inputs, count: nat, idx: seq<nat>)
    requires p.Valid() && Consistent(p, count) && InBounds(OutShape(p, count), idx)
    ensures IndexOk(p, count, Comp1(idx), Comp2(idx), Freq1(idx), Freq2(idx))
    ensures EntryAt(pow, p, count, idx) ==
              Times(Times(Times(AmpAt(p.amplitude, Comp1(idx), Comp2(idx)),
                                pow(EllAt(p, EllIndex(idx)), AlphaAt(p.alpha, Comp1(idx), Comp2(idx)))),
                          SedAt(pow, p, Comp2(idx), Freq2(idx))),
                    SedAt(pow, p, Comp1(idx), Freq1(idx)))
  {
    CoordinatesInRange(p, count, idx);
  }

  /** The result's entry at one index of the output. */
  lemma EntryValue(pow: PowFn, p: Inputs, count: nat, idx: seq<nat>)
    requires p.Valid() && Consistent(p, count) && InBounds(OutShape(p, count), idx)
    ensures PowerLaw(pow, p).Some?
    ensures PowerLaw(pow, p).value.at(idx) == EntryAt(pow, p, count, idx)
  {
    ProductShape(pow, p, count);
    ValOwn(PowerLaw(pow, p).value, idx);
    ProductValues(pow, p, count, idx);
    AmplitudeValues(p, count, idx);
    ScalingValues(pow, p, count, idx);
    SedValues(pow, p, count, idx);
    EntryAtAsProduct(pow, p, count, idx);
  }

  /** When the component-resolved inputs agree on the number of components,
      `amplitude * ells**alpha * sed * sed_t` broadcasts without error to
      ([TEB, TEB,] freq, freq, ell), and every entry is the product of the
      amplitude, the multipole power law and the two SED factors
      (models.py:32-35, 39-63). */
  lemma PowerLawBroadcast(pow: PowFn, p: Inputs, count: nat)
    requires p.Valid() && Consistent(p, count)
    ensures PowerLaw(pow, p).Some?
    ensures PowerLaw(pow, p).value.shape == OutShape(p, count)
    ensures forall idx :: InBounds(OutShape(p, count), idx) ==>
              PowerLaw(pow, p).value.at(idx) == EntryAt(pow, p, count, idx)
  {
    ProductShape(pow, p, count);
    forall idx | InBounds(OutShape(p, count), idx)
      ensures PowerLaw(pow, p).value.at(idx) == EntryAt(pow, p, count, idx)
    {
      EntryValue(pow, p, count, idx);
    }
  }

  /** Entry (c1, c2, f1, f2, l) of a result with component axes. */
  lemma ComponentEntry(pow: PowFn, p: Inputs, count: nat, c1: nat, c2: nat, f1: nat, f2: nat, l: nat)
    requires p.Valid() && Consistent(p, count) && HasComponents(p)
    requires c1 < count && c2 < count && f1 < |p.freq| && f2 < |p.freq| && l < NumEll(p)
    ensures PowerLaw(pow, p).Some?
    ensures PowerLaw(pow, p).value.at([c1, c2, f1, f2, l]) ==
              Times(Times(Times(AmpAt(p.amplitude, c1, c2), pow(EllAt(p, l), AlphaAt(p.alpha, c1, c2))),
                          SedAt(pow, p, c2, f2)),
                    SedAt(pow, p, c1, f1))
  {
    var idx := [c1, c2, f1, f2, l];
    assert InBounds(OutShape(p, count), idx);
    EntryValue(pow, p, count, idx);
    EntryAtAsProduct(pow, p, count, idx);
  }

  /** Entry (f1, f2, l) of a result without component axes. */
  lemma ScalarEntry(pow: PowFn, p: Inputs, f1: nat, f2: nat, l: nat)
    requires p.Valid() && !HasComponents(p)
    requires f1 < |p.freq| && f2 < |p.freq| && l < NumEll(p)
    ensures PowerLaw(pow, p).Some?
    ensures PowerLaw(pow, p).value.at([f1, f2, l]) ==
              Times(Times(Times(p.amplitude.value, pow((p.lmin + l) as real / p.ell0, p.alpha.value)),
                          pow(p.freq[f2] / p.freq0, p.beta.value)),
                    pow(p.freq[f1] / p.freq0, p.beta.value))
  {
    var idx := [f1, f2, l];
    assert InBounds(OutShape(p, 0), idx);
    EntryValue(pow, p, 0, idx);
    EntryAtAsProduct(pow, p, 0, idx);
  }
}
