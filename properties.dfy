/** What follows from the entry formula of `power_law` (models.py:63): the
    shape rule, the zeros of a diagonal amplitude, the exponent of an
    auto-spectrum, the symmetries of the result, how a component enters the
    result, the error on mismatched component counts, and one worked case. */
module PowerLawProperties {
  import opened NdArray
  import opened Models

  /** The output has the component axes exactly when some input is resolved
      per component: its shape is (C, C, F, F, L) then and (F, F, L)
      otherwise. */
  lemma ShapeRule(pow: PowFn, p: Inputs, count: nat)
    requires p.Valid() && Consistent(p, count)
    ensures PowerLaw(pow, p).Some?
    ensures |PowerLaw(pow, p).value.shape| == 5 <==> HasComponents(p)
    ensures HasComponents(p) ==> PowerLaw(pow, p).value.shape == [count, count, |p.freq|, |p.freq|, NumEll(p)]
    ensures !HasComponents(p) ==> PowerLaw(pow, p).value.shape == [|p.freq|, |p.freq|, NumEll(p)]
  {
    PowerLawBroadcast(pow, p, count);
  }

  /** The last axis has one entry per multipole from `lmin` to `lmax`, and
      none when `lmin > lmax`. */
  lemma MultipoleAxis(pow: PowFn, p: Inputs, count: nat)
    requires p.Valid() && Consistent(p, count)
    ensures PowerLaw(pow, p).Some?
    ensures PowerLaw(pow, p).value.shape[|PowerLaw(pow, p).value.shape| - 1] == 0 <==> p.lmin > p.lmax
    ensures p.lmin <= p.lmax ==>
              PowerLaw(pow, p).value.shape[|PowerLaw(pow, p).value.shape| - 1] == p.lmax - p.lmin + 1
  {
    ShapeRule(pow, p, count);
  }

  /** With a one-dimensional amplitude (the diagonal of the component
      matrix) every cross-spectrum between two different components is
      zero, and the auto-spectrum of component c is `amplitude[c]` times the
      multipole and frequency factors. */
  lemma DiagonalAmplitude(pow: PowFn, p: Inputs, count: nat, c1: nat, c2: nat, f1: nat, f2: nat, l: nat)
    requires p.Valid() && Consistent(p, count) && p.amplitude.Diag?
    requires c1 < count && c2 < count && f1 < |p.freq| && f2 < |p.freq| && l < NumEll(p)
    ensures PowerLaw(pow, p).Some?
    ensures c1 != c2 ==> PowerLaw(pow, p).value.at([c1, c2, f1, f2, l]) == 0.0
    ensures c1 == c2 ==>
              PowerLaw(pow, p).value.at([c1, c2, f1, f2, l]) ==
                p.amplitude.diagonal[c1] * pow((p.lmin + l) as real / p.ell0, AlphaAt(p.alpha, c1, c1))
                  * SedAt(pow, p, c1, f2) * SedAt(pow, p, c1, f1)
  {
    ComponentEntry(pow, p, count, c1, c2, f1, f2, l);
  }

  /** The auto-spectrum of component c scales with multipole as
      `ell ** alpha[c]` and with frequency as `freq ** beta[c]`: the mean of
      the two exponents is the component's own exponent. */
  lemma AutoSpectrum(pow: PowFn, p: Inputs, count: nat, c: nat, f1: nat, f2: nat, l: nat)
    requires p.Valid() && Consistent(p, count) && p.alpha.PerComp?
    requires c < count && f1 < |p.freq| && f2 < |p.freq| && l < NumEll(p)
    ensures PowerLaw(pow, p).Some?
    ensures PowerLaw(pow, p).value.at([c, c, f1, f2, l]) ==
              AmpAt(p.amplitude, c, c) * pow((p.lmin + l) as real / p.ell0, p.alpha.values[c])
                * pow(p.freq[f2] / p.freq0, BetaAt(p.beta, c)) * pow(p.freq[f1] / p.freq0, BetaAt(p.beta, c))
  {
    ComponentEntry(pow, p, count, c, c, f1, f2, l);
    assert AlphaPair(p.alpha.values, c, c) == p.alpha.values[c];
  }

  /** The multipole dependence of entry (c1, c2, f1, f2, l) is exactly
      `ell ** alpha_pair[c1, c2]`: the entries at two multipoles are in the
      ratio of those powers, written without division. */
  lemma MultipoleScaling(pow: PowFn, p: Inputs, count: nat, c1: nat, c2: nat, f1: nat, f2: nat, l1: nat, l2: nat)
    requires p.Valid() && Consistent(p, count) && HasComponents(p)
    requires c1 < count && c2 < count && f1 < |p.freq| && f2 < |p.freq| && l1 < NumEll(p) && l2 < NumEll(p)
    ensures PowerLaw(pow, p).Some?
    ensures PowerLaw(pow, p).value.at([c1, c2, f1, f2, l1]) * pow((p.lmin + l2) as real / p.ell0, AlphaAt(p.alpha, c1, c2))
            == PowerLaw(pow, p).value.at([c1, c2, f1, f2, l2]) * pow((p.lmin + l1) as real / p.ell0, AlphaAt(p.alpha, c1, c2))
  {
    ComponentEntry(pow, p, count, c1, c2, f1, f2, l1);
    ComponentEntry(pow, p, count, c1, c2, f1, f2, l2);
    ExchangeFactor(AmpAt(p.amplitude, c1, c2),
                   pow(EllAt(p, l1), AlphaAt(p.alpha, c1, c2)), pow(EllAt(p, l2), AlphaAt(p.alpha, c1, c2)),
                   SedAt(pow, p, c2, f2), SedAt(pow, p, c1, f1));
  }

  /** The cross-spectrum between the components (c1, c2) at frequencies
      (f1, f2) has as exponent of the multipole the mean of the components'
      exponents, whichever of the two comes first. */
  lemma ExponentSymmetric(p: Inputs, count: nat, c1: nat, c2: nat)
    requires Consistent(p, count) && c1 < count && c2 < count
    ensures AlphaAt(p.alpha, c1, c2) == AlphaAt(p.alpha, c2, c1)
    ensures p.alpha.PerComp? ==> AlphaAt(p.alpha, c1, c2) == (p.alpha.values[c1] + p.alpha.values[c2]) / 2.0
    ensures p.alpha.Scalar? ==> AlphaAt(p.alpha, c1, c2) == p.alpha.value
  {
    if p.alpha.PerComp? {
      assert AlphaPair(p.alpha.values, c1, c2) == AlphaPair(p.alpha.values, c2, c1);
    }
  }

  /** The component matrix of the amplitude is symmetric (always so for a
      plain number or a diagonal). */
  predicate SymmetricAmp(amp: Amp) {
    amp.Full? ==> forall i, j :: 0 <= i < |amp.rows| && 0 <= j < |amp.rows| && j < |amp.rows[i]| && i < |amp.rows[j]| ==>
                    amp.rows[i][j] == amp.rows[j][i]
  }

  /** With a symmetric amplitude, exchanging the two components together
      with the two frequencies leaves the entry unchanged. */
  lemma SwapSymmetry(pow: PowFn, p: Inputs, count: nat, c1: nat, c2: nat, f1: nat, f2: nat, l: nat)
    requires p.Valid() && Consistent(p, count) && HasComponents(p) && SymmetricAmp(p.amplitude)
    requires c1 < count && c2 < count && f1 < |p.freq| && f2 < |p.freq| && l < NumEll(p)
    ensures PowerLaw(pow, p).Some?
    ensures PowerLaw(pow, p).value.at([c1, c2, f1, f2, l]) == PowerLaw(pow, p).value.at([c2, c1, f2, f1, l])
  {
    ComponentEntry(pow, p, count, c1, c2, f1, f2, l);
    ComponentEntry(pow, p, count, c2, c1, f2, f1, l);
    ExponentSymmetric(p, count, c1, c2);
    assert AmpAt(p.amplitude, c1, c2) == AmpAt(p.amplitude, c2, c1);
    SwapLastFactors(Times(AmpAt(p.amplitude, c1, c2), pow(EllAt(p, l), AlphaAt(p.alpha, c1, c2))),
                    SedAt(pow, p, c2, f2), SedAt(pow, p, c1, f1));
  }

  /** Without component axes the result is symmetric in the two frequency
      axes. */
  lemma FrequencySwap(pow: PowFn, p: Inputs, f1: nat, f2: nat, l: nat)
    requires p.Valid() && !HasComponents(p)
    requires f1 < |p.freq| && f2 < |p.freq| && l < NumEll(p)
    ensures PowerLaw(pow, p).Some?
    ensures PowerLaw(pow, p).value.at([f1, f2, l]) == PowerLaw(pow, p).value.at([f2, f1, l])
  {
    ScalarEntry(pow, p, f1, f2, l);
    ScalarEntry(pow, p, f2, f1, l);
    SwapLastFactors(Times(p.amplitude.value, pow((p.lmin + l) as real / p.ell0, p.alpha.value)),
                    pow(p.freq[f2] / p.freq0, p.beta.value), pow(p.freq[f1] / p.freq0, p.beta.value));
  }

  /** A component enters an entry only through the inputs resolved per
      component: two component pairs with the same amplitude, exponent and
      spectral indices give the same entry.  An input given as a plain number
      is therefore the same for every pair of components. */
  lemma ComponentsEnterOnlyThroughInputs(pow: PowFn, p: Inputs, count: nat,
                                         c1: nat, c2: nat, d1: nat, d2: nat, f1: nat, f2: nat, l: nat)
    requires p.Valid() && Consistent(p, count) && HasComponents(p)
    requires c1 < count && c2 < count && d1 < count && d2 < count
    requires f1 < |p.freq| && f2 < |p.freq| && l < NumEll(p)
    requires AmpAt(p.amplitude, c1, c2) == AmpAt(p.amplitude, d1, d2)
    requires AlphaAt(p.alpha, c1, c2) == AlphaAt(p.alpha, d1, d2)
    requires BetaAt(p.beta, c1) == BetaAt(p.beta, d1) && BetaAt(p.beta, c2) == BetaAt(p.beta, d2)
    ensures PowerLaw(pow, p).Some?
    ensures PowerLaw(pow, p).value.at([c1, c2, f1, f2, l]) == PowerLaw(pow, p).value.at([d1, d2, f1, f2, l])
  {
    ComponentEntry(pow, p, count, c1, c2, f1, f2, l);
    ComponentEntry(pow, p, count, d1, d2, f1, f2, l);
  }

  /** With plain `alpha` and `beta`, a component-resolved amplitude only
      scales the all-scalar spectrum: entry (c1, c2, f1, f2, l) is
      `amplitude[c1, c2]` times entry (f1, f2, l) of the result for a unit
      amplitude. */
  lemma AmplitudeScalesScalarSpectrum(pow: PowFn, p: Inputs, count: nat, c1: nat, c2: nat, f1: nat, f2: nat, l: nat)
    requires p.Valid() && Consistent(p, count) && p.alpha.Scalar? && p.beta.Scalar? && !p.amplitude.AScalar?
    requires c1 < count && c2 < count && f1 < |p.freq| && f2 < |p.freq| && l < NumEll(p)
    ensures PowerLaw(pow, p).Some? && PowerLaw(pow, p.(amplitude := AScalar(1.0))).Some?
    ensures PowerLaw(pow, p).value.at([c1, c2, f1, f2, l]) ==
              AmpAt(p.amplitude, c1, c2) * PowerLaw(pow, p.(amplitude := AScalar(1.0))).value.at([f1, f2, l])
  {
    var unit := p.(amplitude := AScalar(1.0));
    ComponentEntry(pow, p, count, c1, c2, f1, f2, l);
    ScalarEntry(pow, unit, f1, f2, l);
    var a := AmpAt(p.amplitude, c1, c2);
    var scaling := pow((p.lmin + l) as real / p.ell0, p.alpha.value);
    var sed := pow(p.freq[f2] / p.freq0, p.beta.value);
    var sedT := pow(p.freq[f1] / p.freq0, p.beta.value);
    assert PowerLaw(pow, p).value.at([c1, c2, f1, f2, l]) == Times(Times(Times(a, scaling), sed), sedT);
    assert PowerLaw(pow, unit).value.at([f1, f2, l]) == Times(Times(Times(1.0, scaling), sed), sedT);
    LeadingFactor(a, scaling, sed, sedT);
  }

  // ---------------------------------------------------------------------
  // Component counts that do not broadcast
  // ---------------------------------------------------------------------

  /** The number of rows and of columns of the amplitude matrix (1 for a
      plain number, which broadcasts). */
  function AmpRows(a: Amp): nat {
    match a
    case AScalar(_) => 1
    case Diag(d) => |d|
    case Full(m) => |m|
  }

  function AmpCols(a: Amp): nat {
    match a
    case AScalar(_) => 1
    case Diag(d) => |d|
    case Full(m) => Cols(m)
  }

  /** The exponent array (TEB_alpha, TEB_alpha, 1, 1, 1) against `sed`
      (TEB_beta, 1, freq, 1) cannot broadcast when the two counts differ and
      neither is 1: the call fails, whatever the amplitude. */
  lemma MismatchedComponents(pow: PowFn, p: Inputs)
    requires p.Valid() && p.alpha.PerComp? && p.beta.PerComp?
    requires |p.alpha.values| != |p.beta.values| && |p.alpha.values| != 1 && |p.beta.values| != 1
    ensures PowerLaw(pow, p).None?
  {
    var ca := |p.alpha.values|;
    ScalingShapePerComp(pow, p);
    var amp := AmplitudeFactor(p.amplitude);
    var scaling := Scaling(pow, p).value;
    AmplitudeEntries(p.amplitude);
    var ab := Zip(amp, scaling, Times);
    if ab.Some? {
      assert Max(|amp.shape|, 5) == 5;
      BroadcastAxis(amp.shape, scaling.shape, 1);
      assert AxisLen(scaling.shape, 5, 1) == ca;
      assert AxisLen(amp.shape, 5, 1) == 1 || AxisLen(amp.shape, 5, 1) == ca;
    }
    ClashWithSed(pow, p, ab);
  }

  /** A per-component amplitude (TEB_amp, TEB_amp, 1, 1, 1) against the
      exponent array (TEB_alpha, TEB_alpha, 1, 1, 1) cannot broadcast when
      the counts differ and neither is 1: the first product fails, whatever
      `beta`. */
  lemma MismatchedAmplitudeAlpha(pow: PowFn, p: Inputs)
    requires p.Valid() && !p.amplitude.AScalar? && p.alpha.PerComp?
    requires AmpRows(p.amplitude) != |p.alpha.values| && AmpRows(p.amplitude) != 1 && |p.alpha.values| != 1
    ensures PowerLaw(pow, p).None?
  {
    ScalingShapePerComp(pow, p);
    AmplitudeEntries(p.amplitude);
    var amp := AmplitudeFactor(p.amplitude);
    var scaling := Scaling(pow, p).value;
    IncompatibleLeading(amp.shape, scaling.shape);
    SedExists(pow, p);
    PowerLawIsProduct(pow, p);
  }

  /** A per-component amplitude (TEB_amp, TEB_amp, 1, 1, 1) against `sed`
      (TEB_beta, 1, freq, 1) cannot broadcast when the counts differ and
      neither is 1: the call fails, whatever `alpha`. */
  lemma MismatchedAmplitudeBeta(pow: PowFn, p: Inputs)
    requires p.Valid() && !p.amplitude.AScalar? && p.beta.PerComp?
    requires AmpCols(p.amplitude) != |p.beta.values| && AmpCols(p.amplitude) != 1 && |p.beta.values| != 1
    ensures PowerLaw(pow, p).None?
  {
    var amp := AmplitudeFactor(p.amplitude);
    AmplitudeEntries(p.amplitude);
    if p.alpha.PerComp? {
      ScalingShapePerComp(pow, p);
    } else {
      ScalingShapeScalar(pow, p);
    }
    var scaling := Scaling(pow, p).value;
    var ab := Zip(amp, scaling, Times);
    if ab.Some? {
      assert Max(|amp.shape|, |scaling.shape|) == 5;
      BroadcastAxis(amp.shape, scaling.shape, 1);
      assert AxisLen(amp.shape, 5, 1) == AmpCols(p.amplitude);
    }
    ClashWithSed(pow, p, ab);
  }

  /** When `amplitude * ells**alpha` either fails or has rank 5 with a
      second axis that clashes with the component axis of `sed`, the call
      fails. */
  lemma ClashWithSed(pow: PowFn, p: Inputs, ab: Option<Tensor>)
    requires p.Valid() && p.beta.PerComp? && |p.beta.values| != 1
    requires Scaling(pow, p).Some?
    requires ab == Zip(AmplitudeFactor(p.amplitude), Scaling(pow, p).value, Times)
    requires ab.Some? ==>
               |ab.value.shape| == 5 && ab.value.shape[1] != 1 && ab.value.shape[1] != |p.beta.values|
    ensures PowerLaw(pow, p).None?
  {
    SedOwnShapesPerComp(pow, p);
    if ab.Some? {
      Incompatible(ab.value.shape, Sed(pow, p).value.0.shape);
    }
    PowerLawIsProduct(pow, p);
  }

  /** With a single per-component `beta`, `sed` and `sed_t` have length 1 on
      the component axes and supply the two frequency axes. */
  lemma SingleBetaSed(pow: PowFn, p: Inputs, target: seq<nat>)
    requires p.freq0 != 0.0 && p.beta.PerComp? && |p.beta.values| == 1
    requires |target| == 5 && target[2] == |p.freq| && target[3] == |p.freq|
    ensures Sed(pow, p).Some?
    ensures Fits(Sed(pow, p).value.0.shape, target) && Fits(Sed(pow, p).value.1.shape, target)
    ensures Covers(Sed(pow, p).value.1.shape, target, 2) && Covers(Sed(pow, p).value.0.shape, target, 3)
  {
    SedOwnShapesPerComp(pow, p);
    SingleComponentShapes(|p.freq|, target);
  }

  /** The shapes (1, 1, F, 1) and (1, 1, F, 1, 1) fit a five-dimensional
      target with F on its two frequency axes, and supply one each. */
  lemma SingleComponentShapes(f: nat, target: seq<nat>)
    requires |target| == 5 && target[2] == f && target[3] == f
    ensures Fits([1, 1, f, 1], target) && Fits([1, 1, f, 1, 1], target)
    ensures Covers([1, 1, f, 1, 1], target, 2) && Covers([1, 1, f, 1], target, 3)
  {
    assert AxisLen([1, 1, f, 1], 5, 3) == f;
  }

  /** The output shape when a single per-component `beta` meets the
      components of the other inputs. */
  function StretchedShape(p: Inputs, count: nat): seq<nat> {
    [count, count, |p.freq|, |p.freq|, NumEll(p)]
  }

  /** The amplitude and `ells**alpha` do not depend on `beta`: they fit the
      output shape of the other inputs and supply its component axes and
      its multipole axis. */
  lemma SingleBetaOthers(pow: PowFn, p: Inputs, count: nat)
    requires p.Valid() && p.beta.PerComp?
    requires p.alpha.PerComp? || !p.amplitude.AScalar?
    requires Consistent(p.(beta := Scalar(0.0)), count)
    ensures Scaling(pow, p).Some?
    ensures Fits(AmplitudeFactor(p.amplitude).shape, StretchedShape(p, count))
    ensures Fits(Scaling(pow, p).value.shape, StretchedShape(p, count))
    ensures Covers(Scaling(pow, p).value.shape, StretchedShape(p, count), 4)
    ensures p.alpha.PerComp? ==>
              Covers(Scaling(pow, p).value.shape, StretchedShape(p, count), 0)
              && Covers(Scaling(pow, p).value.shape, StretchedShape(p, count), 1)
    ensures !p.amplitude.AScalar? ==>
              Covers(AmplitudeFactor(p.amplitude).shape, StretchedShape(p, count), 0)
              && Covers(AmplitudeFactor(p.amplitude).shape, StretchedShape(p, count), 1)
  {
    var q := p.(beta := Scalar(0.0));
    assert OutShape(q, count) == StretchedShape(p, count);
    AmplitudeShape(q, count);
    ScalingShape(pow, q, count);
    assert Scaling(pow, q) == Scaling(pow, p);
  }

  /** With a single per-component `beta`, the four factors fit the output
      shape of the other inputs and each of its axes is supplied by one of
      them. */
  lemma SingleBetaFactors(pow: PowFn, p: Inputs, count: nat)
    requires p.Valid() && p.beta.PerComp? && |p.beta.values| == 1
    requires p.alpha.PerComp? || !p.amplitude.AScalar?
    requires Consistent(p.(beta := Scalar(0.0)), count)
    ensures Sed(pow, p).Some? && Scaling(pow, p).Some?
    ensures Fits(AmplitudeFactor(p.amplitude).shape, StretchedShape(p, count))
    ensures Fits(Scaling(pow, p).value.shape, StretchedShape(p, count))
    ensures Fits(Sed(pow, p).value.0.shape, StretchedShape(p, count))
    ensures Fits(Sed(pow, p).value.1.shape, StretchedShape(p, count))
    ensures forall k :: 0 <= k < 5 ==>
              CoveredByOne(AmplitudeFactor(p.amplitude), Scaling(pow, p).value,
                           Sed(pow, p).value.0, Sed(pow, p).value.1, StretchedShape(p, count), k)
  {
    var target := StretchedShape(p, count);
    SingleBetaOthers(pow, p, count);
    SingleBetaSed(pow, p, target);
    var amp := AmplitudeFactor(p.amplitude);
    var scaling := Scaling(pow, p).value;
    var sed := Sed(pow, p).value.0;
    var sedT := Sed(pow, p).value.1;
    forall k | 0 <= k < 5
      ensures CoveredByOne(amp, scaling, sed, sedT, target, k)
    {
      if k == 2 {
        assert Covers(sedT.shape, target, k);
      } else if k == 3 {
        assert Covers(sed.shape, target, k);
      } else if k == 4 {
        assert Covers(scaling.shape, target, k);
      } else if p.alpha.PerComp? {
        assert k == 0 || k == 1;
      } else {
        assert !p.amplitude.AScalar? && (k == 0 || k == 1);
      }
    }
  }

  /** A per-component `beta` holding a single value is stretched across the
      components of a per-component `alpha` or amplitude, as numpy stretches
      every axis of length 1: the call succeeds and the output has all the
      components of the other inputs. */
  lemma SingleBetaBroadcasts(pow: PowFn, p: Inputs, count: nat)
    requires p.Valid() && p.beta.PerComp? && |p.beta.values| == 1
    requires p.alpha.PerComp? || !p.amplitude.AScalar?
    requires Consistent(p.(beta := Scalar(0.0)), count)
    ensures PowerLaw(pow, p).Some?
    ensures PowerLaw(pow, p).value.shape == [count, count, |p.freq|, |p.freq|, NumEll(p)]
  {
    SingleBetaFactors(pow, p, count);
    var amp := AmplitudeFactor(p.amplitude);
    var scaling := Scaling(pow, p).value;
    var sed := Sed(pow, p).value.0;
    var sedT := Sed(pow, p).value.1;
    ProductBroadcast(amp, scaling, sed, sedT, StretchedShape(p, count));
    PowerLawIsProduct(pow, p);
    ShapeFromCovers(PowerLaw(pow, p).value.shape, StretchedShape(p, count));
  }

  /** A five-dimensional and a four-dimensional shape whose second and
      first axes (aligned on the right) differ, neither being 1, do not
      broadcast together. */
  lemma Incompatible(s: seq<nat>, t: seq<nat>)
    requires |s| == 5 && |t| == 4 && s[1] != 1 && t[0] != 1 && s[1] != t[0]
    ensures !Compatible(s, t)
  {
    assert Max(|s|, |t|) == 5;
    assert AxisLen(s, 5, 1) == s[1] && AxisLen(t, 5, 1) == t[0];
  }

  /** Two five-dimensional shapes whose first axes differ, neither being 1,
      do not broadcast together. */
  lemma IncompatibleLeading(s: seq<nat>, t: seq<nat>)
    requires |s| == 5 && |t| == 5 && s[0] != 1 && t[0] != 1 && s[0] != t[0]
    ensures !Compatible(s, t)
  {
    assert Max(|s|, |t|) == 5;
    assert AxisLen(s, 5, 0) == s[0] && AxisLen(t, 5, 0) == t[0];
  }

  lemma ExchangeFactor(a: real, x: real, y: real, s: real, t: real)
    ensures Times(Times(Times(a, x), s), t) * y == Times(Times(Times(a, y), s), t) * x
  {
  }

  lemma SwapLastFactors(x: real, y: real, z: real)
    ensures Times(Times(x, y), z) == Times(Times(x, z), y)
  {
  }

  lemma LeadingFactor(a: real, x: real, y: real, z: real)
    ensures Times(Times(Times(a, x), y), z) == a * Times(Times(Times(1.0, x), y), z)
  {
  }

  /** A worked case: two frequencies, multipoles 2 and 3, and every
      parameter a plain number. */
  predicate ExampleInputs(p: Inputs) {
    && p.freq == [100.0, 150.0] && p.freq0 == 100.0 && p.beta == Scalar(1.5)
    && p.lmin == 2 && p.lmax == 3 && p.ell0 == 80.0 && p.alpha == Scalar(-0.5) && p.amplitude == AScalar(2.0)
  }

  /** The worked case has shape (freq, freq, ell) = (2, 2, 2). */
  lemma ExampleShape(pow: PowFn, p: Inputs)
    requires ExampleInputs(p)
    ensures PowerLaw(pow, p).Some?
    ensures PowerLaw(pow, p).value.shape == [2, 2, 2]
  {
    ShapeRule(pow, p, 0);
  }

  /** Entry [0, 0, 0] of the worked case: multipole 2 at the reference
      frequency twice. */
  lemma ExampleFirstEntry(pow: PowFn, p: Inputs)
    requires ExampleInputs(p)
    ensures PowerLaw(pow, p).Some?
    ensures PowerLaw(pow, p).value.at([0, 0, 0]) == 2.0 * pow(2.0 / 80.0, -0.5) * pow(1.0, 1.5) * pow(1.0, 1.5)
  {
    ScalarEntry(pow, p, 0, 0, 0);
    assert p.freq[0] / p.freq0 == 1.0;
    assert (p.lmin + 0) as real / p.ell0 == 2.0 / 80.0;
    FourFactors(2.0, pow(2.0 / 80.0, -0.5), pow(1.0, 1.5), pow(1.0, 1.5));
  }

  /** Entry [1, 0, 1] of the worked case: multipole 3, first frequency
      150, second frequency 100. */
  lemma ExampleSecondEntry(pow: PowFn, p: Inputs)
    requires ExampleInputs(p)
    ensures PowerLaw(pow, p).Some?
    ensures PowerLaw(pow, p).value.at([1, 0, 1]) == 2.0 * pow(3.0 / 80.0, -0.5) * pow(1.0, 1.5) * pow(1.5, 1.5)
  {
    ScalarEntry(pow, p, 1, 0, 1);
    assert p.freq[0] / p.freq0 == 1.0 && p.freq[1] / p.freq0 == 1.5;
    assert (p.lmin + 1) as real / p.ell0 == 3.0 / 80.0;
    FourFactors(2.0, pow(3.0 / 80.0, -0.5), pow(1.0, 1.5), pow(1.5, 1.5));
  }

  lemma FourFactors(a: real, b: real, c: real, d: real)
    ensures Times(Times(Times(a, b), c), d) == a * b * c * d
  {
  }

}
