/** The zoom heuristic of the ruler: when a measurement spans (almost) the
    whole viewport, guess which common device width it was rendered at and
    report the measurement in that device's pixels. Arithmetic is on exact
    reals; `Math.round` is round-half-up. */
module Scale {
  import opened Wrappers
  import opened Geometry

  /** The reference viewport widths, tried in this order. */
  const Candidates: seq<int> := [1920, 1440, 1366, 1280, 1024, 768, 414, 390, 375, 360]

  /** `Math.round`: the nearest integer, halves rounding up. */
  function Round(x: real): (r: int)
    ensures r as real - 0.5 <= x < r as real + 0.5
  {
    (x + 0.5).Floor
  }

  function AbsReal(x: real): real {
    if x < 0.0 then -x else x
  }

  /** `s` lies within 0.01 of `k` quarters. */
  predicate NearQuarter(s: real, k: int) {
    AbsReal(s - k as real / 4.0) < 0.01
  }

  /** Rounding `4 * s` finds the nearest quarter step, so the rounding test
      holds exactly when some quarter step is close; between 1.1 and 3 that
      step is one of 1.25, 1.5, ..., 3. */
  lemma QuarterStep(s: real)
    ensures 1.1 < s < 3.0 ==>
      (AbsReal(s - Round(s * 4.0) as real / 4.0) < 0.01 <==> exists k :: 5 <= k <= 12 && NearQuarter(s, k))
  {
    if 1.1 < s < 3.0 {
      var r := Round(s * 4.0);
      if AbsReal(s - r as real / 4.0) < 0.01 {
        assert NearQuarter(s, r);
        assert 5 <= r <= 12;
      }
      if k :| 5 <= k <= 12 && NearQuarter(s, k) {
        assert r == k;
      }
    }
  }

  /** The ratio `width / candidate` is a plausible zoom factor: strictly
      between 1.1 and 3 and within 0.01 of a multiple of 0.25. */
  function Fits(width: nat, candidate: int): (b: bool)
    requires candidate > 0
    ensures b <==> var s := width as real / candidate as real;
                   1.1 < s < 3.0 && exists k :: 5 <= k <= 12 && NearQuarter(s, k)
  {
    var s := width as real / candidate as real;
    QuarterStep(s);
    1.1 < s < 3.0 && AbsReal(s - Round(s * 4.0) as real / 4.0) < 0.01
  }

  /** The scan of the candidate list from position `i`: the index of the
      first candidate that fits, if any. */
  function FirstFit(width: nat, i: nat): (r: Option<nat>)
    requires i <= |Candidates|
    ensures r.Some? ==> i <= r.value < |Candidates| && Fits(width, Candidates[r.value])
    ensures r.Some? ==> forall j :: i <= j < r.value ==> !Fits(width, Candidates[j])
    ensures r.None? ==> forall j :: i <= j < |Candidates| ==> !Fits(width, Candidates[j])
    decreases |Candidates| - i
  {
    if i == |Candidates| then None
    else if Fits(width, Candidates[i]) then Some(i)
    else FirstFit(width, i + 1)
  }

  /** The width and height shown in the ruler's label. */
  datatype Dims = Dims(width: int, height: int)

  /** Dividing by the ratio `w / c` multiplies by `c / w`. */
  lemma DivideByRatio(w: real, c: real, h: real)
    requires w > 0.0 && c > 0.0
    ensures w / (w / c) == c
    ensures h / (w / c) == h * c / w
  {
  }

  lemma CandidatesPositive()
    ensures forall j :: 0 <= j < |Candidates| ==> Candidates[j] >= 360
  {
  }

  /** A width of zero gives ratio 0, which never fits. */
  lemma FitImpliesPositive(width: nat, c: int)
    requires c > 0 && Fits(width, c)
    ensures width > 0
  {
  }

  /** Rounding an integer gives it back. */
  lemma RoundOfInt(n: int)
    ensures Round(n as real) == n
  {
  }

  /** `height` measured at zoom `width / c`, expressed in the candidate
      device's pixels. */
  function ScaledHeight(height: nat, c: int, width: nat): int {
    if width == 0 then height else Round(height as real * c as real / width as real)
  }

  /** `Math.round(width / s)` and `Math.round(height / s)` for the zoom factor
      `s = width / c`. */
  function DivideByZoom(width: nat, height: nat, c: int): (r: Dims)
    requires width > 0 && c > 0
    ensures r == Dims(c, ScaledHeight(height, c, width))
  {
    var s := width as real / c as real;
    DivideByRatio(width as real, c as real, height as real);
    RoundOfInt(c);
    assert width as real / s == c as real;
    assert Round(width as real / s) == c;
    assert height as real / s == height as real * c as real / width as real;
    Dims(Round(width as real / s), Round(height as real / s))
  }

  /** Lines 691-707 of the ruler display: within 5 px of the viewport width,
      divide both sides by the first fitting zoom factor; otherwise report
      raw pixels. Dividing by `width / c` makes the displayed width exactly
      the candidate `c` and scales the height by `c / width`. */
  function Unscale(width: nat, height: nat, viewportWidth: int): (r: Dims)
    ensures Abs(width - viewportWidth) >= 5 ==> r == Dims(width, height)
    ensures FirstFit(width, 0).None? ==> r == Dims(width, height)
    ensures Abs(width - viewportWidth) < 5 && FirstFit(width, 0).Some? ==>
      var c := Candidates[FirstFit(width, 0).value];
      r == Dims(c, ScaledHeight(height, c, width))
  {
    var fit := FirstFit(width, 0);
    if Abs(width - viewportWidth) >= 5 || fit.None? then Dims(width, height)
    else
      var c := Candidates[fit.value];
      CandidatesPositive();
      FitImpliesPositive(width, c);
      DivideByZoom(width, height, c)
  }

  /** Rounding is determined by the half-open unit interval around the result. */
  lemma RoundIs(x: real, n: int)
    requires n as real - 0.5 <= x < n as real + 0.5
    ensures Round(x) == n
  {
  }

  /** A full-width measurement on a 1920-pixel viewport is read as 1280:
      ratio 1 is too small, 4/3 and 1920/1366 are off the quarter steps,
      and 1.5 for the 1280 candidate is the first fit. */
  lemma FullWidth1920ReadsAs1280(height: nat)
    ensures FirstFit(1920, 0) == Some(3)
    ensures Unscale(1920, height, 1920).width == 1280
  {
    assert !Fits(1920, 1920);
    assert !Fits(1920, 1440) by {
      var s := 1920.0 / 1440.0;
      assert s * 4.0 == 16.0 / 3.0;
      RoundIs(s * 4.0, 5);
    }
    assert !Fits(1920, 1366) by {
      var s := 1920.0 / 1366.0;
      assert 5.5 <= s * 4.0 < 6.5;
      RoundIs(s * 4.0, 6);
    }
    assert Fits(1920, 1280) by {
      var s := 1920.0 / 1280.0;
      assert s * 4.0 == 6.0;
      RoundIs(s * 4.0, 6);
    }
  }

  /** A full-width measurement of 2880 pixels is read as 1920: the first
      candidate already fits with ratio 1.5. */
  lemma FullWidth2880ReadsAs1920(height: nat)
    ensures FirstFit(2880, 0) == Some(0)
    ensures Unscale(2880, height, 2880).width == 1920
  {
    assert Fits(2880, 1920) by {
      var s := 2880.0 / 1920.0;
      assert s * 4.0 == 6.0;
      RoundIs(s * 4.0, 6);
    }
  }

  /** A measurement far from the viewport width is reported unscaled. */
  lemma NarrowMeasurementIsRaw(height: nat)
    ensures Unscale(50, height, 1920) == Dims(50, height)
  {
  }
}
