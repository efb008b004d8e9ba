/** The beam of base rays (src/main.cpp:27-54): fifty wavelengths spread evenly from
    red to violet, each with a display colour. */
module Spectrum {
  import opened Scene

  /** `NUM_RAYS` (main.cpp:28). */
  const NumRays: nat := 50

  /** `wl = 700 - t * 300` with `t = i / (NUM_RAYS - 1)` (main.cpp:31-32): the first ray
      is deep red at 700 nm, the last violet at 400 nm. */
  function BaseWavelength(i: nat): (wl: real)
    requires i < NumRays
    ensures 400.0 <= wl <= 700.0
    ensures i == 0 ==> wl == 700.0
    ensures i == NumRays - 1 ==> wl == 400.0
  {
    700.0 - (i as real / (NumRays - 1) as real) * 300.0
  }

  /** Wavelengths strictly descend along the beam. */
  lemma BaseWavelengthsDescend(i: nat, j: nat)
    requires i < j < NumRays
    ensures BaseWavelength(i) > BaseWavelength(j)
  {
    assert i as real / 49.0 < j as real / 49.0;
  }

  /** Exactly the first fourteen rays fall in the red band. */
  lemma RedRays(i: nat)
    requires i < NumRays
    ensures BaseWavelength(i) >= 620.0 <==> i <= 13
  {
    var t := i as real / 49.0;
    assert t * 49.0 == i as real;
    if i <= 13 {
      assert t <= 13.0 / 49.0;
    } else {
      assert t >= 14.0 / 49.0;
    }
  }

  /** The colour mapping (main.cpp:35-53): constant red and yellow bands, and linear
      ramps between them whose channels are truncated to 8 bits. Below 400 nm the
      violet ramp leaves the 8-bit range, where the conversion is undefined, so the
      mapping is only defined from 400 nm on; every base ray is there. */
  function ColorFor(wl: real): (c: Color)
    requires wl >= 400.0
    ensures wl >= 620.0 ==> c == Color(255, 0, 0)
    ensures 590.0 <= wl < 620.0 ==> c.r == 255 && c.b == 0 && c.g <= 165
    ensures 570.0 <= wl < 590.0 ==> c == Color(255, 255, 0)
    ensures 495.0 <= wl < 570.0 ==> c.g == 255 && c.b == 0
    ensures 450.0 <= wl < 495.0 ==> c.r == 0 && c.b == 255
    ensures wl < 450.0 ==> c.r <= 148 && c.g == 0 && 211 <= c.b
  {
    if wl >= 620.0 then
      Color(255, 0, 0)
    else if wl >= 590.0 then
      var f := (wl - 590.0) / 30.0;
      Color(255, Truncate(165.0 * (1.0 - f), 165), 0)
    else if wl >= 570.0 then
      Color(255, 255, 0)
    else if wl >= 495.0 then
      var f := (wl - 495.0) / 75.0;
      Color(Truncate(255.0 * f, 255), 255, 0)
    else if wl >= 450.0 then
      var f := (wl - 450.0) / 45.0;
      Color(0, Truncate(255.0 * f, 255), 255)
    else
      var f := (wl - 400.0) / 50.0;
      Color(Truncate(148.0 * (1.0 - f), 148), 0, Truncate(211.0 + 44.0 * f, 255))
  }

  /** `(uint8_t)x` for `0 <= x <= bound <= 255`: the integer part of `x`. */
  function Truncate(x: real, bound: nat): (c: Channel)
    requires 0.0 <= x <= bound as real && bound <= 255
    ensures c <= bound && c as real <= x < c as real + 1.0
  {
    x.Floor
  }

  /** Truncation keeps the order of its arguments. */
  lemma TruncateMonotone(x: real, y: real, bound: nat)
    requires 0.0 <= x <= y <= bound as real && bound <= 255
    ensures Truncate(x, bound) <= Truncate(y, bound)
  {
  }

  /** Towards shorter wavelengths the orange ramp fades green out into red... */
  lemma OrangeRamp(wl1: real, wl2: real)
    requires 590.0 <= wl1 <= wl2 < 620.0
    ensures ColorFor(wl2).g <= ColorFor(wl1).g
  {
    TruncateMonotone(165.0 * (1.0 - (wl2 - 590.0) / 30.0), 165.0 * (1.0 - (wl1 - 590.0) / 30.0), 165);
  }

  /** ...the green ramp brings red in towards yellow... */
  lemma GreenRamp(wl1: real, wl2: real)
    requires 495.0 <= wl1 <= wl2 < 570.0
    ensures ColorFor(wl1).r <= ColorFor(wl2).r
  {
    TruncateMonotone(255.0 * ((wl1 - 495.0) / 75.0), 255.0 * ((wl2 - 495.0) / 75.0), 255);
  }

  /** ...the cyan ramp brings green in over the blue... */
  lemma CyanRamp(wl1: real, wl2: real)
    requires 450.0 <= wl1 <= wl2 < 495.0
    ensures ColorFor(wl1).g <= ColorFor(wl2).g
  {
    TruncateMonotone(255.0 * ((wl1 - 450.0) / 45.0), 255.0 * ((wl2 - 450.0) / 45.0), 255);
  }

  /** ...and the violet ramp trades red for blue as the wavelength grows. */
  lemma VioletRamp(wl1: real, wl2: real)
    requires 400.0 <= wl1 <= wl2 < 450.0
    ensures ColorFor(wl2).r <= ColorFor(wl1).r && ColorFor(wl1).b <= ColorFor(wl2).b
  {
    var f1, f2 := (wl1 - 400.0) / 50.0, (wl2 - 400.0) / 50.0;
    TruncateMonotone(148.0 * (1.0 - f2), 148.0 * (1.0 - f1), 148);
    TruncateMonotone(211.0 + 44.0 * f1, 211.0 + 44.0 * f2, 255);
  }

  /** The base ray `i`: a default Ray with its wavelength and colour set. */
  function BaseRay(i: nat): (r: Ray)
    requires i < NumRays
    ensures r.points == [] && !r.valid
    ensures r.wavelength == BaseWavelength(i) && r.color == ColorFor(r.wavelength)
  {
    var wl := BaseWavelength(i);
    DefaultRay.(wavelength := wl, color := ColorFor(wl))
  }

  /** The setup loop (main.cpp:29-54): `baseRays` is made of default rays, and each
      element in turn gets its wavelength and colour. */
  method BaseRays() returns (baseRays: array<Ray>)
    ensures fresh(baseRays) && baseRays.Length == NumRays
    ensures forall i :: 0 <= i < NumRays ==> baseRays[i] == BaseRay(i)
  {
    baseRays := new Ray[NumRays](_ => DefaultRay);
    for i := 0 to NumRays
      invariant forall k :: 0 <= k < i ==> baseRays[k] == BaseRay(k)
      invariant forall k :: i <= k < NumRays ==> baseRays[k] == DefaultRay
    {
      var t := i as real / (NumRays - 1) as real;
      var wl := 700.0 - t * 300.0;
      baseRays[i] := baseRays[i].(wavelength := wl);
      baseRays[i] := baseRays[i].(color := ColorFor(wl));
    }
  }
}
