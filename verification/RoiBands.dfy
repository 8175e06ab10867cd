/** The nested regions of interest of src/star6e_controls.c, and the QP of each (include/pipeline_common.h). */
module RoiBands {
  import opened Arith
  import opened Bytes

  const MAX_STEPS := 4
  const QP_MAX := 30
  const ALIGN := 32
  const CENTER_MIN := 0.1
  const CENTER_MAX := 0.9

  function AlignDown(n: nat): (r: nat)
    ensures r % ALIGN == 0 && r <= n < r + ALIGN
  {
    n / ALIGN * ALIGN
  }

  /** `m * level / steps`, rounded. */
  function Share(m: nat, level: nat, steps: nat): nat
    requires steps > 0
  {
    MulNonneg(m, level);
    (m * level + steps / 2) / steps
  }

  /** The part of `qp` a level gets; the first level is the outermost. */
  function ScaleQp(qp: int, level: int, steps: int): int
  {
    if steps < 1 || level < 1 || level > steps then 0
    else
      var mag: int := Share(Abs(qp), level, steps);
      if qp < 0 then -mag else mag
  }

  /** Inwards the magnitude never decreases; the sign is that of `qp`; the innermost level gets all of it. */
  lemma ScaleQpGrows(qp: int, level: int, level': int, steps: int)
    requires 1 <= level <= level' <= steps
    ensures Abs(ScaleQp(qp, level, steps)) <= Abs(ScaleQp(qp, level', steps)) <= Abs(qp)
    ensures ScaleQp(qp, level, steps) == 0 || (ScaleQp(qp, level, steps) < 0 <==> qp < 0)
    ensures ScaleQp(qp, steps, steps) == qp
  {
    hide Share;
    ShareGrows(Abs(qp), level, level', steps);
    ShareGrows(Abs(qp), level', steps, steps);
    ShareWhole(Abs(qp), steps);
  }

  lemma ShareGrows(m: nat, level: nat, level': nat, steps: nat)
    requires steps > 0 && level <= level'
    ensures Share(m, level, steps) <= Share(m, level', steps)
  {
    Times(level, level', m);
    MulNonneg(m, level);
    assert m * level <= m * level';
    QuotientGrows(m * level + steps / 2, m * level' + steps / 2, steps);
  }

  lemma ShareWhole(m: nat, steps: nat)
    requires steps > 0
    ensures Share(m, steps, steps) == m
  {
    assert m * steps + steps / 2 < (m + 1) * steps;
    Quotient(m * steps + steps / 2, steps, m);
  }

  datatype Roi = Roi(index: nat, enable: bool, qp: int, left: nat, top: nat, width: nat, height: nat)

  function Disabled(i: nat): Roi { Roi(i, false, 0, 0, 0, 0, 0) }

  /** The share of the width a level takes up, from the whole width down to the centre. */
  function Fraction(center: real, level: int, steps: int): real
    requires 1 <= level <= steps
  {
    center + (1.0 - center) * ((steps - level) as real / steps as real)
  }

  /** `(uint32_t)(fraction * width)`. */
  function Portion(fraction: real, width: nat): nat
  {
    if fraction <= 0.0 then 0
    else
      RealProduct(fraction, width as real);
      (fraction * width as real).Floor
  }

  function BandWidth(width: nat, center: real, level: int, steps: int): (rw: nat)
    requires 1 <= level <= steps && 0.0 <= center <= 1.0
    ensures rw % ALIGN == 0 && rw <= width
  {
    FractionBounds(center, level, steps);
    PortionGrows(Fraction(center, level, steps), 1.0, width);
    AlignDown(Portion(Fraction(center, level, steps), width))
  }

  function BandLeft(width: nat, rw: nat): (rx: nat)
    requires rw <= width
    ensures rx % ALIGN == 0 && rx + rw <= width
  {
    AlignDown((width - rw) / 2)
  }

  lemma RealProduct(a: real, b: real)
    requires a >= 0.0 && b >= 0.0
    ensures a * b >= 0.0
  {
  }

  lemma RealTimes(a: real, b: real, c: real)
    requires a <= b && c >= 0.0
    ensures a * c <= b * c
  {
    RealProduct(b - a, c);
    assert (b - a) * c == b * c - a * c;
  }

  /** The share is between the centre's and one, and shrinks inwards. */
  lemma FractionBounds(center: real, level: int, steps: int)
    requires 1 <= level <= steps && 0.0 <= center <= 1.0
    ensures center <= Fraction(center, level, steps) <= 1.0
  {
    var share := (steps - level) as real / steps as real;
    assert 0.0 <= share <= 1.0;
    RealProduct(1.0 - center, share);
    RealTimes(share, 1.0, 1.0 - center);
    assert share * (1.0 - center) == (1.0 - center) * share;
  }

  lemma FloorGrows(a: real, b: real)
    requires a <= b
    ensures a.Floor <= b.Floor
  {
  }

  lemma FloorOf(width: nat)
    ensures (1.0 * width as real).Floor == width
  {
  }

  lemma PortionGrows(f: real, g: real, width: nat)
    requires f <= g
    ensures Portion(f, width) <= Portion(g, width) && Portion(1.0, width) == width
  {
    if f > 0.0 {
      RealTimes(f, g, width as real);
      FloorGrows(f * width as real, g * width as real);
    } else if g > 0.0 {
      RealProduct(g, width as real);
    }
    FloorOf(width);
  }

  lemma FractionShrinks(center: real, level: int, level': int, steps: int)
    requires 1 <= level <= level' <= steps && 0.0 <= center <= 1.0
    ensures Fraction(center, level', steps) <= Fraction(center, level, steps)
  {
    var share, share' := (steps - level) as real / steps as real, (steps - level') as real / steps as real;
    assert share' <= share;
    RealTimes(share', share, 1.0 - center);
    assert share * (1.0 - center) == (1.0 - center) * share && share' * (1.0 - center) == (1.0 - center) * share';
  }

  lemma WidthShrinks(width: nat, center: real, level: int, level': int, steps: int)
    requires 1 <= level <= level' <= steps && 0.0 <= center <= 1.0
    ensures BandWidth(width, center, level', steps) <= BandWidth(width, center, level, steps)
  {
    hide Fraction, Portion;
    FractionShrinks(center, level, level', steps);
    PortionGrows(Fraction(center, level', steps), Fraction(center, level, steps), width);
    AlignMonotone(Portion(Fraction(center, level', steps), width), Portion(Fraction(center, level, steps), width));
  }

  lemma AlignMonotone(a: nat, b: nat)
    requires a <= b
    ensures AlignDown(a) <= AlignDown(b)
  {
  }

  /** A narrower centred band, both aligned, lies within a wider one: each edge moves inwards by a multiple of the
      alignment, and never further than the widths differ. */
  lemma LeftNested(width: nat, outer: nat, inner: nat)
    requires inner <= outer <= width && outer % ALIGN == 0 && inner % ALIGN == 0
    ensures BandLeft(width, outer) <= BandLeft(width, inner)
    ensures BandLeft(width, inner) + inner <= BandLeft(width, outer) + outer
  {
    var a, k := width - outer, (outer - inner) / ALIGN;
    assert outer - inner == ALIGN * k;
    assert (width - inner) / 2 == a / 2 + 16 * k;
  }

  /** Band `index` of `steps`, or none if nothing is left of it. */
  function Band(width: nat, height: nat, center: real, qp: int, steps: int, index: int): Option<Roi>
    requires 0.0 <= center <= 1.0
  {
    if index < 0 || index >= steps then None
    else
      var rw, rh := BandWidth(width, center, index + 1, steps), AlignDown(height);
      if rw == 0 || rh == 0 then None
      else Some(Roi(index, true, ScaleQp(qp, index + 1, steps), BandLeft(width, rw), 0, rw, rh))
  }

  predicate Within(inner: Roi, outer: Roi)
  {
    && outer.left <= inner.left && inner.left + inner.width <= outer.left + outer.width
    && outer.top <= inner.top && inner.top + inner.height <= outer.top + outer.height
  }

  /** Bands nest: an inner one lies within an outer one and has at least its QP; where an inner one exists, so do all
      around it; and all lie within the frame. */
  lemma BandsNest(width: nat, height: nat, center: real, qp: int, steps: int, i: int, j: int)
    requires 0.0 <= center <= 1.0 && 0 <= i <= j < steps && Band(width, height, center, qp, steps, j).Some?
    ensures Band(width, height, center, qp, steps, i).Some?
    ensures
      var outer := Band(width, height, center, qp, steps, i).value;
      var inner := Band(width, height, center, qp, steps, j).value;
      && Within(inner, outer) && outer.left + outer.width <= width && outer.top + outer.height <= height
      && Abs(outer.qp) <= Abs(inner.qp) <= Abs(qp) && (outer.qp == 0 || (outer.qp < 0 <==> qp < 0))
      && (j == steps - 1 ==> inner.qp == qp)
  {
    hide BandWidth, BandLeft, ScaleQp;
    WidthShrinks(width, center, i + 1, j + 1, steps);
    LeftNested(width, BandWidth(width, center, i + 1, steps), BandWidth(width, center, j + 1, steps));
    ScaleQpGrows(qp, i + 1, j + 1, steps);
  }

  /** The QP of a level is its share of the whole, to the nearest, halves away from zero. */
  lemma ScaleQpNearest(qp: int, level: int, steps: int)
    requires 1 <= level <= steps
    ensures var m := Abs(ScaleQp(qp, level, steps));
      2 * (m * steps) <= 2 * (Abs(qp) * level) + steps < 2 * ((m + 1) * steps)
  {
    MulNonneg(Abs(qp), level);
    var n := Abs(qp) * level + steps / 2;
    Quotient(n, steps, Share(Abs(qp), level, steps));
    assert (Share(Abs(qp), level, steps) + 1) * steps == Share(Abs(qp), level, steps) * steps + steps;
  }

  /** The width of a band, to within the alignment: the centre's share of the frame and, of what is left, as many
      parts of `steps` as there are levels further in. The innermost band is the centre's share, and the outermost one
      part less than the frame. */
  lemma BandWidthIs(width: nat, center: real, level: int, steps: int)
    requires 1 <= level <= steps && 0.0 <= center <= 1.0
    ensures var rw := BandWidth(width, center, level, steps) as real;
      var middle, part := center * width as real, (steps - level) as real / steps as real;
      var whole := middle + (width as real - middle) * part;
      rw <= whole < rw + 32.0
  {
    var f, share := Fraction(center, level, steps), (steps - level) as real / steps as real;
    FractionBounds(center, level, steps);
    assert f == center + (1.0 - center) * share;
    Distribute(center, share, width as real);
    RealProduct(f, width as real);
  }

  lemma Distribute(c: real, s: real, w: real)
    ensures (c + (1.0 - c) * s) * w == c * w + (w - c * w) * s
  {
    assert (1.0 - c) * s * w == (1.0 - c) * w * s;
    assert (1.0 - c) * w == w - c * w;
  }

  /** A band in the middle of the frame is off the centre by less than the alignment. */
  lemma BandCentred(width: nat, rw: nat)
    requires rw <= width
    ensures BandLeft(width, rw) <= width - rw - BandLeft(width, rw) <= BandLeft(width, rw) + 2 * ALIGN
  {
  }

  /** The encoder's regions: a call to set one succeeds iff `accepts` says so. */
  class Encoder {
    const accepts: nat -> bool
    var calls: nat
    var regions: seq<Roi>

    constructor (accepts: nat -> bool)
      ensures this.accepts == accepts && |regions| == MAX_STEPS
    {
      this.accepts := accepts;
      calls := 0;
      regions := seq(MAX_STEPS, i requires 0 <= i => Disabled(i));
    }

    ghost predicate Reliable() { forall k: nat :: accepts(k) }

    method SetRoi(roi: Roi) returns (ok: bool)
      requires |regions| == MAX_STEPS && roi.index < MAX_STEPS
      modifies this
      ensures ok == accepts(old(calls)) && calls == old(calls) + 1
      ensures regions == if ok then old(regions)[roi.index := roi] else old(regions)
    {
      ok := accepts(calls);
      calls := calls + 1;
      if ok {
        regions := regions[roi.index := roi];
      }
    }
  }

  datatype RoiConfig = RoiConfig(enabled: bool, steps: Uint16, center: real)

  function ClampedQp(qp: int): int { if qp < -QP_MAX then -QP_MAX else if qp > QP_MAX then QP_MAX else qp }

  function ClampedSteps(steps: Uint16): (s: nat)
    ensures 1 <= s <= MAX_STEPS
  {
    if steps < 1 then 1 else if steps > MAX_STEPS then MAX_STEPS else steps
  }

  function ClampedCenter(center: real): (c: real)
    ensures CENTER_MIN <= c <= CENTER_MAX
  {
    if center < CENTER_MIN then CENTER_MIN else if center > CENTER_MAX then CENTER_MAX else center
  }

  /** What is configured becomes the nearest QP from -30 to 30, number of steps from 1 to 4, and centre from a tenth
      to nine tenths. */
  lemma ClampedNearest(qp: int, qp': int, steps: Uint16, steps': int, center: real, center': real)
    requires -30 <= qp' <= 30 && 1 <= steps' <= 4 && 0.1 <= center' <= 0.9
    ensures -30 <= ClampedQp(qp) <= 30 && Abs(ClampedQp(qp) - qp) <= Abs(qp' - qp)
    ensures 1 <= ClampedSteps(steps) <= 4 && Abs(ClampedSteps(steps) - steps) <= Abs(steps' - steps)
    ensures 0.1 <= ClampedCenter(center) <= 0.9 && Fabs(ClampedCenter(center) - center) <= Fabs(center' - center)
  {
  }

  /** What a region is set to. */
  function Region(width: nat, height: nat, cfg: Option<RoiConfig>, qp: int, i: nat): Roi
  {
    if cfg.None? || !cfg.value.enabled || qp == 0 then Disabled(i)
    else
      var steps := ClampedSteps(cfg.value.steps);
      match Band(width, height, ClampedCenter(cfg.value.center), ClampedQp(qp), steps, i)
      case Some(roi) => roi
      case None => Disabled(i)
  }

  /** Clears all regions and sets the bands. On an encoder that accepts every call, the regions are exactly the bands;
      on any, each region is what it was, cleared or a band, and success means that all the bands are set. */
  method ApplyRoiQp(encoder: Encoder, width: nat, height: nat, cfg: Option<RoiConfig>, qp: int) returns (ok: bool)
    requires |encoder.regions| == MAX_STEPS
    modifies encoder
    ensures |encoder.regions| == MAX_STEPS
    ensures width == 0 || height == 0 ==> !ok && encoder.regions == old(encoder.regions)
    ensures width > 0 && height > 0 && encoder.Reliable() ==>
      ok && forall i :: 0 <= i < MAX_STEPS ==> encoder.regions[i] == Region(width, height, cfg, qp, i)
    ensures ok ==> forall i :: 0 <= i < MAX_STEPS && Region(width, height, cfg, qp, i).enable ==>
      encoder.regions[i] == Region(width, height, cfg, qp, i)
    ensures forall i :: 0 <= i < MAX_STEPS ==>
      encoder.regions[i] in {old(encoder.regions[i]), Disabled(i), Region(width, height, cfg, qp, i)}
  {
    hide Band;
    ok := true;
    if width == 0 || height == 0 {
      return false;
    }
    var i := 0;
    while i < MAX_STEPS
      invariant 0 <= i <= MAX_STEPS && |encoder.regions| == MAX_STEPS
      invariant forall k :: 0 <= k < MAX_STEPS ==> encoder.regions[k] in {old(encoder.regions[k]), Disabled(k)}
      invariant encoder.Reliable() ==> forall k :: 0 <= k < i ==> encoder.regions[k] == Disabled(k)
    {
      var _ := encoder.SetRoi(Disabled(i));
      i := i + 1;
    }
    if cfg.None? || !cfg.value.enabled || qp == 0 {
      return true;
    }
    var clamped, steps, center := ClampedQp(qp), ClampedSteps(cfg.value.steps), ClampedCenter(cfg.value.center);
    i := 0;
    while i < steps
      invariant 0 <= i <= steps && |encoder.regions| == MAX_STEPS
      invariant forall k :: 0 <= k < MAX_STEPS ==>
        encoder.regions[k] in {old(encoder.regions[k]), Disabled(k), Region(width, height, cfg, qp, k)}
      invariant ok ==> forall k :: 0 <= k < i && Region(width, height, cfg, qp, k).enable ==>
        encoder.regions[k] == Region(width, height, cfg, qp, k)
      invariant encoder.Reliable() ==> ok && forall k :: 0 <= k < MAX_STEPS ==>
        encoder.regions[k] == if k < i then Region(width, height, cfg, qp, k) else Disabled(k)
    {
      var roi := Band(width, height, center, clamped, steps, i);
      BandIndex(width, height, center, clamped, steps, i);
      if roi.Some? {
        var set_ := encoder.SetRoi(roi.value);
        if !set_ {
          ok := false;
        }
      }
      i := i + 1;
    }
    NoBands(width, height, center, clamped, steps);
  }

  lemma BandIndex(width: nat, height: nat, center: real, qp: int, steps: int, i: int)
    requires 0.0 <= center <= 1.0
    ensures match Band(width, height, center, qp, steps, i) case None => true case Some(roi) => roi.index == i
  {
  }

  lemma NoBands(width: nat, height: nat, center: real, qp: int, steps: int)
    requires 0.0 <= center <= 1.0
    ensures forall i :: i >= steps ==> Band(width, height, center, qp, steps, i).None?
  {
  }
}
