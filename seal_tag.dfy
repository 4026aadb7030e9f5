/** The sizing decisions of the seal-tag build: whether the text is engraved
    at all, the font size that keeps it on the bottom face, how deep the
    recess is, and how far the text tool is pushed into the body. Lengths
    are in the tag's model units; the bottom face of the body lies in the
    plane y = 0 and the tag rises to its ridge at y = height. */
module SealTag {
  import opened Wrappers

  /** Share of the bottom face's width the text may take up. */
  const WidthShare: real := 0.8
  /** Advance width of one character, as a share of the font size. */
  const CharAdvance: real := 0.6
  /** Largest font size, as a share of the bottom face's depth. */
  const DepthShare: real := 0.4
  /** Recess depth as a share of the tag's height ... */
  const DepthRatio: real := 0.05
  /** ... but never shallower than this. */
  const MinEngraveDepth: real := 0.02
  /** The flat text is laid this far below the bottom face. */
  const PenOffset: real := 0.01

  /** What the build hands the kernel to cut the text: the font size, the
      plane the flat text is laid in and the length it is extruded by
      (upwards, into the body). */
  datatype Engraving = Engraving(fontSize: real, penY: real, extrusion: real)

  /** The font size: as large as lets the text, at CharAdvance per
      character, fill WidthShare of the width, but at most DepthShare of the
      depth. It meets both bounds and equals one of them. */
  function FontSize(width: real, depth: real, textLength: nat): (size: real)
    requires textLength > 0
    ensures size <= (width * WidthShare) / (textLength as real * CharAdvance)
    ensures size <= depth * DepthShare
    ensures size == (width * WidthShare) / (textLength as real * CharAdvance) || size == depth * DepthShare
  {
    var byWidth := (width * WidthShare) / (textLength as real * CharAdvance);
    var byDepth := depth * DepthShare;
    if byWidth <= byDepth then byWidth else byDepth
  }

  /** The recess depth: DepthRatio of the height, floored at
      MinEngraveDepth. It is shallower than the tag's height exactly when
      the height exceeds that floor. */
  function EngraveDepth(height: real): (d: real)
    ensures d >= MinEngraveDepth && d >= height * DepthRatio
    ensures d == MinEngraveDepth || d == height * DepthRatio
    ensures d < height <==> height > MinEngraveDepth
  {
    if height * DepthRatio >= MinEngraveDepth then height * DepthRatio else MinEngraveDepth
  }

  /** How far the flat text is extruded: the recess depth plus the distance
      the pen sits below the bottom face. */
  function ExtrusionLength(height: real): (len: real)
    ensures len > EngraveDepth(height)
  {
    EngraveDepth(height) + PenOffset
  }

  /** The engraving for a build, or None when no text is engraved: text that
      is absent or empty skips engraving. The text tool starts below the
      bottom face, so it crosses it rather than touching it, and ends
      exactly the recess depth above it. */
  function PlanEngraving(width: real, depth: real, height: real, text: Option<string>): (e: Option<Engraving>)
    ensures e.Some? <==> text.Some? && |text.value| > 0
    ensures e.Some? ==> e.value.fontSize == FontSize(width, depth, |text.value|)
    ensures e.Some? ==> e.value.penY < 0.0 && e.value.penY + e.value.extrusion == EngraveDepth(height)
  {
    match text
    case Some(s) =>
      if |s| > 0 then Some(Engraving(FontSize(width, depth, |s|), -PenOffset, ExtrusionLength(height)))
      else None
    case None => None
  }

  /** The body passed on to mesh extraction: the filleted body itself when
      there is no engraving (an absent or empty text leaves it untouched),
      otherwise whatever the kernel's cut of the extruded text from it
      produced (the cut's result is taken as is). */
  function FinalBody<S>(width: real, depth: real, height: real, text: Option<string>,
                        body: S, cut: (S, Engraving, string) -> S): (r: S)
    ensures text.None? || text.value == [] ==> r == body
    ensures text.Some? && text.value != [] ==>
      r == cut(body, PlanEngraving(width, depth, height, text).value, text.value)
  {
    match PlanEngraving(width, depth, height, text)
    case None => body
    case Some(e) => cut(body, e, text.value)
  }

  // ---------------------------------------------------------------------
  // What the sizing guarantees
  // ---------------------------------------------------------------------

  /** At CharAdvance per character the text line is never wider than
      WidthShare of the width. */
  lemma TextFitsWidth(width: real, depth: real, textLength: nat)
    requires textLength > 0
    ensures textLength as real * CharAdvance * FontSize(width, depth, textLength) <= width * WidthShare
  {
    var n := textLength as real * CharAdvance;
    var size := FontSize(width, depth, textLength);
    assert n > 0.0;
    assert size <= (width * WidthShare) / n;
    assert n * size <= n * ((width * WidthShare) / n);
  }

  /** Positive dimensions give a positive font size. */
  lemma FontSizePositive(width: real, depth: real, textLength: nat)
    requires textLength > 0 && width > 0.0 && depth > 0.0
    ensures FontSize(width, depth, textLength) > 0.0
  {
    var n := textLength as real * CharAdvance;
    assert n > 0.0;
    assert (width * WidthShare) / n > 0.0;
  }

  /** Longer text never gets a larger font. */
  lemma FontSizeShrinksWithLength(width: real, depth: real, shorter: nat, longer: nat)
    requires 0 < shorter <= longer && width >= 0.0
    ensures FontSize(width, depth, longer) <= FontSize(width, depth, shorter)
  {
    QuotientAntitone(width * WidthShare, shorter as real * CharAdvance, longer as real * CharAdvance);
  }

  /** A non-negative amount shared out more ways gives each no more. */
  lemma QuotientAntitone(w: real, a: real, b: real)
    requires w >= 0.0 && 0.0 < a <= b
    ensures w / b <= w / a
  {
    var x, y := w / b, w / a;
    assert x * b == w && y * a == w;
    QuotientNonNegative(w, b);
    ScaleMonotone(x, a, b);
    CancelPositive(x, y, a);
  }

  lemma QuotientNonNegative(w: real, b: real)
    requires w >= 0.0 && b > 0.0
    ensures w / b >= 0.0
  {
  }

  lemma ScaleMonotone(x: real, a: real, b: real)
    requires x >= 0.0 && a <= b
    ensures x * a <= x * b
  {
    assert x * b - x * a == x * (b - a);
  }

  lemma CancelPositive(x: real, y: real, a: real)
    requires a > 0.0 && x * a <= y * a
    ensures x <= y
  {
    assert (y - x) * a == y * a - x * a;
  }
}
