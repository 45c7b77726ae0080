/**
 * The geometry of the editor's front-elevation canvas (drawCabinetCanvas and the canvas
 * click handler in src/pages/EditorPage.jsx): centimetres become pixels at 3 px/cm,
 * cabinets stand left to right after a 24 px ruler and a 20 px margin, 12 px apart,
 * and all of them stand on the floor line.
 */
module CanvasLayout {
  import opened Wrappers
  import opened Cabinets

  const Scale: int := 3
  const RulerSize: int := 24
  const Gap: int := 12
  /** Where the first cabinet starts: `RULER_SIZE + 20`. */
  const FirstLeft: int := RulerSize + 20

  /** `cabinets.reduce((s, c) => s + c.width, 0)`: a left fold over the row. */
  function TotalWidth(cabs: seq<Cabinet>): int
    decreases |cabs|
  {
    if cabs == [] then 0 else TotalWidth(cabs[..|cabs| - 1]) + cabs[|cabs| - 1].width
  }

  /** Closed form of cabinet `i`'s left edge: 44 + the sum over j < i of (3 w_j + 12). */
  function Left(cabs: seq<Cabinet>, i: int): int
    requires 0 <= i <= |cabs|
  {
    FirstLeft + Scale * TotalWidth(cabs[..i]) + Gap * i
  }

  /** The rectangle a cabinet body is drawn in: left, top, width, height in pixels. */
  datatype Box = Box(x: int, y: int, w: int, h: int)

  /** A click at `x` lies on cabinet `i`'s span, both edges included. */
  predicate InSpan(cabs: seq<Cabinet>, i: int, x: int)
    requires 0 <= i < |cabs|
  {
    Left(cabs, i) <= x <= Left(cabs, i) + Scale * cabs[i].width
  }

  /** One more cabinet adds its width to the fold. */
  lemma PrefixWidth(cabs: seq<Cabinet>, i: int)
    requires 0 <= i < |cabs|
    ensures TotalWidth(cabs[..i + 1]) == TotalWidth(cabs[..i]) + cabs[i].width
  {
    assert cabs[..i + 1][..i] == cabs[..i];
  }

  /**
   * The drawing loop: walks the row with the `xOffset` accumulator and yields each
   * cabinet's body rectangle and the canvas size. Each body's left edge is the closed form
   * Left, its top is `24 + 3 (ceilingH - h)`, so every body's bottom edge is the floor
   * line `24 + 3 ceilingH`; the canvas is `(3 Σw + 64) × (3 ceilingH + 64)`.
   */
  method LayoutCabinets(cabs: seq<Cabinet>, ceilingH: int) returns (boxes: seq<Box>, canvasW: int, canvasH: int)
    ensures |boxes| == |cabs|
    ensures forall i :: 0 <= i < |cabs| ==>
      boxes[i] == Box(Left(cabs, i), RulerSize + Scale * (ceilingH - cabs[i].height), Scale * cabs[i].width, Scale * cabs[i].height)
    ensures forall i :: 0 <= i < |boxes| ==> boxes[i].y + boxes[i].h == RulerSize + Scale * ceilingH
    ensures canvasW == Scale * TotalWidth(cabs) + 64
    ensures canvasH == Scale * ceilingH + 64
  {
    canvasW := TotalWidth(cabs) * Scale + RulerSize + 40;
    canvasH := ceilingH * Scale + RulerSize + 40;
    var xOffset := RulerSize + 20;
    boxes := [];
    var i := 0;
    while i < |cabs|
      invariant 0 <= i <= |cabs|
      invariant |boxes| == i
      invariant xOffset == Left(cabs, i)
      invariant forall k :: 0 <= k < i ==>
        boxes[k] == Box(Left(cabs, k), RulerSize + Scale * (ceilingH - cabs[k].height), Scale * cabs[k].width, Scale * cabs[k].height)
    {
      var cw := cabs[i].width * Scale;
      var ch := cabs[i].height * Scale;
      var cy := RulerSize + (ceilingH - cabs[i].height) * Scale;
      boxes := boxes + [Box(xOffset, cy, cw, ch)];
      PrefixWidth(cabs, i);
      xOffset := xOffset + cw + 12;
      i := i + 1;
    }
  }

  /** With widths that are not negative, the fold only grows along the row. */
  lemma {:induction false} TotalWidthMonotone(cabs: seq<Cabinet>, i: int, k: int)
    requires 0 <= i <= k <= |cabs|
    requires forall j :: 0 <= j < |cabs| ==> cabs[j].width >= 0
    ensures TotalWidth(cabs[..i]) <= TotalWidth(cabs[..k])
    decreases k - i
  {
    if i < k {
      TotalWidthMonotone(cabs, i, k - 1);
      PrefixWidth(cabs, k - 1);
    }
  }

  /** Any later cabinet starts at least one 12 px gap after an earlier one ends. */
  lemma SpansSeparated(cabs: seq<Cabinet>, i: int, k: int)
    requires 0 <= i < k < |cabs|
    requires forall j :: 0 <= j < |cabs| ==> cabs[j].width >= 0
    ensures Left(cabs, i) + Scale * cabs[i].width + Gap <= Left(cabs, k)
  {
    PrefixWidth(cabs, i);
    TotalWidthMonotone(cabs, i + 1, k);
  }

  /** A click hits at most one cabinet. */
  lemma HitIsUnique(cabs: seq<Cabinet>, i: int, k: int, x: int)
    requires 0 <= i < |cabs| && 0 <= k < |cabs|
    requires forall j :: 0 <= j < |cabs| ==> cabs[j].width >= 0
    requires InSpan(cabs, i, x) && InSpan(cabs, k, x)
    ensures i == k
  {
    if i < k {
      SpansSeparated(cabs, i, k);
    } else if k < i {
      SpansSeparated(cabs, k, i);
    }
  }

  /**
   * The click hit-test: re-walks the offsets of the drawing loop and stops at the first
   * cabinet whose span holds `x`; when no span holds `x` (a gap, a margin, past the row)
   * nothing is hit.
   */
  method HitTest(cabs: seq<Cabinet>, x: int) returns (hit: Option<nat>)
    ensures hit.Some? ==> hit.value < |cabs| && InSpan(cabs, hit.value, x)
    ensures hit.Some? ==> forall j :: 0 <= j < hit.value ==> !InSpan(cabs, j, x)
    ensures hit.None? <==> forall j :: 0 <= j < |cabs| ==> !InSpan(cabs, j, x)
  {
    hit := None;
    var xOff := RulerSize + 20;
    var i := 0;
    while i < |cabs|
      invariant 0 <= i <= |cabs|
      invariant xOff == Left(cabs, i)
      invariant forall j :: 0 <= j < i ==> !InSpan(cabs, j, x)
    {
      var cw := cabs[i].width * Scale;
      if x >= xOff && x <= xOff + cw {
        hit := Some(i);
        assert InSpan(cabs, i, x);
        break;
      }
      PrefixWidth(cabs, i);
      xOff := xOff + cw + 12;
      i := i + 1;
    }
  }

  /** The canvas width as line 17 computes it: the 12 px gaps are not counted. */
  function CanvasWidthAsWritten(cabs: seq<Cabinet>): int {
    TotalWidth(cabs) * Scale + RulerSize + 40
  }

  /**
   * As written, the last cabinet's right edge stays on the canvas exactly when the row
   * has at most two cabinets: with three 60 cm cabinets it ends 4 px past the edge.
   */
  lemma LastCabinetFitsAsWrittenIff(cabs: seq<Cabinet>)
    requires |cabs| >= 1
    ensures Left(cabs, |cabs| - 1) + Scale * cabs[|cabs| - 1].width <= CanvasWidthAsWritten(cabs) <==> |cabs| <= 2
  {
    PrefixWidth(cabs, |cabs| - 1);
    assert cabs[..|cabs|] == cabs;
  }

  /** Three standard cabinets overflow the canvas as written. */
  lemma ThreeCabinetsOverflow()
    ensures var cabs := [NewCabinet(1), NewCabinet(2), NewCabinet(3)];
      Left(cabs, 2) + Scale * cabs[2].width == CanvasWidthAsWritten(cabs) + 4
  {
    var cabs := [NewCabinet(1), NewCabinet(2), NewCabinet(3)];
    LastCabinetFitsAsWrittenIff(cabs);
    assert cabs[..2][..1] == [cabs[0]];
    assert cabs[..2] == [cabs[0], cabs[1]];
    assert cabs[..1][..0] == [];
    assert cabs[..3][..2] == cabs[..2];
    assert cabs[..3] == cabs;
  }

  /** The canvas width with the gaps counted, keeping the 20 px right margin. */
  function CanvasWidth(cabs: seq<Cabinet>): int {
    CanvasWidthAsWritten(cabs) + Gap * (if |cabs| > 0 then |cabs| - 1 else 0)
  }

  /** With the gaps counted, every cabinet ends at least 20 px before the canvas edge. */
  lemma CabinetsFitCanvas(cabs: seq<Cabinet>, i: int)
    requires 0 <= i < |cabs|
    requires forall j :: 0 <= j < |cabs| ==> cabs[j].width >= 0
    ensures Left(cabs, i) + Scale * cabs[i].width + 20 <= CanvasWidth(cabs)
  {
    PrefixWidth(cabs, i);
    TotalWidthMonotone(cabs, i + 1, |cabs|);
    assert cabs[..|cabs|] == cabs;
  }
}
