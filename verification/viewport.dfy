/**
 The visible rectangle of the complex plane and `calculateBounds`, which
 widens a requested rectangle about its centre until its sides have the
 raster's aspect ratio.

 The program computes in IEEE doubles; this model computes in exact reals,
 so equalities such as `lengthRe == lengthIm * aspect` hold exactly here.
 */
module Viewport {

  /** A requested rectangle, given by its four edges. */
  datatype Rect = Rect(minRe: real, maxRe: real, minIm: real, maxIm: real)

  /** The rectangle returned by `calculateBounds`, with its derived centre and side lengths. */
  datatype Bounds = Bounds(
    minRe: real, maxRe: real, minIm: real, maxIm: real,
    centerRe: real, centerIm: real,
    lengthRe: real, lengthIm: real)
  {
    /** The four edges, as a request that can be fed back to `CalculateBounds`. */
    function Edges(): Rect {
      Rect(minRe, maxRe, minIm, maxIm)
    }
  }

  /**
   The comparison `a / b < c` with IEEE semantics for a zero divisor:
   a positive numerator over zero is +Infinity (never below `c`), a negative
   one is -Infinity (always below), and 0 / 0 is NaN (never below).
   */
  predicate QuotientBelow(a: real, b: real, c: real): (r: bool)
    ensures b != 0.0 ==> (r <==> a / b < c)
    ensures b == 0.0 ==> (r <==> a < 0.0)
  {
    if b > 0.0 then a < b * c
    else if b < 0.0 then a > b * c
    else a < 0.0
  }

  lemma QuotientBelowIsDivision(a: real, b: real, c: real)
    requires b != 0.0
    ensures QuotientBelow(a, b, c) <==> a / b < c
  {
    assert a == (a / b) * b;
  }

  /**
   `calculateBounds(minRe, maxRe, minIm, maxIm)` with the canvas aspect ratio
   (width / height) as a parameter: keep the centre, lengthen whichever side
   is too short for the aspect ratio, and rebuild the edges about the centre.
   */
  function CalculateBounds(req: Rect, aspect: real): (b: Bounds)
    requires aspect > 0.0
    ensures b.centerRe == (req.minRe + req.maxRe) / 2.0
    ensures b.centerIm == (req.minIm + req.maxIm) / 2.0
    ensures b.lengthRe == b.lengthIm * aspect
    ensures b.maxRe - b.minRe == b.lengthRe && b.maxIm - b.minIm == b.lengthIm
    ensures b.minRe + b.maxRe == 2.0 * b.centerRe && b.minIm + b.maxIm == 2.0 * b.centerIm
  {
    var centerRe := (req.minRe + req.maxRe) / 2.0;
    var centerIm := (req.minIm + req.maxIm) / 2.0;
    var lengthRe0 := req.maxRe - req.minRe;
    var lengthIm0 := req.maxIm - req.minIm;
    var lengthRe := if QuotientBelow(lengthRe0, lengthIm0, aspect) then lengthIm0 * aspect else lengthRe0;
    var lengthIm := if QuotientBelow(lengthRe0, lengthIm0, aspect) then lengthIm0 else lengthRe0 / aspect;
    var halfLengthRe := lengthRe / 2.0;
    var halfLengthIm := lengthIm / 2.0;
    Bounds(
      centerRe - halfLengthRe, centerRe + halfLengthRe,
      centerIm - halfLengthIm, centerIm + halfLengthIm,
      centerRe, centerIm, lengthRe, lengthIm)
  }

  /** At most one side is lengthened: the other keeps its requested length. */
  lemma OneSideKept(req: Rect, aspect: real)
    requires aspect > 0.0
    ensures var b := CalculateBounds(req, aspect);
      || b.lengthIm == req.maxIm - req.minIm
      || b.lengthRe == req.maxRe - req.minRe
  {
  }

  /**
   For a well-formed request, no side is ever shortened, so the result
   contains the requested rectangle.
   */
  lemma NeverShrinks(req: Rect, aspect: real)
    requires aspect > 0.0
    requires req.minRe <= req.maxRe && req.minIm <= req.maxIm
    ensures var b := CalculateBounds(req, aspect);
      && b.lengthRe >= req.maxRe - req.minRe
      && b.lengthIm >= req.maxIm - req.minIm
      && b.minRe <= req.minRe && req.maxRe <= b.maxRe
      && b.minIm <= req.minIm && req.maxIm <= b.maxIm
  {
    var lre, lim := req.maxRe - req.minRe, req.maxIm - req.minIm;
    if !QuotientBelow(lre, lim, aspect) {
      assert lre >= lim * aspect;
      assert lre / aspect >= lim by {
        assert (lre / aspect) * aspect == lre;
      }
    }
  }

  /**
   The result is the least conforming enlargement: any side lengths with the
   aspect ratio that cover the request are at least as long as the result's.
   */
  lemma LeastEnlargement(req: Rect, aspect: real, lengthRe: real, lengthIm: real)
    requires aspect > 0.0
    requires req.minRe <= req.maxRe && req.minIm <= req.maxIm
    requires lengthRe == lengthIm * aspect
    requires lengthRe >= req.maxRe - req.minRe && lengthIm >= req.maxIm - req.minIm
    ensures var b := CalculateBounds(req, aspect);
      b.lengthRe <= lengthRe && b.lengthIm <= lengthIm
  {
    var lre, lim := req.maxRe - req.minRe, req.maxIm - req.minIm;
    if !QuotientBelow(lre, lim, aspect) {
      var q := lre / aspect;
      assert q * aspect == lre;
      assert (lengthIm - q) * aspect >= 0.0;
    }
  }

  /** A request that already has the aspect ratio comes back with the same edges. */
  lemma ConformingUnchanged(req: Rect, aspect: real)
    requires aspect > 0.0
    requires req.maxRe - req.minRe == (req.maxIm - req.minIm) * aspect
    ensures CalculateBounds(req, aspect).Edges() == req
  {
    var lre, lim := req.maxRe - req.minRe, req.maxIm - req.minIm;
    assert !QuotientBelow(lre, lim, aspect);
    var q := lre / aspect;
    assert q * aspect == lre;
    assert (q - lim) * aspect == 0.0;
  }

  /** Feeding the result back in changes nothing. */
  lemma Idempotent(req: Rect, aspect: real)
    requires aspect > 0.0
    ensures CalculateBounds(CalculateBounds(req, aspect).Edges(), aspect) == CalculateBounds(req, aspect)
  {
    var b := CalculateBounds(req, aspect);
    ConformingUnchanged(b.Edges(), aspect);
  }

  /**
   The program's initial view (-2.25, 0.75, -1, 1) on a 3:2 canvas already
   conforms: it comes back unchanged, centred at (-0.75, 0), with sides 3 and 2.
   */
  lemma InitialViewExample()
    ensures var b := CalculateBounds(Rect(-2.25, 0.75, -1.0, 1.0), 1.5);
      && b == Bounds(-2.25, 0.75, -1.0, 1.0, -0.75, 0.0, 3.0, 2.0)
  {
  }
}
