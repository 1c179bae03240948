/** Rotatable: rotating a view by an angle given in degrees or in radians. */
module Rotation {

  /** CGFloat(Double.pi): the double nearest to pi, written out exactly. Only
      its being positive is used below. */
  const Pi: real := 3.141592653589793115997963468544185161590576171875

  function DegreesToRadians(value: real): (radians: real)
    ensures radians * 180.0 / Pi == value
  {
    Pi * value / 180.0
  }

  function RadiansToDegrees(value: real): (degrees: real)
    ensures degrees * Pi / 180.0 == value
  {
    value * 180.0 / Pi
  }

  /** A straight angle is pi radians; no angle is no angle. */
  lemma StraightAngle()
    ensures DegreesToRadians(180.0) == Pi && DegreesToRadians(0.0) == 0.0
    ensures RadiansToDegrees(Pi) == 180.0 && RadiansToDegrees(0.0) == 0.0
  {
  }

  /** Each conversion undoes the other. */
  lemma ConversionsAreInverse(x: real)
    ensures RadiansToDegrees(DegreesToRadians(x)) == x
    ensures DegreesToRadians(RadiansToDegrees(x)) == x
  {
  }

  /** Both conversions are linear and increasing: they add, and keep sign and order. */
  lemma ConversionsAreLinear(a: real, b: real)
    ensures DegreesToRadians(a + b) == DegreesToRadians(a) + DegreesToRadians(b)
    ensures RadiansToDegrees(a + b) == RadiansToDegrees(a) + RadiansToDegrees(b)
    ensures a < b <==> DegreesToRadians(a) < DegreesToRadians(b)
    ensures a < b <==> RadiansToDegrees(a) < RadiansToDegrees(b)
    ensures (a > 0.0 <==> DegreesToRadians(a) > 0.0) && (a < 0.0 <==> DegreesToRadians(a) < 0.0)
    ensures (a > 0.0 <==> RadiansToDegrees(a) > 0.0) && (a < 0.0 <==> RadiansToDegrees(a) < 0.0)
  {
  }

  /** A CGAffineTransform as far as rotate sets it: the identity, or the
      rotation built by CGAffineTransform(rotationAngle:). */
  datatype AffineTransform = Identity | RotationBy(radians: real)

  /** A view adopting Rotatable. */
  class RotatableView {
    var transform: AffineTransform

    constructor ()
      ensures transform == Identity
    {
      transform := Identity;
    }

    /** rotate(radians:animated:): the transform becomes that rotation; the
        animated flag changes nothing. */
    method RotateRadians(radians: real, animated: bool)
      modifies this
      ensures transform == RotationBy(radians)
    {
      transform := RotationBy(radians);
    }

    /** rotate(degrees:animated:): the same as rotating by the angle in radians. */
    method RotateDegrees(degrees: real, animated: bool)
      modifies this
      ensures transform == RotationBy(DegreesToRadians(degrees))
    {
      RotateRadians(DegreesToRadians(degrees), animated);
    }
  }
}
