/** How the camera adapter derives the rotation hint it hands to the barcode
    recognizer (`getFirebaseOrientation`) and the orientation it reports to
    the host (`getOrientation`). */
module Orientation {
  import JavaArith

  /** The recognizer's four rotation tags. */
  datatype Rotation = Rotation0 | Rotation90 | Rotation180 | Rotation270

  /** The angle, in degrees, a tag stands for. */
  function Degrees(r: Rotation): int {
    match r
    case Rotation0 => 0
    case Rotation90 => 90
    case Rotation180 => 180
    case Rotation270 => 270
  }

  /** The angles that have a tag. */
  predicate IsRightAngle(deg: int) {
    deg == 0 || deg == 90 || deg == 180 || deg == 270
  }

  /** The `switch` over a computed angle: each right angle selects its tag;
      any other value is reported as an error and falls back to Rotation0. */
  function TagOf(deg: int): (r: Rotation)
    ensures IsRightAngle(deg) ==> Degrees(r) == deg
    ensures !IsRightAngle(deg) ==> r == Rotation0
  {
    if deg == 90 then Rotation90
    else if deg == 180 then Rotation180
    else if deg == 270 then Rotation270
    else Rotation0
  }

  /** Choosing a tag by its angle recovers the tag. */
  lemma TagOfDegrees(r: Rotation)
    ensures TagOf(Degrees(r)) == r
  {
  }

  /** The compensation table keyed by display rotation (Surface.ROTATION_0
      to ROTATION_270 are 0 to 3). A key the table does not hold reads as 0,
      the default of the sparse array it is stored in. */
  function Compensation(deviceRotation: int): (c: int)
    ensures 0 <= c < 360 && c % 90 == 0
    ensures !(0 <= deviceRotation < 4) ==> c == 0
  {
    if deviceRotation == 0 then 90
    else if deviceRotation == 1 then 0
    else if deviceRotation == 2 then 270
    else if deviceRotation == 3 then 180
    else 0
  }

  /** The table is a rotation back by a quarter turn per step of the display:
      for every display rotation it holds `90 - 90 * rotation`, modulo 360. */
  lemma CompensationIsQuarterTurns(deviceRotation: int)
    requires 0 <= deviceRotation < 4
    ensures Compensation(deviceRotation) == (90 - 90 * deviceRotation) % 360
  {
  }

  /** The angle the source computes before its `switch`, with Java's remainder. */
  function RotationCompensation(deviceRotation: int, sensorOrientation: int): int {
    JavaArith.Rem(Compensation(deviceRotation) + sensorOrientation + 270, 360)
  }

  /** The rotation hint attached to every frame. */
  function FirebaseOrientation(deviceRotation: int, sensorOrientation: int): (r: Rotation)
    ensures var c := RotationCompensation(deviceRotation, sensorOrientation);
      (IsRightAngle(c) ==> Degrees(r) == c) && (!IsRightAngle(c) ==> r == Rotation0)
  {
    TagOf(RotationCompensation(deviceRotation, sensorOrientation))
  }

  /** For a sensor mounted at a right angle the error branch of the `switch`
      cannot be reached, whatever the display rotation. */
  lemma {:induction false} CompensationIsRightAngle(deviceRotation: int, sensorOrientation: int)
    requires IsRightAngle(sensorOrientation)
    ensures IsRightAngle(RotationCompensation(deviceRotation, sensorOrientation))
  {
    var s := sensorOrientation;
    var c := Compensation(deviceRotation);
    assert c + s + 270 >= 0;
    if s == 0 {
      assert RotationCompensation(deviceRotation, s) == (c + 270) % 360;
    } else if s == 90 {
      assert RotationCompensation(deviceRotation, s) == c;
    } else if s == 180 {
      assert RotationCompensation(deviceRotation, s) == (c + 90) % 360;
    } else {
      assert RotationCompensation(deviceRotation, s) == (c + 180) % 360;
    }
  }

  /** For a right-angle sensor the tag is the sensor angle turned back by the
      display rotation, a quarter turn per step. */
  lemma {:induction false} FirebaseOrientationIsExact(deviceRotation: int, sensorOrientation: int)
    requires IsRightAngle(sensorOrientation) && 0 <= deviceRotation < 4
    ensures Degrees(FirebaseOrientation(deviceRotation, sensorOrientation))
              == (sensorOrientation + 360 - 90 * deviceRotation) % 360
  {
    var s := sensorOrientation;
    CompensationIsRightAngle(deviceRotation, s);
    var x := RotationCompensation(deviceRotation, s);
    if deviceRotation == 0 {
      assert x == (s + 360) % 360;
    } else if deviceRotation == 1 {
      assert x == (s + 270) % 360;
    } else if deviceRotation == 2 {
      assert x == (s + 540) % 360 == (s + 180) % 360;
    } else {
      assert x == (s + 450) % 360 == (s + 90) % 360;
    }
  }

  /** For a fixed right-angle sensor, the four display rotations give four
      different tags. */
  lemma {:induction false} DisplayRotationsDistinguished(d1: int, d2: int, sensorOrientation: int)
    requires IsRightAngle(sensorOrientation)
    requires 0 <= d1 < 4 && 0 <= d2 < 4 && d1 != d2
    ensures FirebaseOrientation(d1, sensorOrientation) != FirebaseOrientation(d2, sensorOrientation)
  {
    var s := sensorOrientation;
    var t0, t1, t2, t3 := FirebaseOrientation(0, s), FirebaseOrientation(1, s),
                          FirebaseOrientation(2, s), FirebaseOrientation(3, s);
    if s == 0 {
      assert [t0, t1, t2, t3] == [Rotation0, Rotation270, Rotation180, Rotation90];
    } else if s == 90 {
      assert [t0, t1, t2, t3] == [Rotation90, Rotation0, Rotation270, Rotation180];
    } else if s == 180 {
      assert [t0, t1, t2, t3] == [Rotation180, Rotation90, Rotation0, Rotation270];
    } else {
      assert [t0, t1, t2, t3] == [Rotation270, Rotation180, Rotation90, Rotation0];
    }
    assert d1 == 0 || d1 == 1 || d1 == 2 || d1 == 3;
    assert d2 == 0 || d2 == 1 || d2 == 2 || d2 == 3;
  }

  /** Display rotation 1 (ROTATION_90) with a sensor at 90 degrees gives tag 0. */
  lemma QuarterTurnExample()
    ensures RotationCompensation(1, 90) == 0
    ensures FirebaseOrientation(1, 90) == Rotation0
  {
  }

  /** The orientation reported to the host (`getOrientation`). */
  function DisplayOrientation(sensorOrientation: int): (o: int)
    ensures sensorOrientation >= -270 ==> 0 <= o < 360
  {
    JavaArith.Rem(sensorOrientation + 270, 360)
  }

  /** The reported orientation is the sensor angle turned back a quarter turn:
      turning it forward again gives the sensor angle. */
  lemma DisplayOrientationInverse(sensorOrientation: int)
    requires 0 <= sensorOrientation < 360
    ensures JavaArith.Rem(DisplayOrientation(sensorOrientation) + 90, 360) == sensorOrientation
  {
  }

  /** The frame tag equals the reported orientation turned by the display's
      compensation angle. */
  lemma FirebaseOrientationFromDisplay(deviceRotation: int, sensorOrientation: int)
    requires 0 <= sensorOrientation < 360
    ensures RotationCompensation(deviceRotation, sensorOrientation)
      == (Compensation(deviceRotation) + DisplayOrientation(sensorOrientation)) % 360
  {
  }
}
