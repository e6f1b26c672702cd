/** Degree/radian conversion as the core writes it with `np.pi`. */
module Units {

  /** `np.pi`, written as the shortest decimal that denotes the same double. */
  const Pi: real := 3.141592653589793

  /** `x * np.pi / 180`: degrees to radians. */
  function DegToRad(x: real): real {
    x * (Pi / 180.0)
  }

  /** `x * 180 / np.pi`: radians to degrees. */
  function RadToDeg(x: real): real {
    x * 180.0 / Pi
  }

  /** On reals the two conversions undo each other exactly. */
  lemma RadToDegUndoesDegToRad(x: real)
    ensures RadToDeg(DegToRad(x)) == x
    ensures DegToRad(RadToDeg(x)) == x
  {
  }
}
