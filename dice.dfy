/**
 * A die shown as a CSS cube. Only its logical state is modelled: the value
 * it was last rolled to and the fixed cube rotation that shows each face.
 */
module Dice {
  import opened Wrappers
  import Text

  const InfoPrefix := "Dadu menunjukkan angka "

  /** The cube rotation that brings the face for value to the front; None for a value that is not a face. */
  function GetRotation(value: int): (r: Option<string>)
    ensures r.Some? <==> 1 <= value <= 6
  {
    if value == 1 then Some("rotateX(0deg) rotateY(0deg)")
    else if value == 2 then Some("rotateX(90deg) rotateY(0deg)")
    else if value == 3 then Some("rotateX(0deg) rotateY(-90deg)")
    else if value == 4 then Some("rotateX(0deg) rotateY(90deg)")
    else if value == 5 then Some("rotateX(-90deg) rotateY(0deg)")
    else if value == 6 then Some("rotateX(0deg) rotateY(180deg)")
    else None
  }

  /** Different face values are shown by different rotations. */
  lemma RotationsDistinct(a: int, b: int)
    requires 1 <= a <= 6 && 1 <= b <= 6 && a != b
    ensures GetRotation(a) != GetRotation(b)
  {
  }

  class Dice3D {
    var value: int

    constructor ()
      ensures value == 1
    {
      value := 1;
    }

    /** Sets the face to show; the spin animation and the sound are not modelled. */
    method Roll(finalValue: int)
      modifies this
      ensures value == finalValue
    {
      value := finalValue;
    }

    function Info(): string
      reads this
    {
      InfoPrefix + Text.IntToString(value)
    }
  }

  /** Reads the value back out of a die's info text. */
  function ValueOfInfo(s: string): Option<int>
  {
    if |InfoPrefix| <= |s| && s[..|InfoPrefix|] == InfoPrefix then Text.ParseInt(s[|InfoPrefix|..])
    else None
  }

  /** A die's info text names the value it shows. */
  lemma InfoNamesValue(d: Dice3D)
    ensures ValueOfInfo(d.Info()) == Some(d.value)
  {
    var s := d.Info();
    assert s[..|InfoPrefix|] == InfoPrefix;
    assert s[|InfoPrefix|..] == Text.IntToString(d.value);
    Text.ParseIntToString(d.value);
  }
}
