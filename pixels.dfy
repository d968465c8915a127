/**
 * Colour samples of the point-cloud reflectance component: the SColor record
 * (four 8-bit channels x, y, z, a) and its channel-order conversion.
 */
module Pixels {

  /** An 8-bit unsigned channel value (MIL_UINT8, unsigned char). */
  newtype byte = b: int | 0 <= b < 256

  /** The value held by one SColor record. For an RGB8 texture, x is red,
      y is green and z is blue; a is a fourth, padding channel. */
  datatype Color = Color(x: byte, y: byte, z: byte, a: byte)

  /** Two colours agree on their three colour channels (alpha aside). */
  predicate SameRgb(c: Color, d: Color) {
    c.x == d.x && c.y == d.y && c.z == d.z
  }

  /** The value a receiver holding `receiver` takes on after
      ConvertRGBBGR(other), when other is a different record. */
  function Converted(receiver: Color, other: Color): Color {
    Color(other.z, other.y, other.x, receiver.a)
  }

  /** Converting a converted colour again gives back the original colour
      channels: on RGB the conversion is an involution. */
  lemma ConvertedTwiceRestoresRgb(first: Color, second: Color, original: Color)
    ensures SameRgb(Converted(second, Converted(first, original)), original)
    ensures Converted(second, Converted(first, original)) == original.(a := second.a)
  {
  }

  /** One SColor record in memory. */
  class SColor {
    var x: byte
    var y: byte
    var z: byte
    var a: byte

    /** The record's current value. */
    function Value(): Color
      reads this
    {
      Color(x, y, z, a)
    }

    /** Sets this record's colour channels from `other` in reverse order.
        The three assignments happen one after the other, so when `other`
        is this very record the third one reads the already overwritten x:
        the call then yields (z, y, z) rather than a swap. */
    method ConvertRGBBGR(other: SColor)
      modifies this
      ensures x == old(other.z) && y == old(other.y) && a == old(a)
      ensures z == (if other == this then old(other.z) else old(other.x))
      ensures other != this ==> Value() == Converted(old(Value()), old(other.Value()))
      ensures other != this ==> unchanged(other)
      ensures other == this ==> Value() == old(Value()).(x := old(z))
    {
      x := other.z;
      y := other.y;
      z := other.x;
    }
  }
}
