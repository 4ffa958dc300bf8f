/** Region colours: RGB triples of unsigned 8-bit components, used as region keys. */
module Colors {

  /** One component of the "Colors" array (a vtkUnsignedCharArray entry). */
  newtype Byte = x: int | 0 <= x < 256

  /** A colour tuple; equality is exact, component by component. */
  datatype Rgb = Rgb(r: Byte, g: Byte, b: Byte)

  const Red: Rgb := Rgb(255, 0, 0)
  const Green: Rgb := Rgb(0, 255, 0)
  const Blue: Rgb := Rgb(0, 0, 255)
  const Yellow: Rgb := Rgb(255, 255, 0)

  /** The tag given to every point of a hemisphere: red for the left one, blue for the right. */
  function HemisphereColor(isLeft: bool): Rgb
  {
    if isLeft then Red else Blue
  }

  /** A colour array of n equal entries. */
  function Uniform(n: nat, c: Rgb): (s: seq<Rgb>)
    ensures |s| == n
    ensures forall i :: 0 <= i < n ==> s[i] == c
  {
    seq(n, _ => c)
  }
}
