/** File names: the narrow (ANSI) name given on the command line, its widening
    to a wide-character string, and the name of the PNG file written beside it.

    The program is built with MSVC for Windows, where `char` is a signed 8-bit
    type and `wchar_t` an unsigned 16-bit type. Widening a byte therefore
    sign-extends it: bytes 0..127 keep their code, a byte `b` in 128..255
    becomes the wide character `b + 0xFF00`. */
module Text {

  /** One byte of a narrow string, as its unsigned code. */
  newtype Char8 = x: int | 0 <= x < 0x100

  /** One UTF-16 code unit (`wchar_t`). */
  newtype WChar = x: int | 0 <= x < 0x1_0000

  /** The conversion of one `char` to `wchar_t`. */
  function Widen(c: Char8): (w: WChar)
    ensures c < 0x80 ==> w as int == c as int
    ensures 0x80 <= c ==> w as int == c as int - 0x100 + 0x1_0000
  {
    if c < 0x80 then c as int as WChar else (c as int + 0xFF00) as WChar
  }

  /** The conversion of one `wchar_t` back to `char`: its low byte. */
  function Narrow(w: WChar): (c: Char8)
  {
    (w as int % 0x100) as Char8
  }

  /** Narrowing undoes widening, so no two bytes widen to the same character. */
  lemma NarrowWiden(c: Char8)
    ensures Narrow(Widen(c)) == c
  {
  }

  /** A2WStr: the wide string with one character per input byte, in order. */
  function A2WStr(s: seq<Char8>): (r: seq<WChar>)
    ensures |r| == |s|
    ensures forall i :: 0 <= i < |s| ==> r[i] == Widen(s[i])
  {
    if s == [] then [] else [Widen(s[0])] + A2WStr(s[1..])
  }

  /** The narrow string whose bytes are the low bytes of `w`. */
  function NarrowStr(w: seq<WChar>): (r: seq<Char8>)
    ensures |r| == |w|
    ensures forall i :: 0 <= i < |w| ==> r[i] == Narrow(w[i])
  {
    if w == [] then [] else [Narrow(w[0])] + NarrowStr(w[1..])
  }

  /** Widening a whole string loses nothing: narrowing it back gives the input. */
  lemma {:induction false} NarrowA2WStr(s: seq<Char8>)
    ensures NarrowStr(A2WStr(s)) == s
  {
    if s != [] {
      NarrowWiden(s[0]);
      NarrowA2WStr(s[1..]);
      assert A2WStr(s) == [Widen(s[0])] + A2WStr(s[1..]);
      assert NarrowStr(A2WStr(s)) == [Narrow(Widen(s[0]))] + NarrowStr(A2WStr(s[1..]));
    }
  }

  /** An ASCII name widens to the same codes. */
  lemma AsciiUnchanged(s: seq<Char8>, i: int)
    requires 0 <= i < |s| && s[i] < 0x80
    ensures A2WStr(s)[i] as int == s[i] as int
  {
  }

  /** The wide string ".png". */
  const PngExtension: seq<WChar> := [0x2E, 0x70, 0x6E, 0x67]

  /** The name of the PNG file written for the input file `input`. */
  function OutputFilename(input: seq<Char8>): (r: seq<WChar>)
    ensures |r| == |input| + 4
    ensures r[..|input|] == A2WStr(input)
    ensures r[|input|..] == PngExtension
  {
    A2WStr(input) + PngExtension
  }

  /** Different input names never give the same output name, and the input
      name can be read back from the output name. */
  lemma {:induction false} OutputFilenameInjective(a: seq<Char8>, b: seq<Char8>)
    ensures NarrowStr(OutputFilename(a)[..|a|]) == a
    ensures OutputFilename(a) == OutputFilename(b) ==> a == b
  {
    NarrowA2WStr(a);
    NarrowA2WStr(b);
    if OutputFilename(a) == OutputFilename(b) {
      assert |a| == |b|;
    }
  }
}
