/** The red/blue channel swap that turns the rasterizer's RGBA output into the
    BGRA layout of a 32-bit device-independent bitmap.

    The buffer is a flat array of bytes. It holds `height` rows of `width`
    four-byte pixels; consecutive rows start `pitch` bytes apart, and `pitch`
    is negative for a bottom-up bitmap. Bytes between the end of one row's
    pixels and the start of the next row are padding. Every layout is
    described here in a normalised, top-down form (`Layout`): the row lowest in
    memory starts at `top` and the rows follow each other `step == |pitch|`
    bytes apart. */
module Pixels {

  /** BYTE: one channel of an RGBQUAD pixel. */
  type Byte = bv8

  function Abs(n: int): (a: nat) { if n < 0 then -n else n }

  /** Quotient and remainder are determined by the usual decomposition. */
  lemma DivModUnique(a: int, d: int, q: int, r: int)
    requires 0 < d && 0 <= r < d && a == q * d + r
    ensures a / d == q && a % d == r
  {
    var q', r' := a / d, a % d;
    assert a == q' * d + r';
    if q' > q {
      MulAtLeast(q' - q, d);
    } else if q' < q {
      MulAtLeast(q - q', d);
    }
  }

  lemma MulAtLeast(k: int, d: int)
    requires 1 <= k && 0 < d
    ensures k * d >= d
  {
  }

  lemma MulMono(a: int, b: int, d: nat)
    requires a <= b
    ensures a * d <= b * d
  {
  }

  /** The rows of an image, normalised to a top-down order in memory. */
  datatype Layout = Layout(top: int, width: nat, height: nat, step: nat)
  {
    /** Every row holds its pixels, and every pixel lies in a buffer of `len` bytes. */
    predicate Within(len: nat)
    {
      4 * width <= step &&
      (width == 0 || height == 0 || (0 <= top && top + (height - 1) * step + 4 * width <= len))
    }

    /** Byte offset of channel `c` of the pixel in column `x` of row `r`. */
    function At(r: int, x: int, c: int): (i: int)
    {
      top + r * step + 4 * x + c
    }

    /** Byte `i` belongs to a pixel (and not to padding or to memory outside the rows). */
    predicate Visible(i: int)
      requires 4 * width <= step
    {
      width > 0 && top <= i && (i - top) / step < height && (i - top) % step < 4 * width
    }

    /** The byte whose value the swap moves to offset `i`: the red byte of a
        pixel for its blue byte, the blue byte for its red byte, `i` itself
        for every other byte. */
    function Partner(i: int): (j: int)
      requires 4 * width <= step
      ensures j == i || j == i + 2 || j == i - 2
    {
      if !Visible(i) then i
      else if (i - top) % step % 4 == 0 then i + 2
      else if (i - top) % step % 4 == 2 then i - 2
      else i
    }

    /** Partner of `i` once only the rows `lo .. hi - 1` have been swapped. */
    function PartnerInRows(i: int, lo: int, hi: int): (j: int)
      requires 4 * width <= step
      ensures j == i || j == Partner(i)
    {
      if Visible(i) && lo <= (i - top) / step < hi then Partner(i) else i
    }
  }

  /** The normalised form of the rows that start at `base`, `base + pitch`, ... */
  function LayoutOf(base: int, width: nat, height: nat, pitch: int): (L: Layout)
    ensures L.width == width && L.height == height && L.step == Abs(pitch)
  {
    if pitch >= 0 || height == 0 then Layout(base, width, height, Abs(pitch))
    else Layout(base + (height - 1) * pitch, width, height, Abs(pitch))
  }

  /** The row that the swap loop visits `y`-th starts at row `y` of the
      normalised layout when `pitch` is positive, and at row `height - 1 - y`
      when it is negative. */
  lemma RowStart(base: int, width: nat, height: nat, pitch: int, y: int)
    requires 0 <= y < height
    ensures var L := LayoutOf(base, width, height, pitch);
      base + y * pitch == L.top + (if pitch >= 0 then y else height - 1 - y) * L.step
  {
  }

  /** Byte `c` of pixel `x` of row `r` sits at row `r`, column `4 * x + c`. */
  lemma Locate(L: Layout, r: int, x: int, c: int)
    requires 4 * L.width <= L.step && 0 <= x < L.width && 0 <= c < 4
    ensures (L.At(r, x, c) - L.top) / L.step == r
    ensures (L.At(r, x, c) - L.top) % L.step == 4 * x + c
  {
    DivModUnique(L.At(r, x, c) - L.top, L.step, r, 4 * x + c);
  }

  /** A visible byte is byte `c` of some pixel `x` of some row `r` of the image. */
  lemma Decompose(L: Layout, i: int) returns (r: int, x: int, c: int)
    requires 4 * L.width <= L.step && L.Visible(i)
    ensures 0 <= r < L.height && 0 <= x < L.width && 0 <= c < 4 && i == L.At(r, x, c)
    ensures (i - L.top) / L.step == r && (i - L.top) % L.step == 4 * x + c
  {
    var col;
    r, col := RowAndColumn(L.top, L.step, i);
    assert r < L.height && col < 4 * L.width;
    x, c := col / 4, col % 4;
  }

  /** Offset `i` lies in row `r` at column `col` of rows `step` bytes apart from `top`. */
  lemma RowAndColumn(top: int, step: int, i: int) returns (r: int, col: int)
    requires 0 < step && top <= i
    ensures i == top + r * step + col && 0 <= r && 0 <= col < step
    ensures (i - top) / step == r && (i - top) % step == col
  {
    DivMod(i - top, step);
    r, col := (i - top) / step, (i - top) % step;
    if r < 0 {
      MulAtLeast(-r, step);
    }
  }

  lemma DivMod(a: int, d: int)
    requires 0 < d
    ensures a == (a / d) * d + a % d && 0 <= a % d < d
  {
  }

  /** The partner of a byte in the buffer is in the buffer too. */
  lemma PartnerInBounds(L: Layout, len: nat, i: int)
    requires L.Within(len) && 0 <= i < len
    ensures 0 <= L.Partner(i) < len
  {
    if L.Visible(i) {
      var r, x, c := Decompose(L, i);
      MulMono(r, L.height - 1, L.step);
    }
  }

  /** The buffer after every pixel's red and blue bytes have been exchanged. */
  function Swapped(L: Layout, s: seq<Byte>): (t: seq<Byte>)
    requires L.Within(|s|)
    ensures |t| == |s|
  {
    seq(|s|, i requires 0 <= i < |s| => PartnerInBounds(L, |s|, i); s[L.Partner(i)])
  }

  /** Blue and red of every pixel trade places; green and alpha stay. */
  lemma {:induction false} SwappedPixel(L: Layout, s: seq<Byte>, r: nat, x: nat)
    requires L.Within(|s|) && r < L.height && x < L.width
    ensures 0 <= L.At(r, x, 0) && L.At(r, x, 3) < |s|
    ensures Swapped(L, s)[L.At(r, x, 0)] == s[L.At(r, x, 2)]
    ensures Swapped(L, s)[L.At(r, x, 2)] == s[L.At(r, x, 0)]
    ensures Swapped(L, s)[L.At(r, x, 1)] == s[L.At(r, x, 1)]
    ensures Swapped(L, s)[L.At(r, x, 3)] == s[L.At(r, x, 3)]
  {
    MulMono(r, L.height - 1, L.step);
    PartnerOfPixel(L, r, x, 0);
    PartnerOfPixel(L, r, x, 1);
    PartnerOfPixel(L, r, x, 2);
    PartnerOfPixel(L, r, x, 3);
  }

  /** The same, in the terms of the loop: pixel `x` of the `y`-th row visited,
      which starts at `base + y * pitch`. */
  lemma {:induction false} SwappedPixelOfRow(base: int, width: nat, height: nat, pitch: int,
                                             s: seq<Byte>, y: nat, x: nat)
    requires LayoutOf(base, width, height, pitch).Within(|s|) && y < height && x < width
    ensures var p, t := base + y * pitch + 4 * x, Swapped(LayoutOf(base, width, height, pitch), s);
      0 <= p && p + 3 < |s| &&
      t[p] == s[p + 2] && t[p + 2] == s[p] && t[p + 1] == s[p + 1] && t[p + 3] == s[p + 3]
  {
    RowStart(base, width, height, pitch, y);
    SwappedPixel(LayoutOf(base, width, height, pitch), s, if pitch >= 0 then y else height - 1 - y, x);
  }

  /** Within a pixel, blue (byte 0) and red (byte 2) are partners; green and
      alpha are their own. */
  lemma PartnerOfPixel(L: Layout, r: nat, x: nat, c: int)
    requires 4 * L.width <= L.step && r < L.height && x < L.width && 0 <= c < 4
    ensures L.Partner(L.At(r, x, c)) == L.At(r, x, if c == 0 then 2 else if c == 2 then 0 else c)
  {
    Locate(L, r, x, c);
  }

  /** The padding after the pixels of a row keeps its value. */
  lemma {:induction false} SwappedPadding(L: Layout, s: seq<Byte>, r: nat, c: int)
    requires L.Within(|s|) && r < L.height && 4 * L.width <= c < L.step
    requires 0 <= L.top + r * L.step + c < |s|
    ensures Swapped(L, s)[L.top + r * L.step + c] == s[L.top + r * L.step + c]
  {
    DivModUnique(r * L.step + c, L.step, r, c);
  }

  /** Memory before the first row or after the last row keeps its value. */
  lemma {:induction false} SwappedOutside(L: Layout, s: seq<Byte>, i: int)
    requires L.Within(|s|) && 0 <= i < |s|
    requires i < L.top || L.top + L.height * L.step <= i
    ensures Swapped(L, s)[i] == s[i]
  {
    if L.Visible(i) {
      var r, x, c := Decompose(L, i);
      MulMono(r + 1, L.height, L.step);
    }
  }

  /** Pairing a byte with its partner is an involution. */
  lemma PartnerInvolutive(L: Layout, i: int)
    requires 4 * L.width <= L.step
    ensures L.Partner(L.Partner(i)) == i
  {
    if L.Visible(i) {
      var r, x, c := Decompose(L, i);
      if c == 0 {
        assert L.Partner(i) == L.At(r, x, 2);
        Locate(L, r, x, 2);
      } else if c == 2 {
        assert L.Partner(i) == L.At(r, x, 0);
        Locate(L, r, x, 0);
      } else {
        assert L.Partner(i) == i;
      }
    }
  }

  /** Swapping twice restores the original buffer exactly. */
  lemma {:induction false} SwappedTwice(L: Layout, s: seq<Byte>)
    requires L.Within(|s|)
    ensures Swapped(L, Swapped(L, s)) == s
  {
    forall i | 0 <= i < |s|
      ensures Swapped(L, Swapped(L, s))[i] == s[i]
    {
      PartnerInBounds(L, |s|, i);
      PartnerInvolutive(L, i);
    }
  }

  /** The buffer once only the rows `lo .. hi - 1` have been swapped. */
  function SwappedRows(L: Layout, s: seq<Byte>, lo: int, hi: int): (t: seq<Byte>)
    requires L.Within(|s|)
    ensures |t| == |s|
  {
    seq(|s|, i requires 0 <= i < |s| => PartnerInBounds(L, |s|, i); s[L.PartnerInRows(i, lo, hi)])
  }

  /** Before any row is swapped the buffer is the original; once all rows are,
      it is `Swapped`. */
  lemma SwappedRowsEnds(L: Layout, s: seq<Byte>, k: int)
    requires L.Within(|s|)
    ensures SwappedRows(L, s, k, k) == s
    ensures SwappedRows(L, s, 0, L.height) == Swapped(L, s)
  {
    forall i | 0 <= i < |s|
      ensures SwappedRows(L, s, k, k)[i] == s[i]
      ensures SwappedRows(L, s, 0, L.height)[i] == Swapped(L, s)[i]
    {
      if L.Visible(i) {
        var r, x, c := Decompose(L, i);
      }
    }
  }

  /** The red and blue byte of the pixel at offset `p` exchanged. */
  function SwapAt(s: seq<Byte>, p: int): (t: seq<Byte>)
    requires 0 <= p && p + 2 < |s|
    ensures |t| == |s|
  {
    s[p := s[p + 2]][p + 2 := s[p]]
  }

  /** The first `n` of the pixels that start at offset `p`, one after the
      other, swapped in order. */
  function SwappedRun(s: seq<Byte>, p: int, n: nat): (t: seq<Byte>)
    requires n == 0 || (0 <= p && p + 4 * n <= |s|)
    ensures |t| == |s|
  {
    if n == 0 then s else SwapAt(SwappedRun(s, p, n - 1), p + 4 * (n - 1))
  }

  /** The offset whose value a run of `n` swapped pixels starting at `p`
      moves to offset `i`. */
  function RunPartner(p: int, n: nat, i: int): (j: int)
    ensures j == i || j == i + 2 || j == i - 2
  {
    if p <= i < p + 4 * n && (i - p) % 4 == 0 then i + 2
    else if p <= i < p + 4 * n && (i - p) % 4 == 2 then i - 2
    else i
  }

  /** What a run of swapped pixels holds at each offset: blue and red
      exchanged within the run, everything else as before. */
  lemma {:induction false} SwappedRunAt(s: seq<Byte>, p: int, n: nat, i: int)
    requires 0 <= p && p + 4 * n <= |s| && 0 <= i < |s|
    ensures 0 <= RunPartner(p, n, i) < |s|
    ensures SwappedRun(s, p, n)[i] == s[RunPartner(p, n, i)]
  {
    if n > 0 {
      var q := p + 4 * (n - 1);
      SwappedRunAt(s, p, n - 1, i);
      if i == q {
        SwappedRunAt(s, p, n - 1, q + 2);
      } else if i == q + 2 {
        SwappedRunAt(s, p, n - 1, q);
      }
    }
  }

  /** Within row `cur`, the run's partner is the layout's partner; outside
      it, neither moves anything. */
  lemma RowPartner(L: Layout, lo: int, hi: int, cur: int, i: int)
    requires 4 * L.width <= L.step && 0 < L.width && 0 <= cur < L.height && lo <= hi && (cur == hi || cur == lo - 1)
    ensures L.PartnerInRows(RunPartner(L.At(cur, 0, 0), L.width, i), lo, hi) ==
      L.PartnerInRows(i, if cur == hi then lo else cur, if cur == hi then hi + 1 else hi)
  {
    var p := L.At(cur, 0, 0);
    if p <= i < p + 4 * L.width {
      var x, c := (i - p) / 4, (i - p) % 4;
      assert i == L.At(cur, x, c);
      PartnerOfPixel(L, cur, x, c);
      Locate(L, cur, x, c);
      if c == 0 {
        Locate(L, cur, x, 2);
      } else if c == 2 {
        Locate(L, cur, x, 0);
      }
    } else if L.Visible(i) {
      var r, x, c := Decompose(L, i);
    }
  }

  /** Swapping the pixels of row `cur` of the layout adds that row to the
      swapped rows. */
  lemma {:induction false} SwapOneRow(L: Layout, s: seq<Byte>, lo: int, hi: int, cur: int)
    requires L.Within(|s|) && 0 <= cur < L.height && lo <= hi && (cur == hi || cur == lo - 1)
    ensures L.width == 0 || (0 <= L.At(cur, 0, 0) && L.At(cur, 0, 0) + 4 * L.width <= |s|)
    ensures SwappedRun(SwappedRows(L, s, lo, hi), L.At(cur, 0, 0), L.width) ==
      SwappedRows(L, s, if cur == hi then lo else cur, if cur == hi then hi + 1 else hi)
  {
    MulMono(cur, L.height - 1, L.step);
    var t, p := SwappedRows(L, s, lo, hi), L.At(cur, 0, 0);
    var lo', hi' := if cur == hi then lo else cur, if cur == hi then hi + 1 else hi;
    forall i | 0 <= i < |s|
      ensures SwappedRun(t, p, L.width)[i] == SwappedRows(L, s, lo', hi')[i]
    {
      if L.width > 0 {
        SwappedRunAt(t, p, L.width, i);
        RowPartner(L, lo, hi, cur, i);
      } else if L.Visible(i) {
        assert false;
      }
    }
  }

  /** std::swap of the red and the blue byte of the pixel at offset `p`. */
  method SwapPixel(bits: array<Byte>, p: int)
    requires 0 <= p && p + 2 < bits.Length
    modifies bits
    ensures bits[..] == SwapAt(old(bits[..]), p)
  {
    bits[p], bits[p + 2] := bits[p + 2], bits[p];
  }

  /** The inner loop: exchanges the red and blue byte of each of the `width`
      pixels that start at offset `row`. */
  method SwapRow(bits: array<Byte>, row: int, width: nat)
    requires width == 0 || (0 <= row && row + 4 * width <= bits.Length)
    modifies bits
    ensures bits[..] == SwappedRun(old(bits[..]), row, width)
  {
    var x := 0;
    while x < width
      invariant 0 <= x <= width
      invariant bits[..] == SwappedRun(old(bits[..]), row, x)
    {
      SwapPixel(bits, row + 4 * x);
      x := x + 1;
    }
  }

  /** The rows of the layout done after `y` passes of the loop: the first
      `y` rows in memory order when the pitch is not negative, the last `y`
      when it is. */
  function DoneLo(height: nat, pitch: int, y: int): (lo: int)
  {
    if pitch >= 0 then 0 else height - y
  }

  function DoneHi(height: nat, pitch: int, y: int): (hi: int)
  {
    if pitch >= 0 then y else height
  }

  /** Pass `y` of the loop swaps the row at `base + y * pitch`, which is the
      next row of the layout to be done. */
  lemma NextRow(L: Layout, s: seq<Byte>, base: int, width: nat, height: nat, pitch: int, y: int)
    requires L == LayoutOf(base, width, height, pitch) && L.Within(|s|) && 0 <= y < height
    ensures width == 0 || (0 <= base + y * pitch && base + y * pitch + 4 * width <= |s|)
    ensures base + y * pitch + pitch == base + (y + 1) * pitch
    ensures SwappedRun(SwappedRows(L, s, DoneLo(height, pitch, y), DoneHi(height, pitch, y)), base + y * pitch, width) ==
      SwappedRows(L, s, DoneLo(height, pitch, y + 1), DoneHi(height, pitch, y + 1))
  {
    var cur := if pitch >= 0 then y else height - 1 - y;
    RowStart(base, width, height, pitch, y);
    assert L.At(cur, 0, 0) == base + y * pitch;
    SwapOneRow(L, s, DoneLo(height, pitch, y), DoneHi(height, pitch, y), cur);
  }

  /** Exchanges the red and blue byte of every pixel in place, row by row,
      advancing the row start by `pitch`. */
  method SwapRedBlue(bits: array<Byte>, base: int, width: nat, height: nat, pitch: int)
    requires LayoutOf(base, width, height, pitch).Within(bits.Length)
    modifies bits
    ensures bits[..] == Swapped(LayoutOf(base, width, height, pitch), old(bits[..]))
  {
    ghost var L := LayoutOf(base, width, height, pitch);
    ghost var orig := bits[..];
    SwappedRowsEnds(L, orig, DoneLo(height, pitch, 0));
    var y := 0;
    var row := base;
    while y < height
      invariant 0 <= y <= height
      invariant row == base + y * pitch
      invariant bits[..] == SwappedRows(L, orig, DoneLo(height, pitch, y), DoneHi(height, pitch, y))
    {
      NextRow(L, orig, base, width, height, pitch, y);
      SwapRow(bits, row, width);
      y := y + 1;
      row := row + pitch;
    }
    SwappedRowsEnds(L, orig, 0);
  }
}
