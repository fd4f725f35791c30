/** NSVGimageToCImage: parse an SVG file with nanosvg, rasterize it into the
    32-bit bitmap of a CImage, and swap the red and blue channels.

    The calls into nanosvg and CImage are not modelled; each one is an input
    saying whether it succeeded. What is modelled is the order in which the
    function acquires and releases its handles, the result it returns on each
    path, and what it does to the bitmap's pixels. The handles it touches are
    recorded as a trace of events. */
module Conversion {
  import opened Pixels

  /** HRESULT as the function returns it: S_OK or E_FAIL. */
  datatype HResult = SOk | EFail

  /** The three resources: the parsed nanosvg image, the nanosvg rasterizer,
      and the bitmap held by the CImage. */
  datatype Handle = SvgImage | Rasterizer | Bitmap

  datatype Event =
    | Acquire(handle: Handle)   // nsvgParseFromFile, nsvgCreateRasterizer, CImage::Create succeeded
    | Release(handle: Handle)   // nsvgDelete, nsvgDeleteRasterizer
    | DestroyImage              // CImage::Destroy: drops the bitmap if there is one
    | Rasterize                 // nsvgRasterize into the bitmap
    | SwapChannels              // the red/blue swap over the bitmap

  /** The handles held after event `e`. */
  function Apply(held: set<Handle>, e: Event): (after: set<Handle>)
  {
    match e
    case Acquire(h) => held + {h}
    case Release(h) => held - {h}
    case DestroyImage => held - {Bitmap}
    case Rasterize => held
    case SwapChannels => held
  }

  /** Event `e` may happen while `held` is held: a handle is acquired only
      when not held and released only when held, and the bitmap is drawn into
      only while all three handles are alive. */
  predicate Allowed(held: set<Handle>, e: Event)
  {
    match e
    case Acquire(h) => h !in held
    case Release(h) => h in held
    case DestroyImage => true
    case Rasterize => SvgImage in held && Rasterizer in held && Bitmap in held
    case SwapChannels => Bitmap in held
  }

  /** The handles held after `trace`, starting from `held`. */
  function HeldAfter(held: set<Handle>, trace: seq<Event>): (after: set<Handle>)
  {
    if trace == [] then held
    else Apply(HeldAfter(held, trace[..|trace| - 1]), trace[|trace| - 1])
  }

  /** Every event of `trace` is allowed in the state it happens in. */
  predicate Disciplined(held: set<Handle>, trace: seq<Event>)
  {
    trace == [] ||
    (Disciplined(held, trace[..|trace| - 1]) &&
     Allowed(HeldAfter(held, trace[..|trace| - 1]), trace[|trace| - 1]))
  }

  /** How often `e` occurs in `trace`. */
  function Count(trace: seq<Event>, e: Event): (n: nat)
  {
    if trace == [] then 0
    else Count(trace[..|trace| - 1], e) + (if trace[|trace| - 1] == e then 1 else 0)
  }

  /** Appending one event to a trace: it is disciplined when the prefix is and
      the event is allowed after it. */
  lemma Step(held: set<Handle>, trace: seq<Event>, e: Event)
    ensures Disciplined(held, trace + [e]) == (Disciplined(held, trace) && Allowed(HeldAfter(held, trace), e))
    ensures HeldAfter(held, trace + [e]) == Apply(HeldAfter(held, trace), e)
    ensures forall x :: Count(trace + [e], x) == Count(trace, x) + (if e == x then 1 else 0)
  {
    assert (trace + [e])[..|trace|] == trace;
  }

  /** In a disciplined trace, a nanosvg handle is released exactly as often as
      it is acquired, less one if it is still held at the end (and more one if
      it was held at the start). This holds of every trace the discipline
      admits, not only of the traces of NSVGimageToCImage. */
  lemma {:induction false} Balance(held: set<Handle>, trace: seq<Event>, h: Handle)
    requires h != Bitmap && Disciplined(held, trace)
    ensures Count(trace, Acquire(h)) + (if h in held then 1 else 0) ==
            Count(trace, Release(h)) + (if h in HeldAfter(held, trace) then 1 else 0)
  {
    if trace != [] {
      var prefix, e := trace[..|trace| - 1], trace[|trace| - 1];
      assert trace == prefix + [e];
      Balance(held, prefix, h);
    }
  }

  /** The events of one conversion, given which of the calls into nanosvg and
      CImage succeed: the caller's image is destroyed right after the parse on
      every path, the last event releases the parsed image when there is one,
      and the bitmap is drawn into only when every call succeeds. */
  function ConversionTrace(parsed: bool, rasterizerCreated: bool, imageCreated: bool): (t: seq<Event>)
    ensures !parsed ==> t == [DestroyImage]
    ensures parsed ==> |t| > 2 && t[0] == Acquire(SvgImage) && t[1] == DestroyImage
    ensures t[|t| - 1] == if parsed then Release(SvgImage) else DestroyImage
    ensures Rasterize in t <==> parsed && rasterizerCreated && imageCreated
    ensures SwapChannels in t <==> parsed && rasterizerCreated && imageCreated
  {
    if !parsed then [DestroyImage]
    else if !rasterizerCreated then [Acquire(SvgImage), DestroyImage, Release(SvgImage)]
    else if !imageCreated then
      [Acquire(SvgImage), DestroyImage, Acquire(Rasterizer), Release(Rasterizer), Release(SvgImage)]
    else
      [Acquire(SvgImage), DestroyImage, Acquire(Rasterizer), Acquire(Bitmap), Rasterize, SwapChannels,
       Release(Rasterizer), Release(SvgImage)]
  }

  /** `trace` is disciplined from `held`, ends holding `kept`, and acquires and
      releases the parsed image `svg` times and the rasterizer `rast` times. */
  predicate Accounted(held: set<Handle>, trace: seq<Event>, svg: nat, rast: nat, kept: set<Handle>)
  {
    Disciplined(held, trace) && HeldAfter(held, trace) == kept &&
    Count(trace, Acquire(SvgImage)) == Count(trace, Release(SvgImage)) == svg &&
    Count(trace, Acquire(Rasterizer)) == Count(trace, Release(Rasterizer)) == rast
  }

  /** The part every path that parses the file shares: parse, then destroy the
      caller's bitmap. */
  lemma ParsedPrefix(held: set<Handle>)
    requires held <= {Bitmap}
    ensures Disciplined(held, [Acquire(SvgImage), DestroyImage])
    ensures HeldAfter(held, [Acquire(SvgImage), DestroyImage]) == {SvgImage}
    ensures forall x :: Count([Acquire(SvgImage), DestroyImage], x) == if x == Acquire(SvgImage) || x == DestroyImage then 1 else 0
  {
    var e0, e1 := Acquire(SvgImage), DestroyImage;
    assert forall x :: Count([], x) == 0;
    Step(held, [], e0);
    assert [] + [e0] == [e0];
    Step(held, [e0], e1);
    assert [e0] + [e1] == [e0, e1];
  }

  /** The path on which CImage::Create fails. */
  lemma ImageFailedPath(held: set<Handle>)
    requires held <= {Bitmap}
    ensures Accounted(held, ConversionTrace(true, true, false), 1, 1, {})
  {
    var e0, e1, e2, e3 := Acquire(SvgImage), DestroyImage, Acquire(Rasterizer), Release(Rasterizer);
    ParsedPrefix(held);
    Step(held, [e0, e1], e2);
    assert [e0, e1] + [e2] == [e0, e1, e2];
    Step(held, [e0, e1, e2], e3);
    assert [e0, e1, e2] + [e3] == [e0, e1, e2, e3];
    Step(held, [e0, e1, e2, e3], Release(SvgImage));
    assert ConversionTrace(true, true, false) == [e0, e1, e2, e3] + [Release(SvgImage)];
  }

  /** The path on which every call succeeds. */
  lemma SucceededPath(held: set<Handle>)
    requires held <= {Bitmap}
    ensures Accounted(held, ConversionTrace(true, true, true), 1, 1, {Bitmap})
  {
    var e0, e1, e2, e3 := Acquire(SvgImage), DestroyImage, Acquire(Rasterizer), Acquire(Bitmap);
    var e4, e5, e6 := Rasterize, SwapChannels, Release(Rasterizer);
    ParsedPrefix(held);
    Step(held, [e0, e1], e2);
    assert [e0, e1] + [e2] == [e0, e1, e2];
    Step(held, [e0, e1, e2], e3);
    assert [e0, e1, e2] + [e3] == [e0, e1, e2, e3];
    Step(held, [e0, e1, e2, e3], e4);
    assert [e0, e1, e2, e3] + [e4] == [e0, e1, e2, e3, e4];
    Step(held, [e0, e1, e2, e3, e4], e5);
    assert [e0, e1, e2, e3, e4] + [e5] == [e0, e1, e2, e3, e4, e5];
    Step(held, [e0, e1, e2, e3, e4, e5], e6);
    assert [e0, e1, e2, e3, e4, e5] + [e6] == [e0, e1, e2, e3, e4, e5, e6];
    Step(held, [e0, e1, e2, e3, e4, e5, e6], Release(SvgImage));
    assert ConversionTrace(true, true, true) == [e0, e1, e2, e3, e4, e5, e6] + [Release(SvgImage)];
  }

  /** On every path the conversion uses its handles properly, releases each
      nanosvg handle it acquired exactly once, releases nothing it did not
      acquire, and leaves only the bitmap held, and that only on success. */
  lemma ConversionReleasesWhatItAcquires(parsed: bool, rasterizerCreated: bool, imageCreated: bool, held: set<Handle>)
    requires held <= {Bitmap}
    ensures var t := ConversionTrace(parsed, rasterizerCreated, imageCreated);
      Disciplined(held, t) &&
      HeldAfter(held, t) == (if parsed && rasterizerCreated && imageCreated then {Bitmap} else {}) &&
      Count(t, Acquire(SvgImage)) == Count(t, Release(SvgImage)) == (if parsed then 1 else 0) &&
      Count(t, Acquire(Rasterizer)) == Count(t, Release(Rasterizer)) ==
        (if parsed && rasterizerCreated then 1 else 0) &&
      (parsed ==> t[|t| - 1] == Release(SvgImage)) &&
      (Rasterize in t <==> parsed && rasterizerCreated && imageCreated)
  {
    var t := ConversionTrace(parsed, rasterizerCreated, imageCreated);
    if !parsed {
      assert forall x :: Count([], x) == 0;
      Step(held, [], DestroyImage);
      assert t == [] + [DestroyImage];
    } else if !rasterizerCreated {
      ParsedPrefix(held);
      Step(held, [Acquire(SvgImage), DestroyImage], Release(SvgImage));
      assert t == [Acquire(SvgImage), DestroyImage] + [Release(SvgImage)];
    } else if !imageCreated {
      ImageFailedPath(held);
    } else {
      SucceededPath(held);
    }
  }

  /** Parses, rasterizes and converts to BGRA. `bits` is the bitmap's pixel
      buffer with its layout as CImage reports it (`base` is where GetBits
      points, `pitch` is GetPitch); on entry it holds what nsvgRasterize
      draws. */
  method NsvgImageToCImage(parsed: bool, rasterizerCreated: bool, imageCreated: bool,
                           bits: array<Byte>, base: int, width: nat, height: nat, pitch: int)
    returns (hr: HResult, trace: seq<Event>)
    requires imageCreated ==> LayoutOf(base, width, height, pitch).Within(bits.Length)
    modifies bits
    ensures hr == SOk <==> parsed && rasterizerCreated && imageCreated
    ensures trace == ConversionTrace(parsed, rasterizerCreated, imageCreated)
    ensures bits[..] == if hr == SOk then Swapped(LayoutOf(base, width, height, pitch), old(bits[..])) else old(bits[..])
  {
    trace := [];
    if parsed {
      trace := trace + [Acquire(SvgImage)];
    }
    trace := trace + [DestroyImage];
    if !parsed {
      return EFail, trace;
    }

    if rasterizerCreated {
      trace := trace + [Acquire(Rasterizer)];
    } else {
      trace := trace + [Release(SvgImage)];
      return EFail, trace;
    }

    if imageCreated {
      trace := trace + [Acquire(Bitmap)];
    } else {
      trace := trace + [Release(Rasterizer), Release(SvgImage)];
      return EFail, trace;
    }

    trace := trace + [Rasterize];
    SwapRedBlue(bits, base, width, height, pitch);
    trace := trace + [SwapChannels];

    trace := trace + [Release(Rasterizer), Release(SvgImage)];
    return SOk, trace;
  }
}
