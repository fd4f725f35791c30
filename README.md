# svg2png, modelled in Dafny

svg2png is a small Windows command-line tool. It reads an SVG file, has
nanosvg rasterize it into the 32-bit bitmap of an ATL `CImage`, and swaps the
red and blue channels because nanosvg writes RGBA while a device-independent
bitmap is BGRA. It then saves the image as `<input>.png` and prints a message
saying how the run went.

The model covers the logic in `src/svg2png.cpp` that the program implements
itself:

- `pixels.dfy` (module `Pixels`) models the in-place red/blue swap over the
  bitmap's bytes.
  - The bitmap is an `array<bv8>` with a base offset, `width`, `height` and a
    signed `pitch`.
  - The pitch is negative for the bottom-up bitmap that `CImage::Create`
    makes from a positive height. The model accepts either sign.
  - `Layout` normalises both signs to a top-down form.
  - The method `SwapRedBlue` has the source's nested loops: the outer loop
    over rows advances by `pitch`, and the inner loop is `SwapRow`.
  - `SwapRedBlue` is proved equal to the specification function `Swapped`.
    Lemmas then prove what `Swapped` does to pixels, to padding and to memory
    outside the rows, and that applying it twice restores the buffer.
- `conversion.dfy` (module `Conversion`) models `NSVGimageToCImage`.
  - The calls into nanosvg and CImage are inputs saying whether each one
    succeeds.
  - The method records the handles it acquires and releases as a trace of
    events, returns `S_OK` or `E_FAIL`, and performs the swap on success.
  - Lemmas prove the trace is disciplined: nothing is released twice or
    without being acquired, and the bitmap is drawn into only while every
    handle is alive. They also prove that each nanosvg handle that was
    created is released exactly once, and one that was not created is never
    released.
- `text.dfy` (module `Text`) models `A2WStr` and the output file name
  `A2WStr(input) + L".png"`.
  - Widening follows MSVC, where `char` is signed and `wchar_t` is an
    unsigned 16-bit type. Bytes 0..127 keep their code, and a byte `b` of
    128..255 becomes `b + 0xFF00` (sign extension).
  - Widening is injective, so different input names give different output
    names.
- `cli.dfy` (module `Cli`) models `main`'s decisions as a pure function of
  the outcomes of its calls: which file it saves and what it prints.

## Model

| member | source | states |
|---|---|---|
| Pixels.SwapRedBlue | src/svg2png.cpp:50-56 | the loop over `height` rows, advancing the row start by `pitch` (positive or negative), leaves the buffer equal to `Swapped` of its old contents for the bitmap's layout |
| Pixels.SwapRow | src/svg2png.cpp:52-55 | the inner loop over the `width` pixels of one row leaves the buffer equal to the old one with the red and blue byte of each of those pixels exchanged, pixel after pixel (`SwappedRun`) |
| Pixels.SwapPixel | src/svg2png.cpp:54 | `std::swap(p[x].rgbRed, p[x].rgbBlue)` exchanges bytes 0 and 2 of the pixel at offset `p` and changes nothing else |
| Pixels.SwappedRunAt | src/svg2png.cpp:53-55 | after a row's run of pixel swaps, every offset holds the old value of its partner within the run: bytes 0 and 2 of each pixel trade values, and all other bytes, including those outside the run, keep theirs |
| Pixels.SwapOneRow | src/svg2png.cpp:51-55 | swapping the pixels of the next row adds exactly that row to the rows already swapped, whichever direction the rows are visited in |
| Pixels.NextRow | src/svg2png.cpp:51 | the row visited in pass `y` starts at `base + y * pitch`, lies inside the buffer, and is the next row of the layout to be done: the first undone row when the pitch is positive and the last undone row when it is negative |
| Pixels.RowStart | src/svg2png.cpp:51 | the `y`-th row start `base + y * pitch` is row `y` of the top-down layout when the pitch is not negative, and row `height - 1 - y` when it is negative |
| Pixels.SwappedPixel | src/svg2png.cpp:54 | after the swap, the blue byte of every pixel holds the old red byte and the red byte holds the old blue byte, while green and alpha are unchanged |
| Pixels.SwappedPixelOfRow | src/svg2png.cpp:50-55 | the same per pixel, addressed as the loop addresses it: pixel `x` of the row at `base + y * pitch`, for every `y < height` and `x < width` |
| Pixels.SwappedPadding | src/svg2png.cpp:51-53 | the padding bytes of each row, from `4 * width` to the row step, keep their values |
| Pixels.SwappedOutside | src/svg2png.cpp:51 | bytes before the first row in memory and after the last row keep their values |
| Pixels.PartnerInBounds | src/svg2png.cpp:52-54 | every byte the swap reads or writes lies inside the buffer |
| Pixels.PartnerInvolutive | src/svg2png.cpp:54 | pairing each byte with the byte it is exchanged with is an involution |
| Pixels.SwappedTwice | src/svg2png.cpp:49-56 | applying the swap twice restores the original buffer exactly |
| Pixels.SwappedRowsEnds | src/svg2png.cpp:51 | with no rows swapped the buffer is unchanged, and with all `height` rows swapped it is `Swapped` |
| Pixels.Decompose | src/svg2png.cpp:52-53 | every byte that belongs to a pixel is byte `c < 4` of the pixel in column `x < width` of some row `r < height` |
| Pixels.Locate | src/svg2png.cpp:52-53 | byte `c` of pixel `x` of row `r` lies in row `r`, at column `4 * x + c` |
| Text.Widen | src/svg2png.cpp:20 | one `char` converted to `wchar_t` as MSVC does it: a code below 0x80 is kept, and a code `c` from 0x80 up is read as the negative `c - 0x100` and wrapped into 16 bits, giving `c - 0x100 + 0x10000` |
| Text.A2WStr | src/svg2png.cpp:18-21 | the wide string has the same length as the narrow one, and character `i` is byte `i` widened: the same code below 0x80, sign-extended into 16 bits from 0x80 up |
| Text.NarrowWiden | src/svg2png.cpp:20 | widening a byte loses nothing: its low byte gives it back |
| Text.NarrowA2WStr | src/svg2png.cpp:18-21 | narrowing the widened string gives back the input, so `A2WStr` is injective |
| Text.AsciiUnchanged | src/svg2png.cpp:18-21 | an ASCII byte of the name keeps its code in the wide string |
| Text.OutputFilename | src/svg2png.cpp:78 | the output name is the widened input name followed by `.png`: its length is the input's plus 4, its prefix is `A2WStr(input)`, and its last four characters are `.png` |
| Text.OutputFilenameInjective | src/svg2png.cpp:78 | the input name can be read back from the output name, and different input names give different output names |
| Conversion.NsvgImageToCImage | src/svg2png.cpp:23-62 | returns `S_OK` exactly when parsing, rasterizer creation and image creation all succeed, and `E_FAIL` otherwise. Its trace is the events of the path taken. The bitmap's bytes are swapped red/blue on success and untouched on failure |
| Conversion.ConversionTrace | src/svg2png.cpp:25-61 | the events of each path in source order. A failed parse only destroys the caller's image. Otherwise the parse comes first and the destroy second, and the last event releases the parsed image. The bitmap is rasterized into and its channels swapped exactly when every call succeeds |
| Conversion.ConversionReleasesWhatItAcquires | src/svg2png.cpp:25-61 | on every path each event is allowed where it happens, and each nanosvg handle is acquired and released exactly once if it was created, and never otherwise. The parsed image is released last. Only the bitmap is held afterwards, and only on success. The bitmap is rasterized into exactly when every call succeeds |
| Conversion.SucceededPath | src/svg2png.cpp:25-61 | the path on which every call succeeds is disciplined, acquires and releases each nanosvg handle once, and ends holding the bitmap alone |
| Conversion.ImageFailedPath | src/svg2png.cpp:25-42 | the path on which `CImage::Create` fails is disciplined, releases the rasterizer and then the image, and ends holding nothing |
| Conversion.ParsedPrefix | src/svg2png.cpp:25-27 | parsing and then destroying the caller's image leaves exactly the parsed image held |
| Conversion.Step | src/svg2png.cpp:25-61 | appending one event to a trace keeps it disciplined exactly when the event is allowed after it, applies the event to the held handles and counts it once |
| Conversion.Balance | src/svg2png.cpp:25-61 | in any disciplined trace, a nanosvg handle's acquisitions plus whether it was held at the start equal its releases plus whether it is held at the end. This is an invariant of every trace the discipline admits, stated on its own beside the per-path lemmas |
| Cli.MainRun | src/svg2png.cpp:68-98 | one run of `main` given the outcomes of its calls. `Save` is called only with `A2WStr(argv[1]) + ".png"`, and never when nothing was converted. Success is reported only for a converted file whose save succeeded |
| Cli.Message | src/svg2png.cpp:83-97 | the text printed after the banner: nothing exactly when there is no argument, and otherwise one message ending in a newline |
| Cli.MainRunCases | src/svg2png.cpp:68-98 | a write success is reported exactly when there is an argument, the file exists, the conversion and the save succeed. A write failure is reported exactly when only the save fails, and a read failure exactly when the conversion fails. "missing" (quoting `argv[1]`) is reported exactly when the file does not exist, and nothing follows the banner exactly when there is no argument. The conversion runs only for an existing file, and `<input>.png` is saved only after a successful conversion |
| Cli.ConsoleOutput | src/svg2png.cpp:66-98 | every run prints the banner first, and a run without an argument prints only the banner |
| Cli.MessagesDistinct | src/svg2png.cpp:83-97 | different outcomes print different console text, including "missing" messages for different file names |
| Cli.MessageInjective | src/svg2png.cpp:83-97 | the five messages after the banner differ from each other, and the "missing" message differs for each file name |
| Cli.MissingMessage | src/svg2png.cpp:97 | the "missing" message starts with the fixed prefix `The input file "`, ends with the fixed suffix `" is missing!` and a newline, and between them holds the file name byte by byte |
| Cli.TextInjective | src/svg2png.cpp:97 | different file names appear as different console text |

## Left out

- nanosvg (`nsvgParseFromFile`, `nsvgCreateRasterizer`, `nsvgRasterize`, `nsvgDelete`, `nsvgDeleteRasterizer`) is a vendored library whose source is not part of this model.
  - Parsing, rasterizer creation and image creation are boolean inputs of `NsvgImageToCImage`.
  - Rasterization is the event `Rasterize` in the trace.
  - The bitmap's bytes on entry stand for what `nsvgRasterize` drew.
- The image size `int(svgImage->width * scale)` (line 39) is float arithmetic with truncation. It is not modelled: `width` and `height` are inputs.
- ATL `CImage` (`Create`, `GetBits`, `GetPitch`, `GetWidth`, `GetHeight`, `Save`, `Destroy`) is a set of foreign calls.
  - The pixel buffer is an array with a base offset and a signed pitch.
  - `Destroy` and `Create` are the `DestroyImage` and `Acquire(Bitmap)` events.
  - `Save`'s success is an input of `MainRun`, and PNG encoding is not modelled.
- `std::filesystem::exists`, `std::cout` and `system("pause")` are process and console I/O.
  - Whether the file exists is an input.
  - What is printed is `ConsoleOutput`, a string.
  - The final pause is not modelled.
- `src/version.h` holds only preprocessor macros, with no behaviour.
- `argv` is a sequence of byte strings, and the `std::string` copy of `argv[1]` is the same byte string.
- Cli.MainRun: `main` is modelled as a pure function of the outcomes of its calls, not as a sequence of statements.
- Pixels.SwapRedBlue: the source's inner loop and the body of the swap are separate methods, `SwapRow` and `SwapPixel`. The source's `int` loop counters cannot overflow for bitmaps that fit in memory, and the model's integers are unbounded.
- Text.A2WStr: the platform's `char` signedness is fixed to MSVC's signed `char`. A platform with unsigned `char` would keep every code unchanged, as `AsciiUnchanged` states for bytes below 0x80.
