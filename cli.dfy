/** The program's entry point: it prints a banner, converts the SVG file named
    by its first argument and writes the PNG beside it, and reports the
    outcome on the console.

    The file system, the conversion and the PNG encoder are not modelled:
    whether the input file exists, what NSVGimageToCImage returned and
    whether CImage::Save succeeded are inputs. */
module Cli {
  import opened Text
  import opened Conversion

  /** The message printed after the banner. */
  datatype Report =
    | NoArgument                   // no argument given: nothing beyond the banner
    | Missing(name: seq<Char8>)    // the input file does not exist
    | ReadFailed                   // the conversion returned a failure
    | WriteFailed                  // saving the PNG failed
    | Written                      // the PNG was written

  datatype Option<T> = None | Some(value: T)

  /** What one run does: whether it converts, the name it passes to
      CImage::Save (whether or not the save then succeeds), and what it reports. */
  datatype Run = Run(converted: bool, saveTarget: Option<seq<WChar>>, report: Report)

  /** One run of the program with command line `argv` (`argv[0]` is the
      program's own name). `inputExists` is what std::filesystem::exists says
      of `argv[1]`, `conversion` what NSVGimageToCImage returns for it and
      `saveSucceeded` whether CImage::Save succeeds; each is consulted only if
      the program gets that far. */
  function MainRun(argv: seq<seq<Char8>>, inputExists: bool, conversion: HResult, saveSucceeded: bool): (r: Run)
    ensures r.saveTarget.Some? ==> |argv| > 1 && r.saveTarget.value == OutputFilename(argv[1])
    ensures r.report == Written ==> r.converted && r.saveTarget.Some? && saveSucceeded
    ensures !r.converted ==> r.saveTarget == None
  {
    if |argv| > 1 then
      var input := argv[1];
      if inputExists then
        if conversion == SOk then
          Run(true, Some(OutputFilename(input)), if saveSucceeded then Written else WriteFailed)
        else
          Run(true, None, ReadFailed)
      else
        Run(false, None, Missing(input))
    else
      Run(false, None, NoArgument)
  }

  /** Which report each combination of outcomes gives, and which calls are made. */
  lemma MainRunCases(argv: seq<seq<Char8>>, inputExists: bool, conversion: HResult, saveSucceeded: bool)
    ensures var r := MainRun(argv, inputExists, conversion, saveSucceeded);
      (r.report == Written <==> |argv| > 1 && inputExists && conversion == SOk && saveSucceeded) &&
      (r.report == WriteFailed <==> |argv| > 1 && inputExists && conversion == SOk && !saveSucceeded) &&
      (r.report == ReadFailed <==> |argv| > 1 && inputExists && conversion == EFail) &&
      (r.report.Missing? <==> |argv| > 1 && !inputExists) &&
      (r.report.Missing? ==> r.report.name == argv[1]) &&
      (r.report == NoArgument <==> |argv| <= 1) &&
      (r.converted <==> |argv| > 1 && inputExists) &&
      (r.saveTarget.Some? <==> r.converted && conversion == SOk) &&
      (r.saveTarget.Some? ==> r.saveTarget.value == OutputFilename(argv[1]))
  {
  }

  /** The banner printed first on every run. */
  const Banner: string := "png2svg 0.1\n"

  /** A narrow file name as console text, byte by byte. */
  function AsText(name: seq<Char8>): (t: string)
    ensures |t| == |name|
    ensures forall i :: 0 <= i < |name| ==> t[i] as int == name[i] as int
  {
    if name == [] then [] else [name[0] as int as char] + AsText(name[1..])
  }

  const MissingPrefix: string := "The input file \""
  const MissingSuffix: string := "\" is missing!\n"

  /** The message for a report: none without an argument, otherwise one line
      ending in a newline. */
  function Message(report: Report): (m: string)
    ensures m == "" <==> report == NoArgument
    ensures m != "" ==> m[|m| - 1] == '\n'
  {
    match report
    case NoArgument => ""
    case Missing(name) => MissingPrefix + AsText(name) + MissingSuffix
    case ReadFailed => "Error reading SVG file!\n"
    case WriteFailed => "Error writing PNG file!\n"
    case Written => "The PNG file was written successfully!\n"
  }

  /** Everything the run prints on the console (before the final pause). */
  function ConsoleOutput(r: Run): (out: string)
    ensures |Banner| <= |out| && out[..|Banner|] == Banner
    ensures r.report == NoArgument ==> out == Banner
  {
    Banner + Message(r.report)
  }

  /** Different reports print different text, so the console tells the outcome. */
  lemma MessagesDistinct(a: Report, b: Report)
    requires a != b
    ensures ConsoleOutput(Run(false, None, a)) != ConsoleOutput(Run(false, None, b))
  {
    MessageInjective(a, b);
    assert ConsoleOutput(Run(false, None, a))[|Banner|..] == Message(a);
    assert ConsoleOutput(Run(false, None, b))[|Banner|..] == Message(b);
  }

  lemma MessageInjective(a: Report, b: Report)
    requires a != b
    ensures Message(a) != Message(b)
  {
    if a.Missing? && b.Missing? {
      MissingMessage(a.name);
      MissingMessage(b.name);
      TextInjective(a.name, b.name);
    } else if a.Missing? {
      MissingMessage(a.name);
      OtherMessage(b);
    } else if b.Missing? {
      MissingMessage(b.name);
      OtherMessage(a);
    } else if (a.ReadFailed? && b.WriteFailed?) || (a.WriteFailed? && b.ReadFailed?) {
      assert Message(a)[6] != Message(b)[6];
    }
  }

  /** The message for a missing file starts with "The i" and quotes the name. */
  lemma MissingMessage(name: seq<Char8>)
    ensures var m, p, q := Message(Missing(name)), |MissingPrefix|, |MissingSuffix|;
      |m| == p + |name| + q && m[..p] == MissingPrefix && m[|m| - q..] == MissingSuffix &&
      m[4] == 'i' && m[p..|m| - q] == AsText(name)
  {
    var m := Message(Missing(name));
    assert m == MissingPrefix + (AsText(name) + MissingSuffix);
    assert m[4] == MissingPrefix[4];
  }

  /** No other message has an 'i' where the one for a missing file has. */
  lemma OtherMessage(r: Report)
    requires !r.Missing?
    ensures Message(r) == "" || (|Message(r)| > 4 && Message(r)[4] != 'i')
  {
    match r
    case NoArgument =>
    case ReadFailed => assert Message(r)[4] == 'r';
    case WriteFailed => assert Message(r)[4] == 'r';
    case Written => assert Message(r)[4] == 'P';
  }

  lemma TextInjective(a: seq<Char8>, b: seq<Char8>)
    requires a != b
    ensures AsText(a) != AsText(b)
  {
    if |a| == |b| {
      var i :| 0 <= i < |a| && a[i] != b[i];
      assert AsText(a)[i] != AsText(b)[i];
    }
  }
}
