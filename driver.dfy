/**
 * The command-line driver `main`: check the arguments, load the heightmap,
 * run the conversion, and save the result with the writer its extension
 * selects. Every foreign call (image loading, the conversion engine, the
 * image writers) is replaced by its outcome, given as an input, and the run
 * is described by the calls and diagnostics it produces and the status it
 * exits with.
 */
module Driver {

  import opened Wrappers
  import opened CStrings
  import opened FileNames

  /** The `int32_t` result code of the conversion engine. */
  type Int32 = x: int | -0x8000_0000 <= x < 0x8000_0000

  /** The output formats the driver can write. */
  datatype Format = Png | Bmp | Tga

  /** The extension, in lower case, that selects each writer. */
  function FormatExt(f: Format): (ext: CString)
    ensures |ext| == 3 && '.' !in ext
  {
    match f
    case Png => "png"
    case Bmp => "bmp"
    case Tga => "tga"
  }

  /**
   * The writer dispatch: `strcmpi` against "png", then "bmp", then "tga";
   * `None` for any other extension (an "hdr" branch exists only as a comment).
   */
  function SelectWriter(ext: CString): (r: Option<Format>)
    ensures r.Some? ==> EqualIgnoringCase(ext, FormatExt(r.value))
    ensures r.None? ==> forall f: Format :: !EqualIgnoringCase(ext, FormatExt(f))
  {
    if StrCmpI("png", ext) == 0 then Some(Png)
    else if StrCmpI("bmp", ext) == 0 then Some(Bmp)
    else if StrCmpI("tga", ext) == 0 then Some(Tga)
    else None
  }

  /** No two writer extensions are equal ignoring case, so the order of the tests never matters. */
  lemma FormatExtsDistinct(f: Format, g: Format)
    requires f != g
    ensures !EqualIgnoringCase(FormatExt(f), FormatExt(g))
  {
    assert Lower(FormatExt(f)[0]) != Lower(FormatExt(g)[0]);
  }

  /** An extension selects a writer exactly when it equals that writer's extension ignoring case. */
  lemma SelectWriterExact(ext: CString, f: Format)
    ensures SelectWriter(ext) == Some(f) <==> EqualIgnoringCase(ext, FormatExt(f))
  {
    if EqualIgnoringCase(ext, FormatExt(f)) {
      var r := SelectWriter(ext);
      if r != Some(f) {
        assert r.Some?;
        EqualIgnoringCaseSymmetric(ext, FormatExt(r.value));
        EqualIgnoringCaseTransitive(FormatExt(r.value), ext, FormatExt(f));
        FormatExtsDistinct(r.value, f);
      }
    }
  }

  /** Case-insensitive dispatch: extensions equal ignoring case select the same writer. */
  lemma SelectWriterIgnoresCase(a: CString, b: CString)
    requires EqualIgnoringCase(a, b)
    ensures SelectWriter(a) == SelectWriter(b)
  {
    EqualIgnoringCaseSymmetric(a, b);
    forall f: Format
      ensures EqualIgnoringCase(a, FormatExt(f)) <==> EqualIgnoringCase(b, FormatExt(f))
    {
      if EqualIgnoringCase(a, FormatExt(f)) {
        EqualIgnoringCaseTransitive(b, a, FormatExt(f));
      }
      if EqualIgnoringCase(b, FormatExt(f)) {
        EqualIgnoringCaseTransitive(a, b, FormatExt(f));
      }
    }
    if SelectWriter(a).Some? {
      SelectWriterExact(b, SelectWriter(a).value);
    } else if SelectWriter(b).Some? {
      SelectWriterExact(a, SelectWriter(b).value);
    }
  }

  /** "PNG" selects the PNG writer, "hdr" no writer. */
  lemma SelectWriterExamples()
    ensures SelectWriter("PNG") == Some(Png)
    ensures SelectWriter("Tga") == Some(Tga)
    ensures SelectWriter("hdr") == None
    ensures SelectWriter("") == None
  {
    var png: CString, tga: CString, hdr: CString := "PNG", "Tga", "hdr";
    assert Lower(png[0]) == 'p' && Lower(png[1]) == 'n' && Lower(png[2]) == 'g';
    assert Lower(tga[0]) == 't' && Lower(tga[1]) == 'g' && Lower(tga[2]) == 'a';
    SelectWriterExact(png, Png);
    SelectWriterExact(tga, Tga);
    assert Lower(hdr[0]) == 'h';
    assert forall f: Format :: Lower(FormatExt(f)[0]) != 'h';
  }

  /** What one run of the driver does, in order: foreign calls and diagnostics on stderr. */
  datatype Event =
    | Usage                                  // the usage message
    | Load(path: CString)                    // `stbi_load` of the heightmap
    | LoadFailed(path: CString)              // "was not loaded"
    | Convert                                // the call of the conversion engine
    | ConvertFailed(code: Int32)             // "Failed building normal map"
    | Write(format: Format, path: CString)   // the writer for `format`
    | WriteFailed(format: Format, path: CString)
    | UnknownFormat(ext: CString)            // "Unknown file format for save"
  {
    /** The events that stand for a foreign call rather than a diagnostic. */
    predicate IsCall() { Load? || Convert? || Write? }
  }

  /** The outcomes of the foreign calls, which the model takes as inputs. */
  datatype Outcomes = Outcomes(loaded: bool, convertCode: Int32, written: bool)

  /** The events of a run and the status passed to `exit` (0 when `main` returns). */
  datatype Termination = Termination(events: seq<Event>, status: int)

  /** The output file's extension, taken only when there are enough arguments. */
  function OutputExt(argv: seq<CString>): CString
    requires |argv| >= 3
  {
    FilenameExt(argv[2])
  }

  /** The driver `main`, with `argv` its arguments (argc is |argv|). */
  function Run(argv: seq<CString>, io: Outcomes): (t: Termination)
    ensures t.status in {0, -1, -2}
    // too few arguments: usage, status -1, and nothing is called
    ensures |argv| < 3 ==> t.status == -1 && forall e :: e in t.events ==> !e.IsCall()
    // a failed load: status -2, and neither the engine nor a writer is called
    ensures t.status == -2 <==> |argv| >= 3 && !io.loaded
    ensures (Convert in t.events) <==> |argv| >= 3 && io.loaded
    ensures |argv| >= 3 ==> |t.events| > 0 && t.events[0] == Load(argv[1])
    // unknown extension: status -1 after the conversion
    ensures t.status == -1 <==> |argv| < 3 || (io.loaded && SelectWriter(OutputExt(argv)).None?)
    // the writer called is the one the extension selects, at most once, on the output file
    ensures forall f, p :: Write(f, p) in t.events <==>
      |argv| >= 3 && io.loaded && SelectWriter(OutputExt(argv)) == Some(f) && p == argv[2]
    ensures forall i, j :: 0 <= i < j < |t.events| ==> !(t.events[i].Write? && t.events[j].Write?)
    // a run that writes returns normally, and only such a run does
    ensures t.status == 0 <==> exists e :: e in t.events && e.Write?
  {
    if |argv| < 3 then Termination([Usage], -1)
    else
      var infile, outfile := argv[1], argv[2];
      if !io.loaded then Termination([Load(infile), LoadFailed(infile)], -2)
      else
        var converted := [Load(infile), Convert] + (if io.convertCode != 0 then [ConvertFailed(io.convertCode)] else []);
        var ext := FilenameExt(outfile);
        match SelectWriter(ext)
        case None => Termination(converted + [UnknownFormat(ext)], -1)
        case Some(f) =>
          Termination(converted + [Write(f, outfile)] + (if io.written then [] else [WriteFailed(f, outfile)]), 0)
  }

  /** The foreign calls among `events`, in order, without the diagnostics. */
  function CallsOf(events: seq<Event>): (calls: seq<Event>)
    ensures |calls| <= |events|
  {
    if events == [] then []
    else (if events[0].IsCall() then [events[0]] else []) + CallsOf(events[1..])
  }

  /** `CallsOf` keeps exactly the calls: nothing else, and none of them is dropped. */
  lemma {:induction false} CallsOfMembers(events: seq<Event>, e: Event)
    ensures e in CallsOf(events) <==> e in events && e.IsCall()
  {
    if events != [] {
      CallsOfMembers(events[1..], e);
      assert events == [events[0]] + events[1..];
    }
  }

  lemma {:induction false} CallsOfAppend(a: seq<Event>, b: seq<Event>)
    ensures CallsOf(a + b) == CallsOf(a) + CallsOf(b)
  {
    if a != [] {
      assert (a + b)[1..] == a[1..] + b;
      CallsOfAppend(a[1..], b);
    } else {
      assert a + b == b;
    }
  }

  /**
   * The foreign calls of a run, in order: loading (with enough arguments),
   * then the engine and the selected writer (once the load succeeded).
   */
  function ExpectedCalls(argv: seq<CString>, loaded: bool): seq<Event>
  {
    if |argv| < 3 then []
    else if !loaded then [Load(argv[1])]
    else
      [Load(argv[1]), Convert] +
      match SelectWriter(OutputExt(argv))
      case None => []
      case Some(f) => [Write(f, argv[2])]
  }

  /** A run makes exactly the calls listed by `ExpectedCalls`, in that order. */
  lemma RunCalls(argv: seq<CString>, io: Outcomes)
    ensures CallsOf(Run(argv, io).events) == ExpectedCalls(argv, io.loaded)
  {
    if |argv| >= 3 {
      var infile := argv[1];
      if !io.loaded {
        assert Run(argv, io).events == [Load(infile), LoadFailed(infile)];
        assert [Load(infile), LoadFailed(infile)][1..] == [LoadFailed(infile)];
        assert [LoadFailed(infile)][1..] == [];
      } else {
        RunCallsLoaded(argv, io);
      }
    }
  }

  lemma CallsOfSingle(e: Event)
    ensures CallsOf([e]) == if e.IsCall() then [e] else []
  {
    assert [e][1..] == [];
  }

  lemma RunCallsLoaded(argv: seq<CString>, io: Outcomes)
    requires |argv| >= 3 && io.loaded
    ensures CallsOf(Run(argv, io).events) == ExpectedCalls(argv, io.loaded)
  {
    var infile, outfile := argv[1], argv[2];
    var report: seq<Event> := if io.convertCode != 0 then [ConvertFailed(io.convertCode)] else [];
    var converted := [Load(infile), Convert] + report;
    assert CallsOf(converted) == [Load(infile), Convert] by {
      CallsOfAppend([Load(infile), Convert], report);
      CallsOfAppend([Load(infile)], [Convert]);
      assert [Load(infile)] + [Convert] == [Load(infile), Convert];
      CallsOfSingle(Load(infile));
      CallsOfSingle(Convert);
      if report != [] { CallsOfSingle(report[0]); }
    }
    var ext := FilenameExt(outfile);
    match SelectWriter(ext)
    case None =>
      assert Run(argv, io).events == converted + [UnknownFormat(ext)];
      CallsOfAppend(converted, [UnknownFormat(ext)]);
      CallsOfSingle(UnknownFormat(ext));
    case Some(f) =>
      var failed: seq<Event> := if io.written then [] else [WriteFailed(f, outfile)];
      assert Run(argv, io).events == converted + [Write(f, outfile)] + failed;
      CallsOfAppend(converted, [Write(f, outfile)]);
      CallsOfAppend(converted + [Write(f, outfile)], failed);
      CallsOfSingle(Write(f, outfile));
      if failed != [] { CallsOfSingle(failed[0]); }
  }

  /**
   * A failed conversion and a failed write are only reported: whatever the
   * engine's result code and the writer's success, a run makes the same
   * foreign calls in the same order and exits with the same status.
   */
  lemma FailuresOnlyReported(argv: seq<CString>, io1: Outcomes, io2: Outcomes)
    requires io1.loaded == io2.loaded
    ensures Run(argv, io1).status == Run(argv, io2).status
    ensures CallsOf(Run(argv, io1).events) == CallsOf(Run(argv, io2).events)
  {
    RunCalls(argv, io1);
    RunCalls(argv, io2);
  }

  /** A conversion failure is reported with the engine's code, and only then. */
  lemma ConversionFailureReported(argv: seq<CString>, io: Outcomes, c: Int32)
    ensures ConvertFailed(c) in Run(argv, io).events <==>
      |argv| >= 3 && io.loaded && c == io.convertCode && c != 0
  {
    if |argv| >= 3 && io.loaded {
      var outfile, ext := argv[2], OutputExt(argv);
      var report: seq<Event> := if io.convertCode != 0 then [ConvertFailed(io.convertCode)] else [];
      var converted := [Load(argv[1]), Convert] + report;
      match SelectWriter(ext)
      case None =>
        assert Run(argv, io).events == converted + [UnknownFormat(ext)];
      case Some(f) =>
        var failed: seq<Event> := if io.written then [] else [WriteFailed(f, outfile)];
        assert Run(argv, io).events == converted + [Write(f, outfile)] + failed;
    }
  }

  /**
   * The other diagnostics: the usage message exactly with too few arguments,
   * the load failure exactly when the load fails, and the unknown-format
   * message, with the extension, exactly when no writer matches.
   */
  lemma DiagnosticsReported(argv: seq<CString>, io: Outcomes, p: CString)
    ensures Usage in Run(argv, io).events <==> |argv| < 3
    ensures LoadFailed(p) in Run(argv, io).events <==> |argv| >= 3 && !io.loaded && p == argv[1]
    ensures UnknownFormat(p) in Run(argv, io).events <==>
      |argv| >= 3 && io.loaded && SelectWriter(OutputExt(argv)).None? && p == OutputExt(argv)
  {
    if |argv| >= 3 && io.loaded {
      var outfile, ext := argv[2], OutputExt(argv);
      var report: seq<Event> := if io.convertCode != 0 then [ConvertFailed(io.convertCode)] else [];
      var converted := [Load(argv[1]), Convert] + report;
      match SelectWriter(ext)
      case None =>
        assert Run(argv, io).events == converted + [UnknownFormat(ext)];
      case Some(f) =>
        var failed: seq<Event> := if io.written then [] else [WriteFailed(f, outfile)];
        assert Run(argv, io).events == converted + [Write(f, outfile)] + failed;
    }
  }

  /** A write failure is reported for the writer that was called, and only when it failed. */
  lemma WriteFailureReported(argv: seq<CString>, io: Outcomes, f: Format, p: CString)
    ensures WriteFailed(f, p) in Run(argv, io).events <==> Write(f, p) in Run(argv, io).events && !io.written
  {
    if |argv| >= 3 && io.loaded {
      var outfile, ext := argv[2], OutputExt(argv);
      var report: seq<Event> := if io.convertCode != 0 then [ConvertFailed(io.convertCode)] else [];
      var converted := [Load(argv[1]), Convert] + report;
      match SelectWriter(ext)
      case None =>
        assert Run(argv, io).events == converted + [UnknownFormat(ext)];
      case Some(f) =>
        var failed: seq<Event> := if io.written then [] else [WriteFailed(f, outfile)];
        assert Run(argv, io).events == converted + [Write(f, outfile)] + failed;
    }
  }

  /** The engine always runs before the writer. */
  lemma ConvertBeforeWrite(argv: seq<CString>, io: Outcomes)
    ensures var events := Run(argv, io).events;
      forall i, j :: 0 <= i < |events| && 0 <= j < |events| && events[i].Convert? && events[j].Write? ==> i < j
  {
    if |argv| >= 3 && io.loaded {
      var outfile, ext := argv[2], OutputExt(argv);
      var report: seq<Event> := if io.convertCode != 0 then [ConvertFailed(io.convertCode)] else [];
      var converted := [Load(argv[1]), Convert] + report;
      match SelectWriter(ext)
      case None =>
        assert Run(argv, io).events == converted + [UnknownFormat(ext)];
      case Some(f) =>
        var failed: seq<Event> := if io.written then [] else [WriteFailed(f, outfile)];
        assert Run(argv, io).events == converted + [Write(f, outfile)] + failed;
    }
  }

  /** Arguments after the output file name are ignored. */
  lemma ExtraArgumentsIgnored(argv: seq<CString>, io: Outcomes)
    requires |argv| >= 3
    ensures Run(argv, io) == Run(argv[..3], io)
  {
  }
}
