/**
 One run of the program on a document file, after its arguments have
 been accepted: read the lines, load (initialising and saving when the
 header is missing), then print the requested section.
 */
module Ponydocs {
  import opened Wrappers
  import opened Lines
  import opened Escaping
  import opened Document
  import opened Extract

  /** The dump selected on the command line (`-o`, `-r`, or neither). */
  datatype Mode = Original | Revised | Interactive

  /** The observable effect of a run: the file contents written, if any, and the lines printed. */
  datatype Outcome = Outcome(written: Option<string>, printed: seq<string>)

  /**
   Program.java lines 158-206 with the file's text as input: the file is
   rewritten (line 174) exactly when loading changes the trimmed document,
   and what is written reads back as the loaded document. After such a
   first run both dumps print the trimmed lines as they were. The stdin
   echo loop of interactive mode prints nothing to the document stream.
   */
  function Run(file: string, mode: Mode): (o: Outcome)
    ensures o.written.Some? <==> Load(ReadLines(file)) != TrimOrBlank(ReadLines(file))
    ensures o.written.Some? ==> ReadLines(o.written.value) == Load(ReadLines(file))
    ensures o.written.Some? && mode != Interactive ==> o.printed == TrimOrBlank(ReadLines(file))
    ensures mode == Interactive ==> o.printed == []
  {
    var raw := ReadLines(file);
    LoadNewlineFree(raw);
    ReadLinesSerialise(Load(raw));
    OriginalRoundTrip(TrimOrBlank(raw));
    RevisedRoundTrip(TrimOrBlank(raw));
    var doc := Load(raw);
    var written := if Initialises(raw) then Some(Serialise(doc)) else None;
    var printed :=
      match mode
      case Original => ExtractOriginal(doc)
      case Revised => ExtractRevised(doc)
      case Interactive => [];
    Outcome(written, printed)
  }

  /** The file a run writes reads back as the document the run loaded. */
  lemma {:induction false} RunWritesLoaded(file: string, mode: Mode)
    requires Initialises(ReadLines(file))
    ensures Run(file, mode).written.Some?
    ensures ReadLines(Run(file, mode).written.value) == Load(ReadLines(file))
  {
    var raw := ReadLines(file);
    LoadNewlineFree(raw);
    ReadLinesSerialise(Load(raw));
  }

  /**
   The round trip through the file: after a run initialises a plain
   file, both dumps print the file's lines, trimmed, exactly as they were.
   */
  lemma {:induction false} RunPrintsPlainText(file: string, mode: Mode)
    requires Initialises(ReadLines(file))
    requires mode != Interactive
    ensures Run(file, mode).printed == TrimOrBlank(ReadLines(file))
  {
    var plain := TrimOrBlank(ReadLines(file));
    OriginalRoundTrip(plain);
    RevisedRoundTrip(plain);
  }

  /**
   Running again on the file a run has written writes nothing more and
   prints, in every mode, what the first run printed.
   */
  lemma {:induction false} RunAgain(file: string, mode: Mode, again: Mode)
    requires Initialises(ReadLines(file))
    ensures Run(file, mode).written.Some?
    ensures Run(Run(file, mode).written.value, again).written == None
    ensures Run(Run(file, mode).written.value, again).printed == Run(file, again).printed
  {
    RunWritesLoaded(file, mode);
    LoadIdempotent(ReadLines(file));
  }

  /**
   A two-line file whose second line starts with a dot: the file is
   rewritten in the two-section layout with that line escaped, and both
   dumps print the two lines as they were.
   */
  lemma {:induction false} TwoLineExample(file: string)
    requires file == "Hello\n.World\n"
    ensures Run(file, Original).printed == ["Hello", ".World"]
    ensures Run(file, Revised).printed == ["Hello", ".World"]
    ensures Run(file, Original).written.Some?
    ensures ReadLines(Run(file, Original).written.value) ==
      ["#!/usr/bin/env ponydocs", "Hello", "..World", ".", "Hello", "..World", "."]
  {
    var plain := ["Hello", ".World"];
    ReadTwoLines(file);
    assert DropTrailingEmpty(plain) == plain;
    assert TrimOrBlank(plain) == plain;
    EscapeTwoLines();
    RunWritesLoaded(file, Original);
    RunPrintsPlainText(file, Original);
    RunPrintsPlainText(file, Revised);
  }

  lemma ReadTwoLines(file: string)
    requires file == "Hello\n.World\n"
    ensures ReadLines(file) == ["Hello", ".World"]
  {
    var plain := ["Hello", ".World"];
    assert Serialise(plain) == file by {
      SerialiseCons("Hello", [".World"]);
      SerialiseCons(".World", []);
    }
    assert NewlineFree(plain[0]) && NewlineFree(plain[1]);
    ReadLinesSerialise(plain);
  }

  lemma EscapeTwoLines()
    ensures Initialise(["Hello", ".World"]) ==
      ["#!/usr/bin/env ponydocs", "Hello", "..World", ".", "Hello", "..World", "."]
  {
    assert Escape(".World") == "..World";
    assert EscapeAll(["Hello", ".World"]) == ["Hello", "..World"];
  }
}
