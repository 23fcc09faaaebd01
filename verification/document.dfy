/**
 Loading a document: the lines read from the file are trimmed of
 trailing empty lines, and a file that does not yet start with the
 header line is initialised into the two-section layout

     header, E, ".", E, "."

 where E is the escaped content; the first copy of E is the original
 section and the second the revised section.
 */
module Document {
  import opened Wrappers
  import opened Lines
  import opened Escaping

  /** The first line of every initialised document. */
  const Header: string := "#!/usr/bin/env ponydocs"

  /** The loop of Program.java lines 161-162: remove the last line while it is empty. */
  function DropTrailingEmpty(lines: seq<string>): (r: seq<string>)
    ensures r <= lines
    ensures r != [] ==> r[|r| - 1] != ""
    ensures forall i :: |r| <= i < |lines| ==> lines[i] == ""
  {
    if lines == [] then []
    else if lines[|lines| - 1] == "" then DropTrailingEmpty(lines[..|lines| - 1])
    else lines
  }

  /**
   Program.java lines 158-162 as written: an empty list first gets one empty line,
   then trailing empty lines are dropped. When every line is empty the
   list runs empty and line 161 reads index -1, which throws; that
   outcome is `None`.
   */
  function Trim(raw: seq<string>): (r: Option<seq<string>>)
    ensures r.None? <==> forall i :: 0 <= i < |raw| ==> raw[i] == ""
    ensures r.Some? ==> && r.value != []
                        && r.value <= raw
                        && r.value[|r.value| - 1] != ""
                        && forall i :: |r.value| <= i < |raw| ==> raw[i] == ""
  {
    var padded := if raw == [] then [""] else raw;
    var trimmed := DropTrailingEmpty(padded);
    if trimmed == [] then None else Some(trimmed)
  }

  /** An empty file and a file of blank lines make the trimming loop throw. */
  lemma BlankFileFailsTrim()
    ensures Trim([]) == None
    ensures Trim(["", ""]) == None
  {
  }

  /**
   The trimming the guard at Program.java line 158 evidently intends: the document
   keeps at least one line, a single empty one when the file holds
   nothing but empty lines.
   */
  function TrimOrBlank(raw: seq<string>): (r: seq<string>)
    ensures r != []
    ensures r == [""] <==> forall i :: 0 <= i < |raw| ==> raw[i] == ""
    ensures r != [""] ==> r <= raw && r[|r| - 1] != ""
    ensures forall i :: |r| <= i < |raw| ==> raw[i] == ""
  {
    match Trim(raw)
    case None => [""]
    case Some(trimmed) => trimmed
  }

  /** A trimmed document is left as it is by a second trimming. */
  lemma TrimOrBlankIdempotent(raw: seq<string>)
    ensures TrimOrBlank(TrimOrBlank(raw)) == TrimOrBlank(raw)
  {
  }

  /**
   First-run initialisation (Program.java lines 166-172): escape, append the
   sentinel, duplicate the whole list, prepend the header.
   */
  function Initialise(lines: seq<string>): (r: seq<string>)
    ensures |r| == 2 * |lines| + 3
    ensures r[0] == Header
    ensures forall i :: 0 <= i < |r| ==> (r[i] == Sentinel <==> i == |lines| + 1 || i == 2 * |lines| + 2)
    ensures r[1..|lines| + 1] == r[|lines| + 2..2 * |lines| + 2] == EscapeAll(lines)
  {
    var escaped := EscapeAll(lines);
    var withSentinel := escaped + [Sentinel];
    [Header] + withSentinel + withSentinel
  }

  /**
   Program.java lines 166-172 as the in-place list edits they are. The bound `n` of
   the copying loop is read after the sentinel is appended, so the
   sentinel is copied too.
   */
  method InitialiseInPlace(lines: seq<string>) returns (doc: seq<string>)
    ensures doc == Initialise(lines)
  {
    doc := lines;
    var i, n := 0, |doc|;
    while i < n
      invariant 0 <= i <= n == |doc| == |lines|
      invariant forall j :: 0 <= j < i ==> doc[j] == Escape(lines[j])
      invariant forall j :: i <= j < n ==> doc[j] == lines[j]
    {
      if StartsWithDot(doc[i]) {
        doc := doc[i := "." + doc[i]];
      }
      i := i + 1;
    }
    assert doc == EscapeAll(lines);
    doc := doc + [Sentinel];
    i, n := 0, |doc|;
    while i < n
      invariant 0 <= i <= n == |lines| + 1
      invariant |doc| == n + i
      invariant doc[..n] == EscapeAll(lines) + [Sentinel]
      invariant doc[n..] == doc[..i]
    {
      doc := doc + [doc[i]];
      i := i + 1;
    }
    doc := [Header] + doc;
  }

  /**
   Loading (Program.java lines 158-175): trim, then initialise unless the first line
   is already the header. Only the first line is compared, so a plain
   file that happens to begin with the header line is left as it is.
   */
  function Load(raw: seq<string>): (r: seq<string>)
    ensures r != [] && r[0] == Header
    ensures r == TrimOrBlank(raw) <==> TrimOrBlank(raw)[0] == Header
    ensures TrimOrBlank(raw)[0] != Header ==> r == Initialise(TrimOrBlank(raw))
  {
    var trimmed := TrimOrBlank(raw);
    if trimmed[0] == Header then trimmed else Initialise(trimmed)
  }

  /** Whether loading rewrites the file (Program.java line 174): exactly when it initialises. */
  predicate Initialises(raw: seq<string>): (b: bool)
    ensures b <==> Load(raw) != TrimOrBlank(raw)
    ensures b ==> |Load(raw)| == 2 * |TrimOrBlank(raw)| + 3
  {
    TrimOrBlank(raw)[0] != Header
  }

  /** Loading a loaded document changes nothing: the header guard makes loading idempotent. */
  lemma LoadIdempotent(raw: seq<string>)
    ensures !Initialises(Load(raw))
    ensures Load(Load(raw)) == Load(raw)
  {
  }

  lemma EscapeNewlineFree(line: string)
    requires NewlineFree(line)
    ensures NewlineFree(Escape(line))
  {
  }

  lemma AppendNewlineFree(a: seq<string>, b: seq<string>)
    requires AllNewlineFree(a) && AllNewlineFree(b)
    ensures AllNewlineFree(a + b)
  {
  }

  lemma InitialiseNewlineFree(lines: seq<string>)
    requires AllNewlineFree(lines)
    ensures AllNewlineFree(Initialise(lines))
  {
    var e := EscapeAll(lines);
    assert AllNewlineFree(e) by {
      forall i | 0 <= i < |e| ensures NewlineFree(e[i]) {
        EscapeNewlineFree(lines[i]);
      }
    }
    assert AllNewlineFree([Header]) && AllNewlineFree([Sentinel]);
    AppendNewlineFree(e, [Sentinel]);
    var w := e + [Sentinel];
    AppendNewlineFree([Header], w);
    AppendNewlineFree([Header] + w, w);
  }

  /** Loading keeps lines free of newlines, so the saved file reads back line for line. */
  lemma LoadNewlineFree(raw: seq<string>)
    requires AllNewlineFree(raw)
    ensures AllNewlineFree(Load(raw))
  {
    var t := TrimOrBlank(raw);
    assert AllNewlineFree(t) by {
      if t != [""] {
        forall i | 0 <= i < |t| ensures NewlineFree(t[i]) {
          assert t[i] == raw[i];
        }
      } else {
        assert NewlineFree(t[0]);
      }
    }
    if t[0] != Header {
      InitialiseNewlineFree(t);
    }
  }
}
