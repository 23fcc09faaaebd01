/**
 Dot escaping of content lines. A line that is exactly "." is the
 structural sentinel of the document format, so every content line that
 starts with a dot receives one more leading dot when the document is
 first initialised, and both extractors strip one leading dot again.
 */
module Escaping {

  /** The line separating the original section from the revised one. */
  const Sentinel: string := "."

  /** `String.startsWith(".")`. */
  predicate StartsWithDot(s: string)
  {
    |s| > 0 && s[0] == '.'
  }

  /**
   The shape of every escaped line: a line that starts with a dot
   starts with at least two.
   */
  predicate IsEscaped(s: string)
  {
    StartsWithDot(s) ==> StartsWithDot(s[1..])
  }

  /** The extractors' unescaping: one leading dot is dropped (`substring(1)`). */
  function Unescape(line: string): (r: string)
    ensures StartsWithDot(line) ==> Sentinel + r == line
    ensures !StartsWithDot(line) ==> r == line
    ensures r == line <==> !StartsWithDot(line)
  {
    if StartsWithDot(line) then line[1..] else line
  }

  /** The initialiser's escaping of one line. */
  function Escape(line: string): (r: string)
    ensures r != Sentinel
    ensures IsEscaped(r)
    ensures Unescape(r) == line
    ensures |line| <= |r| <= |line| + 1 && r[|r| - |line|..] == line
  {
    if StartsWithDot(line) then "." + line else line
  }

  /**
   Unescaping is a left inverse of escaping, and a right inverse exactly
   on the escaped lines: the lines escaping can produce.
   */
  lemma UnescapeInverse(line: string)
    ensures Escape(Unescape(line)) == line <==> IsEscaped(line)
  {
  }

  /** An escaped line is exactly the image of some line under escaping. */
  lemma EscapedIsImage(line: string)
    ensures IsEscaped(line) <==> exists x :: Escape(x) == line
  {
    if IsEscaped(line) {
      UnescapeInverse(line);
      assert Escape(Unescape(line)) == line;
    }
  }

  /** Program.java lines 166-168: escape every line of the document. */
  function EscapeAll(lines: seq<string>): (r: seq<string>)
    ensures |r| == |lines|
    ensures forall i :: 0 <= i < |r| ==> r[i] == Escape(lines[i])
    ensures Sentinel !in r
  {
    seq(|lines|, i requires 0 <= i < |lines| => Escape(lines[i]))
  }

  /**
   What the extractors print for a run of content lines. The two ensures
   only spell out the comprehension pointwise; they are there so that the
   solver sees each element without unfolding the body.
   */
  function UnescapeAll(lines: seq<string>): (r: seq<string>)
    ensures |r| == |lines|
    ensures forall i :: 0 <= i < |r| ==> r[i] == Unescape(lines[i])
  {
    seq(|lines|, i requires 0 <= i < |lines| => Unescape(lines[i]))
  }

  /** Escaping is undone by unescaping. */
  lemma EscapeAllRoundTrip(lines: seq<string>)
    ensures UnescapeAll(EscapeAll(lines)) == lines
  {
  }

  lemma UnescapeAllAppend(a: seq<string>, b: seq<string>)
    ensures UnescapeAll(a + b) == UnescapeAll(a) + UnescapeAll(b)
  {
  }
}
