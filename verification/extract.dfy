/**
 The two extractors behind `-o` and `-r`. Both print content lines with
 one leading dot stripped and stop at the first line that is exactly the
 sentinel; they differ in where they start.
 */
module Extract {
  import opened Escaping
  import opened Document

  /** Index of the first sentinel line of `lines`, or `|lines|` when there is none. */
  function FirstSentinel(lines: seq<string>): (k: nat)
    ensures k <= |lines|
    ensures forall i :: 0 <= i < k ==> lines[i] != Sentinel
    ensures k < |lines| ==> lines[k] == Sentinel
  {
    if lines == [] || lines[0] == Sentinel then 0 else 1 + FirstSentinel(lines[1..])
  }

  /** Any index with the defining properties is the first sentinel. */
  lemma FirstSentinelAt(lines: seq<string>, k: nat)
    requires k <= |lines|
    requires forall i :: 0 <= i < k ==> lines[i] != Sentinel
    requires k < |lines| ==> lines[k] == Sentinel
    ensures FirstSentinel(lines) == k
  {
  }

  /**
   The printing phase shared by both loops: each line is unescaped and
   printed, up to but excluding the first sentinel line.
   */
  function Section(lines: seq<string>): (r: seq<string>)
    ensures r == UnescapeAll(lines[..FirstSentinel(lines)])
  {
    if lines == [] || lines[0] == Sentinel then []
    else
      var k := FirstSentinel(lines[1..]);
      assert lines[..k + 1] == [lines[0]] + lines[1..][..k];
      [Unescape(lines[0])] + Section(lines[1..])
  }

  /** Program.java lines 177-189: skip the first line, then print the section. */
  function ExtractOriginal(doc: seq<string>): (r: seq<string>)
    ensures doc == [] ==> r == []
    ensures doc != [] ==> r == UnescapeAll(doc[1..1 + FirstSentinel(doc[1..])])
  {
    if doc == [] then [] else Section(doc[1..])
  }

  /** Program.java lines 193-196: the lines after the first sentinel, or none when there is none. */
  function AfterFirstSentinel(doc: seq<string>): (r: seq<string>)
    ensures r == if FirstSentinel(doc) < |doc| then doc[FirstSentinel(doc) + 1..] else []
  {
    if doc == [] then []
    else if doc[0] == Sentinel then doc[1..]
    else
      assert FirstSentinel(doc) < |doc| ==>
               doc[1..][FirstSentinel(doc[1..]) + 1..] == doc[FirstSentinel(doc) + 1..];
      AfterFirstSentinel(doc[1..])
  }

  /** Program.java lines 191-203: skip through the first sentinel, then print the next section. */
  function ExtractRevised(doc: seq<string>): (r: seq<string>)
    ensures FirstSentinel(doc) == |doc| ==> r == []
    ensures r == UnescapeAll(AfterFirstSentinel(doc)[..FirstSentinel(AfterFirstSentinel(doc))])
  {
    Section(AfterFirstSentinel(doc))
  }

  /** A section followed by anything: only the lines before the sentinel count. */
  lemma SectionBeforeSentinel(content: seq<string>, tail: seq<string>)
    requires forall i :: 0 <= i < |content| ==> content[i] != Sentinel
    ensures Section(content + [Sentinel] + tail) == UnescapeAll(content)
  {
    var lines := content + [Sentinel] + tail;
    FirstSentinelAt(lines, |content|);
    assert lines[..|content|] == content;
  }

  /** Once a section has reached its sentinel, appending lines changes nothing. */
  lemma SectionIgnoresTail(lines: seq<string>, tail: seq<string>)
    requires FirstSentinel(lines) < |lines|
    ensures Section(lines + tail) == Section(lines)
  {
    var k := FirstSentinel(lines);
    FirstSentinelAt(lines + tail, k);
    assert (lines + tail)[..k] == lines[..k];
  }

  /**
   The printed lines depend only on the document up to the first
   sentinel of the printed section: whatever follows it is never printed.
   */
  lemma OriginalIgnoresTail(doc: seq<string>, tail: seq<string>)
    requires doc != [] && 1 + FirstSentinel(doc[1..]) < |doc|
    ensures ExtractOriginal(doc + tail) == ExtractOriginal(doc)
  {
    assert (doc + tail)[1..] == doc[1..] + tail;
    SectionIgnoresTail(doc[1..], tail);
  }

  /** Lines appended after a sentinel end up after the skipping phase. */
  lemma {:induction false} AfterFirstSentinelAppend(doc: seq<string>, tail: seq<string>)
    requires FirstSentinel(doc) < |doc|
    ensures AfterFirstSentinel(doc + tail) == AfterFirstSentinel(doc) + tail
  {
    assert (doc + tail)[1..] == doc[1..] + tail;
    if doc[0] != Sentinel {
      AfterFirstSentinelAppend(doc[1..], tail);
    }
  }

  lemma RevisedIgnoresTail(doc: seq<string>, tail: seq<string>)
    requires FirstSentinel(doc) < |doc|
    requires FirstSentinel(AfterFirstSentinel(doc)) < |AfterFirstSentinel(doc)|
    ensures ExtractRevised(doc + tail) == ExtractRevised(doc)
  {
    AfterFirstSentinelAppend(doc, tail);
    SectionIgnoresTail(AfterFirstSentinel(doc), tail);
  }

  /** The original extractor recovers the lines an initialised document was made from. */
  lemma {:induction false} OriginalRoundTrip(lines: seq<string>)
    ensures ExtractOriginal(Initialise(lines)) == lines
  {
    var e := EscapeAll(lines);
    EscapeAllRoundTrip(lines);
    var w := e + [Sentinel];
    var doc := Initialise(lines);
    assert doc == [Header] + w + w;
    assert doc[1..] == e + [Sentinel] + w;
    SectionBeforeSentinel(e, w);
  }

  /**
   So does the revised extractor of a freshly initialised document: its
   skipping phase ends at the first sentinel, because neither the header
   nor an escaped line is the sentinel.
   */
  lemma {:induction false} RevisedRoundTrip(lines: seq<string>)
    ensures ExtractRevised(Initialise(lines)) == lines
  {
    var e := EscapeAll(lines);
    EscapeAllRoundTrip(lines);
    var doc := Initialise(lines);
    FirstSentinelAt(doc, |lines| + 1);
    assert AfterFirstSentinel(doc) == e + [Sentinel];
    SectionBeforeSentinel(e, []);
    assert e + [Sentinel] + [] == e + [Sentinel];
  }

  /** Where the original section ends, the original extractor has printed all of it. */
  lemma OriginalSectionEndsAt(doc: seq<string>, e: nat)
    requires 1 <= e <= |doc|
    requires forall j :: 1 <= j < e ==> doc[j] != Sentinel
    requires e < |doc| ==> doc[e] == Sentinel
    ensures ExtractOriginal(doc) == UnescapeAll(doc[1..e])
  {
    FirstSentinelAt(doc[1..], e - 1);
    assert doc[1..][..e - 1] == doc[1..e];
  }

  /** Where the revised section ends, the revised extractor has printed all of it. */
  lemma RevisedSectionEndsAt(doc: seq<string>, s: nat, e: nat)
    requires s < e <= |doc|
    requires forall j :: 0 <= j < s ==> doc[j] != Sentinel
    requires doc[s] == Sentinel
    requires forall j :: s < j < e ==> doc[j] != Sentinel
    requires e < |doc| ==> doc[e] == Sentinel
    ensures ExtractRevised(doc) == UnescapeAll(doc[s + 1..e])
  {
    FirstSentinelAt(doc, s);
    var body := doc[s + 1..];
    assert AfterFirstSentinel(doc) == body;
    FirstSentinelAt(body, e - s - 1);
    assert body[..e - s - 1] == doc[s + 1..e];
  }

  /** Printing one more line extends the unescaped run by that line. */
  lemma UnescapeExtend(doc: seq<string>, a: nat, i: nat)
    requires a <= i < |doc|
    ensures UnescapeAll(doc[a..i + 1]) == UnescapeAll(doc[a..i]) + [Unescape(doc[i])]
  {
    assert doc[a..i + 1] == doc[a..i] + [doc[i]];
    UnescapeAllAppend(doc[a..i], [doc[i]]);
  }

  /** Program.java lines 179-188, the loop with its `first` flag and early return. */
  method PrintOriginal(doc: seq<string>) returns (out: seq<string>)
    ensures out == ExtractOriginal(doc)
  {
    out := [];
    var first := true;
    var i := 0;
    while i < |doc|
      invariant 0 <= i <= |doc|
      invariant first <==> i == 0
      invariant forall j :: 1 <= j < i ==> doc[j] != Sentinel
      invariant i > 0 ==> out == UnescapeAll(doc[1..i])
      invariant i == 0 ==> out == []
    {
      var line := doc[i];
      if first {
        first := false;
      } else if line == Sentinel {
        OriginalSectionEndsAt(doc, i);
        return;
      } else {
        UnescapeExtend(doc, 1, i);
        if StartsWithDot(line) {
          out := out + [line[1..]];
        } else {
          out := out + [line];
        }
      }
      i := i + 1;
    }
    if doc != [] {
      OriginalSectionEndsAt(doc, |doc|);
    }
  }

  /** Program.java lines 193-202: `first` stays set until the first sentinel line has been read. */
  method PrintRevised(doc: seq<string>) returns (out: seq<string>)
    ensures out == ExtractRevised(doc)
  {
    out := [];
    var first := true;
    var i := 0;
    ghost var s := FirstSentinel(doc);
    while i < |doc|
      invariant 0 <= i <= |doc|
      invariant first <==> i <= s
      invariant first ==> out == []
      invariant !first ==> forall j :: s < j < i ==> doc[j] != Sentinel
      invariant !first ==> out == UnescapeAll(doc[s + 1..i])
    {
      var line := doc[i];
      if first {
        if line == Sentinel {
          assert i == s;
        }
        first := line != Sentinel;
      } else if line == Sentinel {
        RevisedSectionEndsAt(doc, s, i);
        return;
      } else {
        UnescapeExtend(doc, s + 1, i);
        if StartsWithDot(line) {
          out := out + [line[1..]];
        } else {
          out := out + [line];
        }
      }
      i := i + 1;
    }
    if s < |doc| {
      RevisedSectionEndsAt(doc, s, |doc|);
    }
  }
}
