/**
 The on-disk line format. `save` writes every line followed by one
 newline byte; reading a file back splits it into lines again, the way
 `Scanner.nextLine` does for newline-terminated text.
 */
module Lines {

  const NewLine: char := '\n'

  /** A line as read from or written to the file holds no newline character. */
  predicate NewlineFree(s: string)
  {
    forall i :: 0 <= i < |s| ==> s[i] != NewLine
  }

  predicate AllNewlineFree(lines: seq<string>)
  {
    forall i :: 0 <= i < |lines| ==> NewlineFree(lines[i])
  }

  /** The file contents `save` produces: each line followed by a newline, in order. */
  function Serialise(lines: seq<string>): (r: string)
    ensures r == [] <==> lines == []
    ensures lines != [] ==> r[|r| - 1] == NewLine
    ensures |r| >= |lines|
  {
    if lines == [] then [] else lines[0] + [NewLine] + Serialise(lines[1..])
  }

  lemma {:induction false} SerialiseAppend(a: seq<string>, b: seq<string>)
    ensures Serialise(a + b) == Serialise(a) + Serialise(b)
    decreases |a|
  {
    if a == [] {
      assert a + b == b;
    } else {
      assert (a + b)[1..] == a[1..] + b;
      SerialiseAppend(a[1..], b);
    }
  }

  lemma SerialiseCons(line: string, lines: seq<string>)
    ensures Serialise([line] + lines) == line + [NewLine] + Serialise(lines)
  {
    assert ([line] + lines)[1..] == lines;
  }

  lemma SplitAt(text: string, k: nat)
    requires k < |text| && text[k] == NewLine
    ensures text == text[..k] + [NewLine] + text[k + 1..]
  {
  }

  /** The loop of `save`: write each line, then byte 10. */
  method Save(lines: seq<string>) returns (out: string)
    ensures out == Serialise(lines)
  {
    out := [];
    var i := 0;
    while i < |lines|
      invariant 0 <= i <= |lines|
      invariant out == Serialise(lines[..i])
    {
      var line := lines[i];
      assert lines[..i + 1] == lines[..i] + [line];
      assert Serialise([line]) == line + [NewLine] by {
        assert [line][1..] == [];
      }
      SerialiseAppend(lines[..i], [line]);
      out := out + (line + [NewLine]);
      i := i + 1;
    }
    assert lines[..i] == lines;
  }

  /** Index of the first newline of `s`, or `|s|` when there is none. */
  function FirstNewline(s: string): (k: nat)
    ensures k <= |s|
    ensures forall i :: 0 <= i < k ==> s[i] != NewLine
    ensures k < |s| ==> s[k] == NewLine
  {
    if s == [] || s[0] == NewLine then 0 else 1 + FirstNewline(s[1..])
  }

  /**
   The lines a reader sees in `text`: every newline ends a line, and an
   unterminated last fragment is a line of its own when it is non-empty.
   */
  function ReadLines(text: string): (r: seq<string>)
    ensures AllNewlineFree(r)
    ensures |r| <= |text|
    decreases |text|
  {
    if text == [] then []
    else
      var k := FirstNewline(text);
      if k == |text| then [text]
      else [text[..k]] + ReadLines(text[k + 1..])
  }

  /** A line ended by a newline is read, then the rest of the text. */
  lemma ReadLinesStep(text: string, k: nat)
    requires k < |text|
    requires forall i :: 0 <= i < k ==> text[i] != NewLine
    requires text[k] == NewLine
    ensures ReadLines(text) == [text[..k]] + ReadLines(text[k + 1..])
  {
  }

  /** Reading back what `save` wrote yields the saved lines. */
  lemma {:induction false} ReadLinesSerialise(lines: seq<string>)
    requires AllNewlineFree(lines)
    ensures ReadLines(Serialise(lines)) == lines
    decreases |lines|
  {
    if lines != [] {
      var text := Serialise(lines);
      var head := lines[0];
      assert text == head + [NewLine] + Serialise(lines[1..]);
      assert NewlineFree(head);
      assert FirstNewline(text) == |head| by {
        var k := FirstNewline(text);
        assert text[|head|] == NewLine;
        assert forall i :: 0 <= i < |head| ==> text[i] == head[i];
      }
      assert text[..|head|] == head;
      assert text[|head| + 1..] == Serialise(lines[1..]);
      ReadLinesSerialise(lines[1..]);
    }
  }

  /** Saving the lines read from newline-terminated text rewrites that text. */
  lemma {:induction false} SerialiseReadLines(text: string)
    requires text == [] || text[|text| - 1] == NewLine
    ensures Serialise(ReadLines(text)) == text
    decreases |text|
  {
    if text != [] {
      var k := FirstNewline(text);
      assert k < |text|;
      var head, rest := text[..k], text[k + 1..];
      var lines := ReadLines(rest);
      ReadLinesStep(text, k);
      assert rest == [] || rest[|rest| - 1] == NewLine;
      SerialiseReadLines(rest);
      SerialiseCons(head, lines);
      SplitAt(text, k);
    }
  }
}
