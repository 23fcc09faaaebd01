# ponydocs document codec, modelled in Dafny

ponydocs keeps two versions of a plain-text document in one file. The
first is the original submission and the second is the revised copy.
The first time a file is opened, its lines are rewritten into a
two-section layout:

    #!/usr/bin/env ponydocs      the header line
    E                            the original section
    .                            the sentinel line
    E                            the revised section (a copy, at first)
    .

E is the file's content, with trailing empty lines dropped and one
extra leading dot on every line that starts with a dot. That escaping
means no content line is ever exactly `.`, so a sentinel cannot be
mistaken for content. `-o` prints the original section and `-r` prints
the revised one. Both strip one leading dot again. `-o` stops at the
first sentinel line; `-r` skips through the first sentinel and stops at
the second. `save` writes every line followed by a newline byte.

The model is functional: documents are `seq<string>` values and each
step is a pure function. Five loops of `Program.java` are also given as
four methods that are proved to compute those functions: the escape and copy
loops of the initialiser (`Document.InitialiseInPlace`), the write loop
of `save` (`Lines.Save`) and the two print loops (`Extract.PrintOriginal`,
`Extract.PrintRevised`). The read loop (lines 150-155) and the trimming
loop (lines 161-162) are given only as the recursive functions
`Lines.ReadLines` and `Document.DropTrailingEmpty`.

| file | module | models |
|---|---|---|
| wrappers.dfy | `Wrappers` | `Option`, the result of a step that can fail |
| lines.dfy | `Lines` | `save` (each line plus a newline) and reading a file back into lines |
| escaping.dfy | `Escaping` | the sentinel, dot escaping and unescaping |
| document.dfy | `Document` | trimming, first-run initialisation and loading |
| extract.dfy | `Extract` | the original (`-o`) and revised (`-r`) extractors |
| ponydocs.dfy | `Ponydocs` | one run: read, load, save if initialised, print a section |

Several lines of `Program.java` do not compile. The model follows their
evident intent:
- line 152 `line = null` means the end of input. `Scanner.nextLine`
  never returns null and throws `NoSuchElementException` there instead;
  the model reads until the end of input;
- line 159 `append` means `add`;
- lines 161-162 `rawLine` means `rawLines`;
- line 172 `insert(0, …)` means `add(0, …)`.

Facts about `Program.java` that the model keeps as they are:
- `Program.java` has no ESC-byte doubling and no long-line wrapping.
- The revised extractor undoes dot escaping only, like the original one.
- The original extractor skips the first line, whatever it is. It does
  not check that this line is the header.
- Only line 0 is compared with the header. A plain file that already
  starts with the header line is therefore never initialised. A content
  line equal to the header is not escaped, but it is harmless because
  it is never at index 0 of an initialised file.

Apart from the line terminators listed under "## Left out", the one
place where the model departs from the code is a file with no
non-empty line, where the code throws; see "## Findings".

## Model

| member | source | states |
|---|---|---|
| `Lines.Serialise` | src/se/kth/maandree/ponydocs/Program.java:223-231 | the saved text is empty exactly when there are no lines, has at least one character per line, and ends with a newline |
| `Lines.Save` | src/se/kth/maandree/ponydocs/Program.java:226-229 | the write loop produces the serialised text: every line followed by a newline, in order |
| `Lines.ReadLines` | src/se/kth/maandree/ponydocs/Program.java:146-156 | the lines read from a file contain no newline, and there are no more lines than characters |
| `Lines.ReadLinesSerialise` | src/se/kth/maandree/ponydocs/Program.java:223-231 | reading a saved file back yields exactly the saved lines, if no line contains a newline |
| `Lines.SerialiseReadLines` | src/se/kth/maandree/ponydocs/Program.java:223-231 | saving the lines read from newline-terminated text rewrites that text character for character |
| `Escaping.Escape` | src/se/kth/maandree/ponydocs/Program.java:166-168 | an escaped line is never the sentinel, has the escaped shape, is undone by unescaping, and ends with the original line after at most one added character |
| `Escaping.UnescapeInverse` | src/se/kth/maandree/ponydocs/Program.java:185-188 | re-escaping an unescaped line gives it back if and only if the line has the escaped shape |
| `Escaping.Unescape` | src/se/kth/maandree/ponydocs/Program.java:185-188 | drops exactly one leading dot: the line is the sentinel followed by the result when it starts with a dot, and is returned unchanged exactly when it does not (the same step as lines 199-202) |
| `Escaping.EscapeAll` | src/se/kth/maandree/ponydocs/Program.java:166-168 | escaping the document leaves no line equal to the sentinel, so content can never be mistaken for the end of a section; each line is escaped in place |
| `Escaping.EscapedIsImage` | src/se/kth/maandree/ponydocs/Program.java:166-168 | a line has the escaped shape if and only if escaping some line produces it |
| `Escaping.EscapeAllRoundTrip` | src/se/kth/maandree/ponydocs/Program.java:166-168 | unescaping every escaped line restores the content |
| `Document.DropTrailingEmpty` | src/se/kth/maandree/ponydocs/Program.java:161-162 | the result is a prefix of the input, its last line is non-empty, and every removed line is empty |
| `Document.Trim` | src/se/kth/maandree/ponydocs/Program.java:158-162 | trimming fails exactly when no line is non-empty; otherwise it gives a non-empty prefix with a non-empty last line, and only empty lines are removed |
| `Document.BlankFileFailsTrim` | src/se/kth/maandree/ponydocs/Program.java:158-162 | an empty file and a file of two empty lines both make the trimming loop fail |
| `Document.TrimOrBlank` | src/se/kth/maandree/ponydocs/Program.java:158-162 | the document always has a line; it is a single empty line exactly when the file has no non-empty line, and otherwise a prefix with a non-empty last line |
| `Document.TrimOrBlankIdempotent` | src/se/kth/maandree/ponydocs/Program.java:161-162 | trimming a trimmed document changes nothing |
| `Document.Initialise` | src/se/kth/maandree/ponydocs/Program.java:166-172 | the result has 2n+3 lines; the header is at index 0; the only sentinel lines are at n+1 and 2n+2; both sections are the escaped content |
| `Document.InitialiseInPlace` | src/se/kth/maandree/ponydocs/Program.java:166-172 | the in-place loops, with the copy bound read after the sentinel is appended, produce the two-section layout |
| `Document.Load` | src/se/kth/maandree/ponydocs/Program.java:164-175 | a loaded document starts with the header; it is the trimmed file unchanged exactly when that file's first line is the header, and otherwise the initialised layout |
| `Document.Initialises` | src/se/kth/maandree/ponydocs/Program.java:164-174 | the header guard decides the save: loading changes the trimmed file exactly when this holds, and then the loaded document has 2n+3 lines |
| `Document.LoadIdempotent` | src/se/kth/maandree/ponydocs/Program.java:164 | a loaded document needs no initialisation, so loading it again returns it unchanged |
| `Extract.FirstSentinel` | src/se/kth/maandree/ponydocs/Program.java:183-184 | the index is the first line that is exactly the sentinel, or the length when there is none |
| `Extract.Section` | src/se/kth/maandree/ponydocs/Program.java:183-188 | the printed lines are the unescaped lines before the first sentinel, in order |
| `Extract.ExtractOriginal` | src/se/kth/maandree/ponydocs/Program.java:177-189 | after the first line, prints the unescaped lines up to but not including the first sentinel |
| `Extract.AfterFirstSentinel` | src/se/kth/maandree/ponydocs/Program.java:193-196 | the skipping phase ends just after the first sentinel, and leaves nothing when there is no sentinel |
| `Extract.ExtractRevised` | src/se/kth/maandree/ponydocs/Program.java:191-203 | prints the unescaped lines between the first and the second sentinel, or nothing when there is no sentinel |
| `Extract.SectionBeforeSentinel` | src/se/kth/maandree/ponydocs/Program.java:183-188 | for content with no sentinel, followed by a sentinel and anything else, the printed section is exactly the unescaped content |
| `Extract.SectionIgnoresTail` | src/se/kth/maandree/ponydocs/Program.java:183-184 | once a section contains a sentinel, lines appended after it do not change what is printed |
| `Extract.OriginalIgnoresTail` | src/se/kth/maandree/ponydocs/Program.java:177-189 | nothing after the first sentinel of the original section is ever printed |
| `Extract.RevisedIgnoresTail` | src/se/kth/maandree/ponydocs/Program.java:191-203 | nothing after the sentinel that closes the revised section is ever printed |
| `Extract.OriginalRoundTrip` | src/se/kth/maandree/ponydocs/Program.java:164-189 | the original extractor applied to an initialised document yields exactly the lines it was made from |
| `Extract.RevisedRoundTrip` | src/se/kth/maandree/ponydocs/Program.java:164-203 | the revised extractor applied to a freshly initialised document also yields exactly those lines |
| `Extract.OriginalSectionEndsAt` | src/se/kth/maandree/ponydocs/Program.java:183-184 | when every line after the first up to some index is content and the line at that index is a sentinel (or the end), the original extractor prints exactly those content lines unescaped |
| `Extract.RevisedSectionEndsAt` | src/se/kth/maandree/ponydocs/Program.java:197-198 | when the lines between the first sentinel and some index are content and the line at that index is a sentinel (or the end), the revised extractor prints exactly those lines unescaped |
| `Extract.PrintOriginal` | src/se/kth/maandree/ponydocs/Program.java:179-188 | the loop with its `first` flag and early return prints what the original extractor specifies |
| `Extract.PrintRevised` | src/se/kth/maandree/ponydocs/Program.java:193-202 | the loop whose `first` flag stays set until a sentinel is read prints what the revised extractor specifies |
| `Ponydocs.Run` | src/se/kth/maandree/ponydocs/Program.java:158-206 | the file is rewritten exactly when loading changes the trimmed document; the written text reads back as the loaded document; after initialising, `-o` and `-r` print the trimmed lines; interactive mode prints no document lines |
| `Ponydocs.RunWritesLoaded` | src/se/kth/maandree/ponydocs/Program.java:164-175 | the file a run writes reads back as exactly the document the run loaded |
| `Ponydocs.RunPrintsPlainText` | src/se/kth/maandree/ponydocs/Program.java:164-203 | after a run initialises a plain file, `-o` and `-r` both print the file's trimmed lines exactly |
| `Ponydocs.RunAgain` | src/se/kth/maandree/ponydocs/Program.java:164-175 | a second run on the written file writes nothing and prints, in every mode, what a run on the first file prints |
| `Ponydocs.TwoLineExample` | src/se/kth/maandree/ponydocs/Program.java:164-203 | the file `Hello` / `.World` is rewritten with `..World` in both sections, and both dumps print `Hello` / `.World` |

## Left out

- Argument parsing, help text, the terminal-size check and exit codes
  (lines 50-144) are process plumbing. The run mode is a parameter
  (`Ponydocs.Mode`).
- The file-system checks and the open/read/write calls (lines 128-138,
  146-156, 225, 230) are I/O. The model takes the file's text as input
  and returns the text written.
- The UTF-8 byte encoding of `save` (line 227) is left out. Lines are
  character sequences, not bytes.
- The stdin loop of interactive mode (lines 208-211) only echoes byte
  values to standard output. It is left out; the model only records
  that interactive mode prints no document lines.
- The line separator `println` writes after each printed line is left
  out, because it depends on the platform. The model records the printed
  lines.
- Document.Load: a file with no non-empty line (empty, or only
  newlines) loads as the five-line document `[Header, "", ".", "", "."]`,
  where lines 158-162 throw on `get(-1)`; the model uses the corrected
  trimming of "## Findings".
- Ponydocs.Run: for a file with no non-empty line, a run writes the
  five-line document and prints one empty line in `-o` and `-r` mode,
  where the program throws at line 161 before line 174 saves anything.
- Lines.ReadLines: treats only `\n` as a line terminator. `Scanner.nextLine`
  also ends a line at `\r\n`, `\r`, U+2028, U+2029 and U+0085.
- The terminal input decoder, edit commands, kill ring, undo, bookmarks,
  formatting, ESC-byte doubling and long-line wrapping have no code in
  `Program.java` and are not modelled.

## Findings

| source | as written | input that shows it | evidently intended | confidence | as-written member | corrected member |
|---|---|---|---|---|---|---|
| src/se/kth/maandree/ponydocs/Program.java:158-162 | the loop removes trailing empty lines, including the empty line that line 159 adds to an empty list; when no line is non-empty the list runs empty and line 161 reads index -1, which throws | an empty file, or a file holding only `\n\n` | the document keeps one empty line, as the non-empty guard at line 158 suggests | medium; not executed | `Document.Trim`, `Document.BlankFileFailsTrim` | `Document.TrimOrBlank` |

`Document.Load`, and everything built on it, uses the corrected
`Document.TrimOrBlank`.
