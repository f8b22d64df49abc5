/** The text of an ffmpeg concat-demuxer manifest: one `file '<path>'` line per entry.
    The two writers of the program render it in two ways: lines joined by "\n" with no
    final newline (`ConcatFile::file_content`), and every line ended by "\n"
    (`write_concat_text_file`). The parsers here read either form back. */
module Manifest {
  import opened Common
  import Files

  const Prefix: string := "file '"
  const Suffix: string := "'"

  /** The parse of one manifest line: the text between the prefix and the final quote. */
  function ParseLine(line: string): Option<string> {
    if |line| >= |Prefix| + |Suffix| && line[..|Prefix|] == Prefix && line[|line| - 1] == '\''
    then Some(line[|Prefix|..|line| - 1])
    else None
  }

  /** One manifest line; the entry is embedded verbatim, quotes and all. */
  function Line(entry: string): string {
    Prefix + entry + Suffix
  }

  /** A line parses back to exactly its entry, and has no newline if the entry has none. */
  lemma LineRoundTrip(entry: string)
    ensures ParseLine(Line(entry)) == Some(entry)
    ensures '\n' !in entry ==> '\n' !in Line(entry)
  {
    var line := Line(entry);
    assert line[..|Prefix|] == Prefix;
    assert line[|Prefix|..|line| - 1] == entry;
  }

  function Lines(entries: seq<string>): (lines: seq<string>)
    ensures |lines| == |entries|
    ensures forall i :: 0 <= i < |entries| ==> lines[i] == Line(entries[i])
  {
    seq(|entries|, i requires 0 <= i < |entries| => Line(entries[i]))
  }

  /** `join("\n")`. */
  function Join(lines: seq<string>): string
    decreases |lines|
  {
    if lines == [] then ""
    else if |lines| == 1 then lines[0]
    else lines[0] + "\n" + Join(lines[1..])
  }

  /** The text `ConcatFile::file_content` builds from the entries. */
  function FileContent(entries: seq<string>): (text: string)
    ensures text == "" <==> entries == []
  {
    var text := Join(Lines(entries));
    assert entries != [] ==> |text| >= |Line(entries[0])| > 0;
    text
  }

  /** The lines `write_concat_text_file` writes, one `write_all` each. */
  function TerminatedLines(sources: seq<string>): (chunks: seq<string>)
    ensures |chunks| == |sources|
    ensures forall i :: 0 <= i < |sources| ==> chunks[i] == Line(sources[i]) + "\n"
  {
    seq(|sources|, i requires 0 <= i < |sources| => Line(sources[i]) + "\n")
  }

  /** The whole text `write_concat_text_file` leaves in the file. */
  function ConcatText(sources: seq<string>): string {
    Files.Concat(TerminatedLines(sources))
  }

  /** The index of the first '\n', if any. */
  function FirstNewline(text: string): (r: Option<nat>)
    ensures r.Some? ==> r.value < |text| && text[r.value] == '\n'
    ensures forall i :: 0 <= i < (if r.Some? then r.value else |text|) ==> text[i] != '\n'
    decreases |text|
  {
    if text == [] then None
    else if text[0] == '\n' then Some(0)
    else match FirstNewline(text[1..])
      case None => None
      case Some(i) => Some(i + 1)
  }

  /** `split('\n')`: the pieces between newlines; an empty text is one empty piece. */
  function Split(text: string): seq<string>
    decreases |text|
  {
    match FirstNewline(text)
    case None => [text]
    case Some(i) => [text[..i]] + Split(text[i + 1..])
  }

  function ParseAll(lines: seq<string>): Option<seq<string>>
    decreases |lines|
  {
    if lines == [] then Some([])
    else match (ParseLine(lines[0]), ParseAll(lines[1..]))
      case (Some(e), Some(rest)) => Some([e] + rest)
      case _ => None
  }

  /** Reads the joined form back into entries. */
  function ParseJoined(text: string): Option<seq<string>> {
    if text == "" then Some([]) else ParseAll(Split(text))
  }

  /** Reads the newline-terminated form back into entries. */
  function ParseTerminated(text: string): Option<seq<string>> {
    if text == "" then Some([])
    else if text[|text| - 1] == '\n' && |text| > 1 then ParseJoined(text[..|text| - 1])
    else None
  }

  predicate NoNewlines(entries: seq<string>) {
    forall i :: 0 <= i < |entries| ==> '\n' !in entries[i]
  }

  lemma FirstNewlineOfJoin(a: string, b: string)
    requires '\n' !in a
    ensures FirstNewline(a + "\n" + b) == Some(|a|)
  {
    var t := a + "\n" + b;
    assert t[|a|] == '\n';
    assert forall i :: 0 <= i < |a| ==> t[i] == a[i];
  }

  lemma {:induction false} SplitJoin(lines: seq<string>)
    requires lines != []
    requires forall i :: 0 <= i < |lines| ==> '\n' !in lines[i]
    ensures Split(Join(lines)) == lines
    decreases |lines|
  {
    if |lines| > 1 {
      var head := lines[0];
      var tail := lines[1..];
      var rest := Join(tail);
      var t := head + "\n" + rest;
      assert Join(lines) == t;
      FirstNewlineOfJoin(head, rest);
      assert t[..|head|] == head;
      assert t[|head| + 1..] == rest;
      assert forall i :: 0 <= i < |tail| ==> '\n' !in tail[i] by {
        forall i | 0 <= i < |tail| ensures '\n' !in tail[i] {
          assert tail[i] == lines[i + 1];
        }
      }
      SplitJoin(tail);
      assert lines == [head] + tail;
    }
  }

  lemma {:induction false} ParseAllLines(entries: seq<string>)
    ensures ParseAll(Lines(entries)) == Some(entries)
    decreases |entries|
  {
    if entries != [] {
      assert Lines(entries)[1..] == Lines(entries[1..]);
      ParseAllLines(entries[1..]);
      assert entries == [entries[0]] + entries[1..];
    }
  }

  /** `file_content` loses nothing: entries without newlines are read back exactly, in
      order, one per line. */
  lemma FileContentRoundTrip(entries: seq<string>)
    requires NoNewlines(entries)
    ensures ParseJoined(FileContent(entries)) == Some(entries)
  {
    if entries != [] {
      SplitJoin(Lines(entries));
      ParseAllLines(entries);
    }
  }

  /** The newline-terminated text is the joined text with one more "\n" at the end, and
      empty for no sources: so every line, the last included, ends with "\n". */
  lemma {:induction false} ConcatTextIsTerminatedFileContent(sources: seq<string>)
    ensures ConcatText(sources) == if sources == [] then "" else FileContent(sources) + "\n"
    decreases |sources|
  {
    if |sources| == 1 {
      assert TerminatedLines(sources)[1..] == [];
      assert Files.Concat([]) == "";
      assert ConcatText(sources) == Line(sources[0]) + "\n" + "";
      assert FileContent(sources) == Line(sources[0]);
    } else if |sources| > 1 {
      assert TerminatedLines(sources)[1..] == TerminatedLines(sources[1..]);
      ConcatTextIsTerminatedFileContent(sources[1..]);
      assert Lines(sources)[1..] == Lines(sources[1..]);
    }
  }

  /** `write_concat_text_file` loses nothing either. */
  lemma ConcatTextRoundTrip(sources: seq<string>)
    requires NoNewlines(sources)
    ensures ParseTerminated(ConcatText(sources)) == Some(sources)
  {
    ConcatTextIsTerminatedFileContent(sources);
    if sources != [] {
      var text := FileContent(sources) + "\n";
      assert text[..|text| - 1] == FileContent(sources);
      FileContentRoundTrip(sources);
    }
  }
}
