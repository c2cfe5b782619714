/** Text files as sequences of lines: what `file.write(line + "\n")` in a loop writes,
    and what `for line in file` reads back. */
module Lines {
  import opened Text

  /** A file written: its path and its content. */
  datatype TextFile = TextFile(path: string, content: string)

  /** `file.write(line + "\n")` for every line, in order. */
  function Unlines(lines: seq<string>): string
  {
    if |lines| == 0 then "" else lines[0] + "\n" + Unlines(lines[1..])
  }

  lemma {:induction false} UnlinesSnoc(lines: seq<string>, l: string)
    ensures Unlines(lines + [l]) == Unlines(lines) + l + "\n"
  {
    if |lines| == 0 {
      assert lines + [l] == [l];
    } else {
      assert (lines + [l])[1..] == lines[1..] + [l];
      UnlinesSnoc(lines[1..], l);
    }
  }

  /** The write loop: each line followed by a line break, in order. */
  method WriteLines(lines: seq<string>) returns (content: string)
    ensures content == Unlines(lines)
  {
    content := "";
    for i := 0 to |lines|
      invariant content == Unlines(lines[..i])
    {
      assert lines[..i + 1] == lines[..i] + [lines[i]];
      UnlinesSnoc(lines[..i], lines[i]);
      content := content + lines[i] + "\n";
    }
    assert lines[..|lines|] == lines;
  }

  /** Splitting the file at its line breaks gives its lines back, and an empty last part. */
  lemma {:induction false} UnlinesSplit(lines: seq<string>)
    requires forall l :: l in lines ==> '\n' !in l
    ensures Split(Unlines(lines), '\n') == lines + [""]
  {
    if |lines| > 0 {
      assert forall l :: l in lines[1..] ==> l in lines;
      UnlinesSplit(lines[1..]);
      assert lines[0] in lines;
      SplitAfter(lines[0], '\n', Unlines(lines[1..]));
      assert lines[0] + "\n" + Unlines(lines[1..]) == lines[0] + ['\n'] + Unlines(lines[1..]);
      assert lines == [lines[0]] + lines[1..];
    } else {
      assert Unlines(lines) == "";
    }
  }

  /** `for line in file`, the line breaks left off: the pieces between line breaks,
      without the empty piece after a final line break (an empty file has no lines). */
  function FileLines(content: string): (lines: seq<string>)
    ensures forall l :: l in lines ==> '\n' !in l
  {
    var parts := Split(content, '\n');
    if parts[|parts| - 1] == "" then parts[..|parts| - 1] else parts
  }

  /** Reading back a file written line by line gives its lines. */
  lemma FileLinesUnlines(lines: seq<string>)
    requires forall l :: l in lines ==> '\n' !in l
    ensures FileLines(Unlines(lines)) == lines
  {
    UnlinesSplit(lines);
    assert (lines + [""])[..|lines|] == lines;
  }
}
