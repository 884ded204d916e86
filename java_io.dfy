/**
 * The line splitting of java.io.BufferedReader.readLine: a line ends at '\n', at '\r',
 * or at "\r\n"; the terminator is not part of the line, and a last line without a
 * terminator is still a line. `Lines` states what a whole read yields; `LineReader`
 * is the reader itself, consuming its text one line per call.
 */
module JavaIo {
  import opened Wrappers

  predicate IsLineTerminator(c: char) {
    c == '\n' || c == '\r'
  }

  predicate NoTerminator(s: string) {
    forall k :: 0 <= k < |s| ==> !IsLineTerminator(s[k])
  }

  /** The terminators readLine accepts. */
  datatype Terminator = LF | CR | CRLF

  /** Every terminator is one line-terminator character, or "\r\n"; it starts with '\n' only for LF. */
  function TerminatorText(t: Terminator): (text: string)
    ensures 1 <= |text| <= 2 && IsLineTerminator(text[0])
    ensures text[0] == '\n' <==> t == LF
  {
    match t
    case LF => "\n"
    case CR => "\r"
    case CRLF => "\r\n"
  }

  /** Length of the first line of `s`: the index of its first terminator, or |s|. */
  function LineLength(s: string): (n: nat)
    ensures n <= |s| && NoTerminator(s[..n])
    ensures n == |s| || IsLineTerminator(s[n])
  {
    if s == [] || IsLineTerminator(s[0]) then 0
    else
      var n := 1 + LineLength(s[1..]);
      assert s[..n] == [s[0]] + s[1..][..n - 1];
      n
  }

  /** How many characters the terminator at index `n` occupies (none at the end). */
  function TerminatorLength(s: string, n: nat): (t: nat)
    requires n <= |s|
    ensures n + t <= |s|
  {
    if n == |s| then 0
    else if s[n] == '\r' && n + 1 < |s| && s[n + 1] == '\n' then 2
    else 1
  }

  /** The successive results of readLine on `s` until it returns null. */
  function Lines(s: string): (lines: seq<string>)
    decreases |s|
  {
    if s == [] then []
    else
      var n := LineLength(s);
      [s[..n]] + Lines(s[n + TerminatorLength(s, n)..])
  }

  /** No line contains a terminator, and there are at most as many lines as characters. */
  lemma {:induction false} LinesShape(s: string)
    ensures forall i :: 0 <= i < |Lines(s)| ==> NoTerminator(Lines(s)[i])
    ensures |Lines(s)| <= |s|
    decreases |s|
  {
    if s != [] {
      var n := LineLength(s);
      var rest := s[n + TerminatorLength(s, n)..];
      LinesShape(rest);
      assert Lines(s) == [s[..n]] + Lines(rest);
    }
  }

  /**
   * A lone '\r' followed by an empty line ended by '\n' would be read as one "\r\n"
   * terminator; every other choice of terminators reads back line by line.
   */
  predicate NoLoneCrBeforeEmptyLf(lines: seq<string>, ends: seq<Terminator>)
    requires |ends| == |lines|
  {
    forall i :: 0 < i < |lines| && lines[i] == [] && ends[i] == LF ==> ends[i - 1] != CR
  }

  /** The text of `lines`, line i followed by `ends[i]`: what a writer of the file produces. */
  function Join(lines: seq<string>, ends: seq<Terminator>): string
    requires |ends| == |lines|
  {
    if lines == [] then [] else lines[0] + TerminatorText(ends[0]) + Join(lines[1..], ends[1..])
  }

  lemma {:induction false} LineLengthOfPrefixed(line: string, rest: string)
    requires NoTerminator(line)
    requires rest == [] || IsLineTerminator(rest[0])
    ensures LineLength(line + rest) == |line|
  {
    if line == [] {
      assert line + rest == rest;
    } else {
      assert (line + rest)[1..] == line[1..] + rest;
      LineLengthOfPrefixed(line[1..], rest);
    }
  }

  /** One written line followed by its terminator reads back as that line. */
  lemma LinesOfCons(line: string, end: Terminator, rest: string)
    requires NoTerminator(line)
    requires end == CR && rest != [] ==> rest[0] != '\n'
    ensures Lines(line + TerminatorText(end) + rest) == [line] + Lines(rest)
  {
    var sep := TerminatorText(end);
    var s := line + sep + rest;
    assert s == line + (sep + rest);
    LineLengthOfPrefixed(line, sep + rest);
    assert s[..|line|] == line;
    assert TerminatorLength(s, |line|) == |sep|;
    assert s[|line| + |sep|..] == rest;
  }

  lemma ConsAppend<T>(s: seq<T>, t: seq<T>)
    requires s != []
    ensures [s[0]] + (s[1..] + t) == s + t
  {
    assert s == [s[0]] + s[1..];
  }

  /** A text without any terminator is a single line, or no line when empty. */
  lemma LinesOfUnterminated(tail: string)
    requires NoTerminator(tail)
    ensures Lines(tail) == if tail == [] then [] else [tail]
  {
    if tail != [] {
      LineLengthOfPrefixed(tail, []);
      assert tail + [] == tail;
      assert tail[|tail|..] == [];
    }
  }

  /** A joined text starts with '\n' only when its first line is empty and ends with LF. */
  lemma JoinStart(lines: seq<string>, ends: seq<Terminator>, tail: string)
    requires |ends| == |lines|
    requires forall i :: 0 <= i < |lines| ==> NoTerminator(lines[i])
    requires lines != [] ==> !(lines[0] == [] && ends[0] == LF)
    requires NoTerminator(tail)
    ensures Join(lines, ends) + tail == [] || (Join(lines, ends) + tail)[0] != '\n'
  {
    if lines != [] {
      var t := TerminatorText(ends[0]);
      var j := Join(lines, ends);
      assert j == lines[0] + t + Join(lines[1..], ends[1..]);
      if lines[0] != [] {
        assert j[0] == lines[0][0];
        assert NoTerminator(lines[0]);
      } else {
        assert j[0] == t[0];
      }
      assert (j + tail)[0] == j[0];
    }
  }

  /**
   * Reading back a written file: lines each followed by its own terminator, plus an
   * optional unterminated last line, read back as exactly those lines.
   */
  lemma {:induction false} LinesOfJoin(lines: seq<string>, ends: seq<Terminator>, tail: string)
    requires |ends| == |lines|
    requires NoLoneCrBeforeEmptyLf(lines, ends)
    requires forall i :: 0 <= i < |lines| ==> NoTerminator(lines[i])
    requires NoTerminator(tail)
    ensures Lines(Join(lines, ends) + tail) == lines + (if tail == [] then [] else [tail])
  {
    if lines == [] {
      assert Join(lines, ends) + tail == tail;
      LinesOfUnterminated(tail);
    } else {
      var last := if tail == [] then [] else [tail];
      var rest := Join(lines[1..], ends[1..]) + tail;
      var text := Join(lines, ends) + tail;
      assert text == lines[0] + TerminatorText(ends[0]) + rest;
      assert NoLoneCrBeforeEmptyLf(lines[1..], ends[1..]) by {
        forall i | 0 < i < |lines[1..]| && lines[1..][i] == [] && ends[1..][i] == LF
          ensures ends[1..][i - 1] != CR
        {
          assert lines[1..][i] == lines[i + 1] && ends[1..][i] == ends[i + 1];
        }
      }
      if ends[0] == CR {
        if |lines| > 1 {
          assert lines[1] == lines[1..][0] && ends[1] == ends[1..][0];
        }
        JoinStart(lines[1..], ends[1..], tail);
      }
      LinesOfCons(lines[0], ends[0], rest);
      assert Lines(text) == [lines[0]] + Lines(rest);
      LinesOfJoin(lines[1..], ends[1..], tail);
      assert Lines(text) == [lines[0]] + (lines[1..] + last);
      ConsAppend(lines, last);
    }
  }

  /** Terminators may be mixed within one file. */
  lemma MixedTerminators()
    ensures Lines(Join(["a", "b", "c"], [CRLF, LF, CR]) + "d") == ["a", "b", "c", "d"]
  {
    var lines: seq<string> := ["a", "b", "c"];
    assert NoLoneCrBeforeEmptyLf(lines, [CRLF, LF, CR]) by {
      forall i | 0 < i < |lines| ensures lines[i] != [] {}
    }
    LinesOfJoin(lines, [CRLF, LF, CR], "d");
    assert lines + ["d"] == ["a", "b", "c", "d"];
  }

  /**
   * The one choice that does not read back: a lone '\r' followed by an empty line ended
   * by '\n' is the text "\r\n", which readLine takes as a single terminator.
   */
  lemma LoneCrBeforeEmptyLfMerges()
    ensures Join(["a", ""], [CR, LF]) == "a\r\n"
    ensures Lines("a\r\n") == ["a"]
  {
    var text: string := "a\r\n";
    LineLengthOfPrefixed("a", "\r\n");
    assert "a" + "\r\n" == text;
    assert TerminatorLength(text, 1) == 2;
    assert text[1 + 2..] == [];
  }

  /** The first line of `text[pos..]` runs up to the first terminator at or after `pos`. */
  lemma LineLengthAt(text: string, pos: nat, end: nat)
    requires pos <= end <= |text|
    requires forall k :: pos <= k < end ==> !IsLineTerminator(text[k])
    requires end == |text| || IsLineTerminator(text[end])
    ensures LineLength(text[pos..]) == end - pos
  {
    var rest := text[pos..];
    assert rest == text[pos..end] + text[end..];
    LineLengthOfPrefixed(text[pos..end], text[end..]);
  }

  /**
   * Reading the line of `text[pos..]` that ends at `end`, and then its terminator, leaves
   * `text[next..]`, whose lines are the remaining ones.
   */
  lemma LinesAt(text: string, pos: nat, end: nat, next: nat)
    requires pos < |text| && pos <= end <= |text|
    requires forall k :: pos <= k < end ==> !IsLineTerminator(text[k])
    requires end == |text| || IsLineTerminator(text[end])
    requires next == if end == |text| then end
      else if text[end] == '\r' && end + 1 < |text| && text[end + 1] == '\n' then end + 2
      else end + 1
    ensures next <= |text|
    ensures Lines(text[pos..]) == [text[pos..end]] + Lines(text[next..])
  {
    var rest := text[pos..];
    var n := end - pos;
    LineLengthAt(text, pos, end);
    assert rest[..n] == text[pos..end];
    assert n + TerminatorLength(rest, n) == next - pos;
    assert rest[next - pos..] == text[next..];
  }

  /** A BufferedReader over a text already decoded to characters. */
  class LineReader {
    const text: string
    var pos: nat

    ghost predicate Valid()
      reads this
    {
      pos <= |text|
    }

    /** The part of the text not yet read. */
    ghost function Remaining(): string
      reads this
      requires Valid()
    {
      text[pos..]
    }

    constructor (text: string)
      ensures Valid() && this.text == text && Remaining() == text
    {
      this.text := text;
      pos := 0;
    }

    /** readLine: the next line, or None (null) once the text is exhausted. */
    method ReadLine() returns (line: Option<string>)
      requires Valid()
      modifies this
      ensures Valid()
      ensures line.None? <==> old(Remaining()) == []
      ensures line.None? ==> Remaining() == []
      ensures line.Some? ==>
        Lines(old(Remaining())) == [line.value] + Lines(Remaining())
        && |Remaining()| < |old(Remaining())|
    {
      if pos == |text| {
        return None;
      }
      ghost var rest := text[pos..];
      ghost var start := pos;
      var end := pos;
      while end < |text| && text[end] != '\n' && text[end] != '\r'
        invariant pos <= end <= |text|
        invariant forall k :: pos <= k < end ==> !IsLineTerminator(text[k])
      {
        end := end + 1;
      }
      line := Some(text[pos..end]);
      if end == |text| {
        pos := end;
      } else if text[end] == '\r' && end + 1 < |text| && text[end + 1] == '\n' {
        pos := end + 2;
      } else {
        pos := end + 1;
      }
      LinesAt(text, start, end, pos);
    }
  }
}
