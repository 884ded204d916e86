/**
 * FileUtils.loadPathsFromFile: read a manifest file line by line and keep the trimmed
 * form of every line that is not blank, in file order. The file system is a map from
 * the paths that can be opened for reading to their (decoded) text.
 */
module FileUtils {
  import opened Wrappers
  import opened JavaText
  import opened JavaIo

  /** The FileNotFoundException thrown when the file cannot be opened. */
  datatype IoError = FileNotFound(path: string)

  /** The entries that lines yield: each line trimmed, lines that trim to "" dropped. */
  function Entries(lines: seq<string>): (entries: seq<string>)
    ensures |entries| <= |lines|
  {
    if lines == [] then []
    else
      var last := Trim(lines[|lines| - 1]);
      Entries(lines[..|lines| - 1]) + (if last == [] then [] else [last])
  }

  /** The entries of a whole manifest text. */
  function ManifestPaths(text: string): seq<string>
  {
    Entries(Lines(text))
  }

  /** Reading the file: FileNotFound when it cannot be opened, otherwise its entries. */
  function ReadManifest(files: map<string, string>, path: string): Result<seq<string>, IoError>
  {
    if path in files then Ok(ManifestPaths(files[path])) else Err(FileNotFound(path))
  }

  /** loadPathsFromFile, with its read loop over a LineReader. */
  method LoadPathsFromFile(files: map<string, string>, path: string)
    returns (r: Result<seq<string>, IoError>)
    ensures r == ReadManifest(files, path)
  {
    if path !in files {
      return Err(FileNotFound(path));
    }
    var text := files[path];
    var reader := new LineReader(text);
    var paths: seq<string> := [];
    ghost var consumed: seq<string> := [];
    ghost var unread := reader.Remaining();
    var line := reader.ReadLine();
    while line.Some?
      invariant reader.Valid() && reader.text == text
      invariant Lines(text) == consumed + Lines(unread)
      invariant line.None? <==> unread == []
      invariant line.Some? ==> Lines(unread) == [line.value] + Lines(reader.Remaining())
      invariant line.Some? ==> |reader.Remaining()| < |unread|
      invariant paths == Entries(consumed)
      decreases |unread|
    {
      if Trim(line.value) != "" {
        paths := paths + [Trim(line.value)];
      }
      Regroup(consumed, line.value, Lines(reader.Remaining()));
      consumed := consumed + [line.value];
      unread := reader.Remaining();
      line := reader.ReadLine();
    }
    assert unread == [];
    assert Lines(unread) == [];
    assert consumed + [] == consumed;
    assert Lines(text) == consumed;
    return Ok(paths);
  }

  lemma Regroup<T>(a: seq<T>, x: T, b: seq<T>)
    ensures a + ([x] + b) == (a + [x]) + b
  {
  }

  // ----------------------------------------------------------------- properties

  /** Every entry is non-empty and equal to its own trim. */
  lemma {:induction false} EntriesAreTrimmed(lines: seq<string>)
    ensures forall k :: 0 <= k < |Entries(lines)| ==> |Entries(lines)[k]| > 0 && Trim(Entries(lines)[k]) == Entries(lines)[k]
  {
    if lines != [] {
      var init := lines[..|lines| - 1];
      EntriesAreTrimmed(init);
      var last := Trim(lines[|lines| - 1]);
      TrimIdempotent(lines[|lines| - 1]);
      assert Entries(lines) == Entries(init) + (if last == [] then [] else [last]);
    }
  }

  /** The entries of two runs of lines are the entries of each, one after the other. */
  lemma {:induction false} EntriesAppend(a: seq<string>, b: seq<string>)
    ensures Entries(a + b) == Entries(a) + Entries(b)
  {
    if b != [] {
      var last := b[|b| - 1];
      assert (a + b)[..|a + b| - 1] == a + b[..|b| - 1];
      EntriesAppend(a, b[..|b| - 1]);
    } else {
      assert a + b == a;
    }
  }

  /** A blank line, anywhere in the file, contributes nothing. */
  lemma BlankLineContributesNothing(a: seq<string>, line: string, b: seq<string>)
    requires AllTrimmable(line)
    ensures Entries(a + [line] + b) == Entries(a + b)
  {
    TrimEmptyIff(line);
    assert (a + [line])[..|a|] == a;
    assert Entries(a + [line]) == Entries(a);
    EntriesAppend(a + [line], b);
    EntriesAppend(a, b);
  }

  /** Entries of lines that are already trimmed and non-blank are the lines themselves. */
  lemma {:induction false} EntriesOfTrimmed(lines: seq<string>)
    requires forall i :: 0 <= i < |lines| ==> |lines[i]| > 0 && IsTrimmed(lines[i])
    ensures Entries(lines) == lines
  {
    if lines != [] {
      var init := lines[..|lines| - 1];
      EntriesOfTrimmed(init);
      TrimOfTrimmed(lines[|lines| - 1]);
      assert init + [lines[|lines| - 1]] == lines;
    }
  }

  /** The indices of the lines that yield an entry, in file order. */
  function Kept(lines: seq<string>): (idx: seq<nat>)
    ensures forall k :: 0 <= k < |idx| ==> idx[k] < |lines|
  {
    if lines == [] then []
    else
      var n := |lines| - 1;
      Kept(lines[..n]) + (if Trim(lines[n]) == [] then [] else [n])
  }

  lemma {:induction false} KeptMatchesEntries(lines: seq<string>)
    ensures |Kept(lines)| == |Entries(lines)|
    ensures forall k :: 0 <= k < |Kept(lines)| ==> Entries(lines)[k] == Trim(lines[Kept(lines)[k]])
  {
    if lines != [] {
      var n := |lines| - 1;
      var init := lines[..n];
      KeptMatchesEntries(init);
      var before, prev := Entries(init), Kept(init);
      var entries, idx := Entries(lines), Kept(lines);
      forall k | 0 <= k < |idx|
        ensures entries[k] == Trim(lines[idx[k]])
      {
        if k < |prev| {
          assert entries[k] == before[k] && idx[k] == prev[k];
          assert init[prev[k]] == lines[prev[k]];
        }
      }
    }
  }

  lemma {:induction false} KeptIncreasing(lines: seq<string>)
    ensures forall k, m :: 0 <= k < m < |Kept(lines)| ==> Kept(lines)[k] < Kept(lines)[m]
  {
    if lines != [] {
      KeptIncreasing(lines[..|lines| - 1]);
    }
  }

  lemma {:induction false} KeptComplete(lines: seq<string>)
    ensures forall j :: 0 <= j < |lines| && |Trim(lines[j])| > 0 ==> j in Kept(lines)
  {
    if lines != [] {
      var n := |lines| - 1;
      var init := lines[..n];
      KeptComplete(init);
      var prev, idx := Kept(init), Kept(lines);
      var extra: seq<nat> := if Trim(lines[n]) == [] then [] else [n];
      assert idx == prev + extra;
      forall j | 0 <= j < |lines| && |Trim(lines[j])| > 0
        ensures j in idx
      {
        if j < n {
          assert init[j] == lines[j];
          assert j in prev;
        } else {
          assert j in extra;
        }
      }
    }
  }

  /**
   * The entries are exactly the trimmed non-blank lines in file order: there is a strictly
   * increasing choice of line indices `idx`, entry k is the trim of line idx[k], and every
   * line whose trim is not empty is chosen. So no line is reordered, duplicated or lost.
   */
  lemma EntriesInFileOrder(lines: seq<string>) returns (idx: seq<nat>)
    ensures |idx| == |Entries(lines)|
    ensures forall k :: 0 <= k < |idx| ==> idx[k] < |lines| && Entries(lines)[k] == Trim(lines[idx[k]])
    ensures forall k, m :: 0 <= k < m < |idx| ==> idx[k] < idx[m]
    ensures forall j :: 0 <= j < |lines| && |Trim(lines[j])| > 0 ==> j in idx
  {
    idx := Kept(lines);
    KeptMatchesEntries(lines);
    KeptIncreasing(lines);
    KeptComplete(lines);
  }

  /**
   * Writing entries one per line (each with any of the three terminators, the last line
   * terminated or not) and loading the file gives back exactly those entries.
   */
  lemma ManifestRoundTrip(entries: seq<string>, ends: seq<Terminator>, last: string)
    requires |ends| == |entries|
    requires forall i :: 0 <= i < |entries| ==> |entries[i]| > 0 && IsTrimmed(entries[i]) && NoTerminator(entries[i])
    requires last == [] || (IsTrimmed(last) && NoTerminator(last))
    ensures ManifestPaths(Join(entries, ends) + last) == entries + (if last == [] then [] else [last])
  {
    assert NoLoneCrBeforeEmptyLf(entries, ends);
    LinesOfJoin(entries, ends, last);
    EntriesOfTrimmed(entries + (if last == [] then [] else [last]));
  }
}
