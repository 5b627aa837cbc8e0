/** The splitting of one changed file's report blocks into numbered part files
    `<stem>_part1.txt`, `<stem>_part2.txt`, ... (`write_commit_info_to_files`,
    docugit.py:76-120). Every block is split on '\n' and its lines are streamed in
    order; a new part is opened only when the current one already holds at least
    `SplitThreshold` lines and the incoming line, once stripped, contains "def ".
    Instead of writing files, the model returns each part's lines and whether the
    separator was written after them. */
module Chunker {
  import opened PyStr

  /** A part is never split before it holds this many lines. */
  const SplitThreshold: nat := 2000

  /** The text that opens a function definition in the diffed Python code. */
  const FunctionMarker: string := "def "

  /** Written after every closed part, and after the final part when it is non-empty. */
  const Separator: string := "\n\n-------------------\n\n"

  /** One part file: its number in the file name, its lines, and whether the separator follows them. */
  datatype Part = Part(index: nat, lines: seq<string>, separated: bool)

  /** The split test on an incoming line: its stripped form contains "def ". */
  predicate OpensFunction(line: string)
  {
    Contains(Strip(line), FunctionMarker)
  }

  /** Whether the incoming `line` closes a part that already holds `count` lines, for
      the split test `opens` (the tool's test is `OpensFunction`). */
  predicate SplitsBefore(opens: string -> bool, count: nat, line: string)
  {
    count >= SplitThreshold && opens(line)
  }

  /** The lines streamed out of the blocks: each block split on '\n', blocks in order. */
  function StreamLines(blocks: seq<string>): seq<string>
  {
    if blocks == [] then [] else Split(blocks[0], '\n') + StreamLines(blocks[1..])
  }

  /** The streaming loop as a fold: `closed` are the parts already closed, `current`
      the lines of the open part, `rest` the lines still to come. */
  function Feed(opens: string -> bool, closed: seq<Part>, current: seq<string>, rest: seq<string>): seq<Part>
    decreases |rest|
  {
    if rest == [] then
      closed + [Part(|closed| + 1, current, |current| > 0)]
    else if SplitsBefore(opens, |current|, rest[0]) then
      Feed(opens, closed + [Part(|closed| + 1, current, true)], [rest[0]], rest[1..])
    else
      Feed(opens, closed, current + [rest[0]], rest[1..])
  }

  /** The parts written for one file's blocks. */
  function Chunk(blocks: seq<string>): seq<Part>
  {
    Feed(OpensFunction, [], [], StreamLines(blocks))
  }

  /** All lines of the parts, in part order, separators left aside. */
  function AllLines(ps: seq<Part>): seq<string>
  {
    if ps == [] then [] else ps[0].lines + AllLines(ps[1..])
  }

  // ---------------------------------------------------------------------------
  // What a chunking is, independently of how the loop computes it.

  /** Parts are numbered `first`, `first + 1`, ... without gaps. */
  ghost predicate NumberedFrom(first: nat, ps: seq<Part>)
  {
    forall i :: 0 <= i < |ps| ==> ps[i].index == first + i
  }

  /** Every part but the last was closed: it holds at least `SplitThreshold` lines and the separator follows. */
  ghost predicate ClosedAreFull(ps: seq<Part>)
  {
    forall i :: 0 <= i < |ps| - 1 ==> ps[i].separated && |ps[i].lines| >= SplitThreshold
  }

  /** Every part but the first starts with a line that passes the split test. */
  ghost predicate LaterOpenAtFunction(opens: string -> bool, ps: seq<Part>)
  {
    forall i :: 0 < i < |ps| ==> ps[i].lines != [] && opens(ps[i].lines[0])
  }

  /** No line at position `SplitThreshold` or later in a part passes the split test. */
  ghost predicate NoLateFunction(opens: string -> bool, lines: seq<string>)
  {
    forall k :: SplitThreshold <= k < |lines| ==> !opens(lines[k])
  }

  ghost predicate NoMissedSplit(opens: string -> bool, ps: seq<Part>)
  {
    forall i :: 0 <= i < |ps| ==> NoLateFunction(opens, ps[i].lines)
  }

  /** There is a final part, and it carries the separator exactly when it holds a line. */
  ghost predicate FinalFramed(ps: seq<Part>)
  {
    |ps| > 0 && (ps[|ps| - 1].separated <==> ps[|ps| - 1].lines != [])
  }

  /** `ps`, numbered from `first`, cuts `lines` by the part-splitting rule. */
  ghost predicate ChunkingFrom(opens: string -> bool, first: nat, lines: seq<string>, ps: seq<Part>)
  {
    && FinalFramed(ps)
    && NumberedFrom(first, ps)
    && ClosedAreFull(ps)
    && LaterOpenAtFunction(opens, ps)
    && NoMissedSplit(opens, ps)
    && AllLines(ps) == lines
  }

  /** A chunking of `lines` whose parts are numbered from 1. */
  ghost predicate IsChunking(opens: string -> bool, lines: seq<string>, ps: seq<Part>)
  {
    ChunkingFrom(opens, 1, lines, ps)
  }

  // ---------------------------------------------------------------------------
  // The fold computes a chunking.

  /** The state of the loop between two lines: the closed parts are final, and the
      open part obeys the rules a part must obey. */
  ghost predicate Streaming(opens: string -> bool, closed: seq<Part>, current: seq<string>)
  {
    && NumberedFrom(1, closed)
    && (forall i :: 0 <= i < |closed| ==> closed[i].separated && |closed[i].lines| >= SplitThreshold)
    && LaterOpenAtFunction(opens, closed)
    && NoMissedSplit(opens, closed)
    && (|closed| > 0 ==> current != [] && opens(current[0]))
    && NoLateFunction(opens, current)
  }

  lemma {:induction false} AllLinesAppend(ps: seq<Part>, qs: seq<Part>)
    ensures AllLines(ps + qs) == AllLines(ps) + AllLines(qs)
  {
    if ps != [] {
      assert (ps + qs)[1..] == ps[1..] + qs;
      AllLinesAppend(ps[1..], qs);
    } else {
      assert ps + qs == qs;
    }
  }

  lemma AllLinesSingle(p: Part)
    ensures AllLines([p]) == p.lines
  {
    assert [p][1..] == [];
  }

  /** Closing the open part keeps the loop state. */
  lemma CloseKeepsStreaming(opens: string -> bool, closed: seq<Part>, current: seq<string>, line: string)
    requires Streaming(opens, closed, current)
    requires SplitsBefore(opens, |current|, line)
    ensures Streaming(opens, closed + [Part(|closed| + 1, current, true)], [line])
  {
    var closed' := closed + [Part(|closed| + 1, current, true)];
    assert forall i :: 0 <= i < |closed| ==> closed'[i] == closed[i];
  }

  /** Appending a line that does not split keeps the loop state. */
  lemma ExtendKeepsStreaming(opens: string -> bool, closed: seq<Part>, current: seq<string>, line: string)
    requires Streaming(opens, closed, current)
    requires !SplitsBefore(opens, |current|, line)
    ensures Streaming(opens, closed, current + [line])
  {
    var current' := current + [line];
    assert current != [] ==> current'[0] == current[0];
    assert forall k :: 0 <= k < |current| ==> current'[k] == current[k];
  }

  /** When the lines run out, the open part becomes the final part. */
  lemma FinishChunks(opens: string -> bool, closed: seq<Part>, current: seq<string>)
    requires Streaming(opens, closed, current)
    ensures IsChunking(opens, AllLines(closed) + current, closed + [Part(|closed| + 1, current, |current| > 0)])
  {
    var last := Part(|closed| + 1, current, |current| > 0);
    SnocNumbered(closed, last);
    SnocClosedAreFull(closed, last);
    SnocLaterOpen(opens, closed, last);
    SnocNoMissedSplit(opens, closed, last);
    AllLinesAppend(closed, [last]);
    AllLinesSingle(last);
  }

  lemma SnocNumbered(closed: seq<Part>, last: Part)
    requires NumberedFrom(1, closed) && last.index == |closed| + 1
    ensures NumberedFrom(1, closed + [last])
  {
    var ps := closed + [last];
    forall i | 0 <= i < |ps|
      ensures ps[i].index == 1 + i
    {
      if i < |closed| {
        assert ps[i] == closed[i];
      }
    }
  }

  lemma SnocClosedAreFull(closed: seq<Part>, last: Part)
    requires forall i :: 0 <= i < |closed| ==> closed[i].separated && |closed[i].lines| >= SplitThreshold
    ensures ClosedAreFull(closed + [last])
  {
    var ps := closed + [last];
    forall i | 0 <= i < |ps| - 1
      ensures ps[i].separated && |ps[i].lines| >= SplitThreshold
    {
      assert ps[i] == closed[i];
    }
  }

  lemma SnocLaterOpen(opens: string -> bool, closed: seq<Part>, last: Part)
    requires LaterOpenAtFunction(opens, closed)
    requires |closed| > 0 ==> last.lines != [] && opens(last.lines[0])
    ensures LaterOpenAtFunction(opens, closed + [last])
  {
    var ps := closed + [last];
    forall i | 0 < i < |ps|
      ensures ps[i].lines != [] && opens(ps[i].lines[0])
    {
      if i < |closed| {
        assert ps[i] == closed[i];
      }
    }
  }

  lemma SnocNoMissedSplit(opens: string -> bool, closed: seq<Part>, last: Part)
    requires NoMissedSplit(opens, closed) && NoLateFunction(opens, last.lines)
    ensures NoMissedSplit(opens, closed + [last])
  {
    var ps := closed + [last];
    forall i | 0 <= i < |ps|
      ensures NoLateFunction(opens, ps[i].lines)
    {
      if i < |closed| {
        assert ps[i] == closed[i];
      }
    }
  }

  lemma HeadThenTail(seen: seq<string>, rest: seq<string>)
    requires rest != []
    ensures seen + [rest[0]] + rest[1..] == seen + rest
  {
    assert [rest[0]] + rest[1..] == rest;
  }

  /** Feeding the fold from a valid state yields a chunking of all lines seen and to come. */
  lemma {:induction false} FeedChunks(opens: string -> bool, closed: seq<Part>, current: seq<string>, rest: seq<string>)
    requires Streaming(opens, closed, current)
    ensures IsChunking(opens, AllLines(closed) + current + rest, Feed(opens, closed, current, rest))
    decreases |rest|
  {
    if rest == [] {
      FinishChunks(opens, closed, current);
      assert Feed(opens, closed, current, rest) == closed + [Part(|closed| + 1, current, |current| > 0)];
      assert AllLines(closed) + current + rest == AllLines(closed) + current;
    } else if SplitsBefore(opens, |current|, rest[0]) {
      var p := Part(|closed| + 1, current, true);
      CloseKeepsStreaming(opens, closed, current, rest[0]);
      FeedChunks(opens, closed + [p], [rest[0]], rest[1..]);
      AllLinesAppend(closed, [p]);
      AllLinesSingle(p);
      assert Feed(opens, closed, current, rest) == Feed(opens, closed + [p], [rest[0]], rest[1..]);
      HeadThenTail(AllLines(closed) + current, rest);
    } else {
      ExtendKeepsStreaming(opens, closed, current, rest[0]);
      FeedChunks(opens, closed, current + [rest[0]], rest[1..]);
      assert Feed(opens, closed, current, rest) == Feed(opens, closed, current + [rest[0]], rest[1..]);
      HeadThenTail(AllLines(closed) + current, rest);
      assert AllLines(closed) + (current + [rest[0]]) == AllLines(closed) + current + [rest[0]];
    }
  }

  /** The parts written for `blocks` chunk their streamed lines: the lines are all kept,
      in order, the parts are numbered 1, 2, ... and every split obeys the rule. */
  lemma ChunkIsChunking(blocks: seq<string>)
    ensures IsChunking(OpensFunction, StreamLines(blocks), Chunk(blocks))
  {
    FeedChunks(OpensFunction, [], [], StreamLines(blocks));
    assert AllLines([]) + [] + StreamLines(blocks) == StreamLines(blocks);
  }

  // ---------------------------------------------------------------------------
  // The rule leaves no choice: there is exactly one chunking of a line sequence.

  lemma TailChunking(opens: string -> bool, first: nat, lines: seq<string>, ps: seq<Part>)
    requires ChunkingFrom(opens, first, lines, ps)
    requires |ps| > 1
    ensures |ps[0].lines| < |lines| && lines[..|ps[0].lines|] == ps[0].lines
    ensures lines[|ps[0].lines|] == ps[1].lines[0]
    ensures ChunkingFrom(opens, first + 1, lines[|ps[0].lines|..], ps[1..])
  {
    var n := |ps[0].lines|;
    var tail := ps[1..];
    assert AllLines(ps) == ps[0].lines + AllLines(tail);
    assert AllLines(tail) == tail[0].lines + AllLines(tail[1..]);
    assert lines[n..] == AllLines(tail);
    assert forall i :: 0 <= i < |tail| ==> tail[i] == ps[i + 1];
  }

  /** The first part of a chunking is a prefix of the lines. */
  lemma FirstPartPrefix(opens: string -> bool, first: nat, lines: seq<string>, ps: seq<Part>)
    requires ChunkingFrom(opens, first, lines, ps)
    ensures |ps[0].lines| <= |lines| && lines[..|ps[0].lines|] == ps[0].lines
    ensures |ps| == 1 ==> ps[0].lines == lines
  {
    assert AllLines(ps) == ps[0].lines + AllLines(ps[1..]);
    if |ps| == 1 {
      assert ps[1..] == [];
    }
  }

  /** Where one chunking of `lines` cuts, no other chunking of them can let its first part run on. */
  lemma CutNotSkipped(opens: string -> bool, first: nat, lines: seq<string>, ps: seq<Part>, qs: seq<Part>)
    requires ChunkingFrom(opens, first, lines, ps) && ChunkingFrom(opens, first, lines, qs)
    requires |ps| > 1
    ensures |qs| > 1 && |qs[0].lines| <= |ps[0].lines|
  {
    TailChunking(opens, first, lines, ps);
    FirstPartPrefix(opens, first, lines, qs);
    var n := |ps[0].lines|;
    if |qs[0].lines| > n {
      assert false;
    }
  }

  lemma {:induction false} ChunkingUnique(opens: string -> bool, first: nat, lines: seq<string>, ps: seq<Part>, qs: seq<Part>)
    requires ChunkingFrom(opens, first, lines, ps) && ChunkingFrom(opens, first, lines, qs)
    ensures ps == qs
    decreases |ps|
  {
    if |ps| == 1 && |qs| == 1 {
      FirstPartPrefix(opens, first, lines, ps);
      FirstPartPrefix(opens, first, lines, qs);
      assert ps == [ps[0]] && qs == [qs[0]];
    } else if |ps| == 1 {
      CutNotSkipped(opens, first, lines, qs, ps);
      assert false;
    } else if |qs| == 1 {
      CutNotSkipped(opens, first, lines, ps, qs);
      assert false;
    } else {
      CutNotSkipped(opens, first, lines, ps, qs);
      CutNotSkipped(opens, first, lines, qs, ps);
      TailChunking(opens, first, lines, ps);
      TailChunking(opens, first, lines, qs);
      var n := |ps[0].lines|;
      assert ps[0] == qs[0];
      ChunkingUnique(opens, first + 1, lines[n..], ps[1..], qs[1..]);
      assert ps == [ps[0]] + ps[1..];
      assert qs == [qs[0]] + qs[1..];
    }
  }

  /** The parts written for `blocks` are the one and only chunking of their streamed lines. */
  lemma ChunkCharacterized(blocks: seq<string>, ps: seq<Part>)
    ensures IsChunking(OpensFunction, StreamLines(blocks), ps) <==> ps == Chunk(blocks)
  {
    ChunkIsChunking(blocks);
    if IsChunking(OpensFunction, StreamLines(blocks), ps) {
      ChunkingUnique(OpensFunction, 1, StreamLines(blocks), ps, Chunk(blocks));
    }
  }

  // ---------------------------------------------------------------------------
  // Framing of the parts.

  /** With no blocks, one empty `_part1` is opened and closed without a separator;
      a single empty block is one empty line, which is written and then separated. */
  lemma ChunkEdgeCases()
    ensures Chunk([]) == [Part(1, [], false)]
    ensures Chunk([""]) == [Part(1, [""], true)]
  {
    assert StreamLines([]) == [];
    assert Split("", '\n') == [""];
    assert StreamLines([""]) == [""] by {
      assert [""][1..] == [];
    }
    assert !SplitsBefore(OpensFunction, 0, "");
    assert [] + [""] == [""] && [""][1..] == [];
    assert Feed(OpensFunction, [], [], [""]) == Feed(OpensFunction, [], [""], []);
    assert Feed(OpensFunction, [], [""], []) == [Part(1, [""], true)];
  }

  /** The full text of one part file: its lines, each with its newline, then the separator if it follows them. */
  function PartText(p: Part): string
  {
    Terminated(p.lines) + (if p.separated then Separator else "")
  }

  /** Every part file is either empty or its lines followed by the separator: closed
      parts are non-empty, and the final part is separated exactly when it holds a line. */
  lemma ChunkPartText(blocks: seq<string>, i: nat)
    requires i < |Chunk(blocks)|
    ensures Chunk(blocks)[i].lines == [] ==> PartText(Chunk(blocks)[i]) == []
    ensures Chunk(blocks)[i].lines != [] ==> PartText(Chunk(blocks)[i]) == Terminated(Chunk(blocks)[i].lines) + Separator
  {
    ChunkIsChunking(blocks);
    var ps := Chunk(blocks);
    if i < |ps| - 1 {
      assert ps[i].separated && |ps[i].lines| >= SplitThreshold;
    }
  }

  /** A file holding at most `SplitThreshold` lines is never split. */
  lemma ShortFileOnePart(blocks: seq<string>)
    requires |StreamLines(blocks)| <= SplitThreshold
    ensures |Chunk(blocks)| == 1
  {
    ChunkIsChunking(blocks);
    var ps := Chunk(blocks);
    if |ps| > 1 {
      TailChunking(OpensFunction, 1, StreamLines(blocks), ps);
      assert false;
    }
  }

  // ---------------------------------------------------------------------------
  // The split test.

  /** A non-whitespace character after an occurrence of "def " on the line. */
  predicate MarkerBeforeText(line: string, i: int, j: int)
  {
    OccursAt(line, FunctionMarker, i) && i + |FunctionMarker| <= j < |line| && !IsSpace(line[j])
  }

  /** An occurrence of "def " in a slice `st` of `line` that ends on a non-whitespace
      character is followed, in `line`, by that character. */
  lemma MarkerInSlice(line: string, st: string, a: nat, k: nat) returns (i: int, j: int)
    requires st != [] && a + |st| <= |line| && st == line[a..a + |st|]
    requires !IsSpace(st[|st| - 1])
    requires OccursAt(st, FunctionMarker, k)
    ensures i == a + k && MarkerBeforeText(line, i, j)
  {
    i := a + k;
    j := a + |st| - 1;
    forall t | 0 <= t < 4
      ensures line[i + t] == FunctionMarker[t]
    {
      assert line[i + t] == st[k + t];
      assert st[k..k + 4][t] == st[k + t];
    }
    assert line[i..i + 4] == FunctionMarker;
    assert line[j] == st[|st| - 1];
    assert j != i + 3;
  }

  lemma OpensFunctionWitness(line: string) returns (i: int, j: int)
    requires OpensFunction(line)
    ensures MarkerBeforeText(line, i, j)
  {
    var st := Strip(line);
    StripIsSlice(line);
    var k :| 0 <= k <= |st| - |FunctionMarker| && OccursAt(st, FunctionMarker, k);
    i, j := MarkerInSlice(line, st, StripStart(line), k);
  }

  /** An occurrence of "def " followed by non-whitespace lies inside any slice of the
      line that only leaves whitespace out on either side. */
  lemma MarkerInsideSlice(line: string, a: nat, n: nat, i: int, j: int)
    requires a + n <= |line|
    requires forall k :: 0 <= k < a ==> IsSpace(line[k])
    requires forall k :: a + n <= k < |line| ==> IsSpace(line[k])
    requires MarkerBeforeText(line, i, j)
    ensures OccursAt(line[a..a + n], FunctionMarker, i - a)
  {
    assert line[i..i + 4][0] == line[i] == 'd';
    assert a <= i;
    assert j < a + n;
    assert |FunctionMarker| == 4 && i + 4 <= a + n;
    var st := line[a..a + n];
    var x := st[i - a..i - a + 4];
    var y := line[i..i + 4];
    forall t | 0 <= t < 4
      ensures x[t] == y[t]
    {
      assert st[i - a + t] == line[i + t];
    }
    assert x == y;
  }

  lemma OpensFunctionFrom(line: string, i: int, j: int)
    requires MarkerBeforeText(line, i, j)
    ensures OpensFunction(line)
  {
    StripSlice(line);
    MarkerInsideSlice(line, StripStart(line), |Strip(line)|, i, j);
  }

  /** The marker's trailing space survives stripping only when non-whitespace text
      follows it on the line: a line passes the split test exactly when "def " occurs
      in it and some non-whitespace character comes after that occurrence. */
  lemma OpensFunctionIff(line: string)
    ensures OpensFunction(line) <==> exists i, j :: MarkerBeforeText(line, i, j)
  {
    if OpensFunction(line) {
      var i, j := OpensFunctionWitness(line);
    }
    if exists i, j :: MarkerBeforeText(line, i, j) {
      var i, j :| MarkerBeforeText(line, i, j);
      OpensFunctionFrom(line, i, j);
    }
  }

  /** Indentation and a diff's '+' prefix do not hide a definition. */
  lemma SplitTestIndentedDefinition()
    ensures OpensFunction("+    def helper(x):")
  {
    OpensFunctionFrom("+    def helper(x):", 5, 9);
  }

  /** The test is a substring test, not a keyword test: "undef y" contains "def ". */
  lemma SplitTestSubstring()
    ensures OpensFunction("x = undef y")
  {
    OpensFunctionFrom("x = undef y", 6, 10);
  }

  /** The lines "def " and " def" do not pass: stripped, both are "def", without the
      space the marker needs. */
  lemma SplitTestTrailingMarker()
    ensures !OpensFunction("def ") && !OpensFunction(" def")
  {
    OpensFunctionIff("def ");
    OpensFunctionIff(" def");
  }

  // ---------------------------------------------------------------------------
  // The text written.

  /** The text of the parts' lines, separators left aside, in part order. */
  function BodyText(ps: seq<Part>): string
  {
    if ps == [] then [] else Terminated(ps[0].lines) + BodyText(ps[1..])
  }

  /** Writing the lines of a block, each with its newline, writes the block and one newline. */
  lemma BlockTerminated(b: string)
    ensures Terminated(Split(b, '\n')) == b + "\n"
  {
    TerminatedJoin(Split(b, '\n'));
    JoinSplit(b, '\n');
  }

  lemma {:induction false} StreamTerminated(blocks: seq<string>)
    ensures Terminated(StreamLines(blocks)) == Terminated(blocks)
  {
    if blocks != [] {
      StreamTerminated(blocks[1..]);
      TerminatedAppend(Split(blocks[0], '\n'), StreamLines(blocks[1..]));
      BlockTerminated(blocks[0]);
    }
  }

  lemma {:induction false} BodyTextAllLines(ps: seq<Part>)
    ensures BodyText(ps) == Terminated(AllLines(ps))
  {
    if ps != [] {
      BodyTextAllLines(ps[1..]);
      TerminatedAppend(ps[0].lines, AllLines(ps[1..]));
    }
  }

  /** The part files, separators left aside, hold the blocks verbatim, each followed by a newline. */
  lemma ChunkKeepsText(blocks: seq<string>)
    ensures BodyText(Chunk(blocks)) == Terminated(blocks)
  {
    ChunkIsChunking(blocks);
    BodyTextAllLines(Chunk(blocks));
    StreamTerminated(blocks);
  }

  // ---------------------------------------------------------------------------
  // The loop as written: blocks, then lines, with an explicit line counter and part number.

  /** One step of the fold: the incoming line either closes the open part and opens the next, or joins the open part. */
  lemma FeedLine(opens: string -> bool, closed: seq<Part>, current: seq<string>, line: string, rest: seq<string>)
    ensures SplitsBefore(opens, |current|, line) ==>
      Feed(opens, closed, current, [line] + rest) == Feed(opens, closed + [Part(|closed| + 1, current, true)], [line], rest)
    ensures !SplitsBefore(opens, |current|, line) ==>
      Feed(opens, closed, current, [line] + rest) == Feed(opens, closed, current + [line], rest)
  {
    assert ([line] + rest)[0] == line && ([line] + rest)[1..] == rest;
  }

  lemma StreamLinesFrom(blocks: seq<string>, b: nat)
    requires b < |blocks|
    ensures StreamLines(blocks[b..]) == Split(blocks[b], '\n') + StreamLines(blocks[b + 1..])
  {
    assert blocks[b..][0] == blocks[b] && blocks[b..][1..] == blocks[b + 1..];
  }

  lemma LinesFrom(lines: seq<string>, j: nat, tail: seq<string>)
    requires j < |lines|
    ensures lines[j..] + tail == [lines[j]] + (lines[j + 1..] + tail)
  {
    assert lines[j..] == [lines[j]] + lines[j + 1..];
  }

  method WriteCommitInfo(blocks: seq<string>) returns (parts: seq<Part>)
    ensures parts == Chunk(blocks)
    ensures IsChunking(OpensFunction, StreamLines(blocks), parts)
  {
    var closed: seq<Part> := [];
    var current: seq<string> := [];
    var fileIndex := 1;
    var lineCount := 0;
    var b := 0;
    assert blocks[0..] == blocks;
    while b < |blocks|
      invariant 0 <= b <= |blocks|
      invariant fileIndex == |closed| + 1 && lineCount == |current|
      invariant Feed(OpensFunction, closed, current, StreamLines(blocks[b..])) == Chunk(blocks)
    {
      var lines := Split(blocks[b], '\n');
      ghost var later := StreamLines(blocks[b + 1..]);
      StreamLinesFrom(blocks, b);
      assert lines[0..] == lines;
      var j := 0;
      while j < |lines|
        invariant 0 <= j <= |lines|
        invariant fileIndex == |closed| + 1 && lineCount == |current|
        invariant Feed(OpensFunction, closed, current, lines[j..] + later) == Chunk(blocks)
      {
        var line := lines[j];
        ghost var rest := lines[j + 1..] + later;
        LinesFrom(lines, j, later);
        FeedLine(OpensFunction, closed, current, line, rest);
        if lineCount >= SplitThreshold && OpensFunction(line) {
          closed := closed + [Part(fileIndex, current, true)];
          fileIndex := fileIndex + 1;
          current := [];
          lineCount := 0;
          assert current + [line] == [line];
        }
        current := current + [line];
        lineCount := lineCount + 1;
        j := j + 1;
      }
      assert lines[j..] + later == later;
      b := b + 1;
    }
    assert blocks[b..] == [];
    parts := closed + [Part(fileIndex, current, lineCount > 0)];
    ChunkIsChunking(blocks);
  }
}
