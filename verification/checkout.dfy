/** Recovering from a checkout that untracked production files block: the paths are read
    out of git's error text (docugit.py:136-138) and added to `.gitignore`
    (docugit.py:150-170). The checkout itself and the file system are not modelled: the
    error text and the current `.gitignore` text (absent when the file does not exist)
    are inputs, and the new `.gitignore` text is the output. */
module Checkout {
  import opened Wrappers
  import opened PyStr
  import opened Seqs
  import opened PathFilters

  // ---------------------------------------------------------------------------
  // `update_gitignore`

  /** The new `.gitignore` text and whether the tool had anything to add. */
  datatype GitignoreUpdate = GitignoreUpdate(text: string, needToUpdate: bool)

  /** The paths not yet mentioned anywhere in the original text, in input order,
      duplicates kept. */
  function Missing(original: string, paths: seq<string>): (r: seq<string>)
    ensures forall p :: p in r <==> p in paths && !Contains(original, p)
  {
    var r := Filter(p => !Contains(original, p), paths);
    forall p ensures p in r <==> p in paths && !Contains(original, p) {
      FilterMembership(p => !Contains(original, p), paths, p);
    }
    r
  }

  /** What the append loop writes: `"\n" + p` for each path the original text does not
      contain. The test is against the text read before the loop, so a path repeated
      in `paths` is written each time. */
  function AppendMissing(original: string, paths: seq<string>): string
  {
    if paths == [] then []
    else
      var written := if Contains(original, paths[0]) then [] else "\n" + paths[0];
      written + AppendMissing(original, paths[1..])
  }

  /** `update_gitignore` on the current `.gitignore` text, `None` when the file does not exist. */
  function UpdateGitignore(existing: Option<string>, paths: seq<string>): (r: GitignoreUpdate)
    ensures existing.Some? ==> StartsWith(r.text, existing.value)
    ensures r.needToUpdate <==> existing.None? || exists i :: 0 <= i < |paths| && !Contains(existing.value, paths[i])
    ensures !r.needToUpdate ==> existing.Some? && r.text == existing.value
  {
    match existing
    case None => GitignoreUpdate(Terminated(paths), true)
    case Some(current) =>
      var added := AppendMissing(current, paths);
      AppendMissingEmpty(current, paths);
      assert (current + added)[..|current|] == current;
      GitignoreUpdate(current + added, added != [])
  }

  /** Nothing is appended exactly when every path already occurs in the text. */
  lemma {:induction false} AppendMissingEmpty(original: string, paths: seq<string>)
    ensures AppendMissing(original, paths) == [] <==> forall i :: 0 <= i < |paths| ==> Contains(original, paths[i])
  {
    if paths != [] {
      AppendMissingEmpty(original, paths[1..]);
      assert forall i :: 1 <= i < |paths| ==> paths[i] == paths[1..][i - 1];
    }
  }

  /** Read line by line, the text appended to an existing file is a line break followed
      by the missing paths, one per line, when no path holds a line break. */
  lemma {:induction false} AppendMissingLines(original: string, paths: seq<string>)
    requires forall i :: 0 <= i < |paths| ==> '\n' !in paths[i]
    ensures Split(AppendMissing(original, paths), '\n') == [""] + Missing(original, paths)
  {
    if paths != [] {
      var p := paths[0];
      var rest := AppendMissing(original, paths[1..]);
      assert forall i :: 0 <= i < |paths[1..]| ==> paths[1..][i] == paths[i + 1];
      AppendMissingLines(original, paths[1..]);
      var m := Missing(original, paths[1..]);
      if Contains(original, p) {
        assert AppendMissing(original, paths) == [] + rest == rest;
        assert Missing(original, paths) == m;
      } else {
        assert AppendMissing(original, paths) == "\n" + p + rest;
        assert paths[0] in paths;
        SplitLineBefore(p, rest, m);
        assert Missing(original, paths) == [p] + m;
      }
    }
  }

  /** A line break and a line in front of text whose first piece is empty add the line
      as a piece of its own. */
  lemma SplitLineBefore(p: string, rest: string, m: seq<string>)
    requires '\n' !in p
    requires Split(rest, '\n') == [""] + m
    ensures Split("\n" + p + rest, '\n') == [""] + [p] + m
  {
    assert "\n" + p + rest == [] + ['\n'] + (p + rest);
    SplitAround([], p + rest, '\n');
    SplitPrefix(p, rest, '\n');
    assert p + "" == p;
    assert Split([], '\n') == [""];
  }

  /** Read line by line, a fresh file holds the paths, one per line, and an empty last
      piece after the final line break, when no path holds a line break. */
  lemma {:induction false} TerminatedLines(paths: seq<string>)
    requires forall i :: 0 <= i < |paths| ==> '\n' !in paths[i]
    ensures Split(Terminated(paths), '\n') == paths + [""]
  {
    if paths != [] {
      var p := paths[0];
      assert forall i :: 0 <= i < |paths[1..]| ==> paths[1..][i] == paths[i + 1];
      TerminatedLines(paths[1..]);
      SplitAround(p, Terminated(paths[1..]), '\n');
      SplitPrefix(p, [], '\n');
      assert p + [] == p;
      assert Split(p, '\n') == [p];
      assert paths == [p] + paths[1..];
    } else {
      assert Split([], '\n') == [""];
    }
  }

  /** The new text, line by line: an existing file keeps its text and gains one line per
      missing path after a line break; a fresh file holds one line per path. */
  lemma GitignoreLines(existing: Option<string>, paths: seq<string>)
    requires forall i :: 0 <= i < |paths| ==> '\n' !in paths[i]
    ensures existing.Some? ==>
      var text := UpdateGitignore(existing, paths).text;
      Split(text[|existing.value|..], '\n') == [""] + Missing(existing.value, paths)
    ensures existing.None? ==> Split(UpdateGitignore(existing, paths).text, '\n') == paths + [""]
  {
    match existing
    case None => TerminatedLines(paths);
    case Some(current) =>
      var added := AppendMissing(current, paths);
      assert (current + added)[|current|..] == added;
      AppendMissingLines(current, paths);
  }

  /** A path the original text lacks is written by the append loop. */
  lemma {:induction false} AppendMissingHas(original: string, paths: seq<string>, i: nat)
    requires i < |paths| && !Contains(original, paths[i])
    ensures Contains(AppendMissing(original, paths), paths[i])
  {
    var p := paths[0];
    var rest := AppendMissing(original, paths[1..]);
    var written := if Contains(original, p) then [] else "\n" + p;
    assert AppendMissing(original, paths) == written + rest;
    if i == 0 {
      assert OccursAt(written, p, 1);
      ContainsExtend(written, rest, p);
    } else {
      assert paths[1..][i - 1] == paths[i];
      AppendMissingHas(original, paths[1..], i - 1);
      ContainsExtend(rest, written, paths[i]);
    }
  }

  /** Every path occurs in the text after the update. */
  lemma AppendMissingCovers(original: string, paths: seq<string>, i: nat)
    requires i < |paths|
    ensures Contains(original + AppendMissing(original, paths), paths[i])
  {
    if Contains(original, paths[i]) {
      ContainsExtend(original, AppendMissing(original, paths), paths[i]);
    } else {
      AppendMissingHas(original, paths, i);
      ContainsExtend(AppendMissing(original, paths), original, paths[i]);
    }
  }

  /** A second update with the same paths finds nothing to add. */
  lemma GitignoreIdempotent(existing: Option<string>, paths: seq<string>)
    ensures var first := UpdateGitignore(existing, paths);
      UpdateGitignore(Some(first.text), paths) == GitignoreUpdate(first.text, false)
  {
    var first := UpdateGitignore(existing, paths);
    forall i | 0 <= i < |paths|
      ensures Contains(first.text, paths[i])
    {
      match existing
      case None => TerminatedCovers(paths, i);
      case Some(current) => AppendMissingCovers(current, paths, i);
    }
  }

  /** Every path occurs in a fresh file's text. */
  lemma {:induction false} TerminatedCovers(paths: seq<string>, i: nat)
    requires i < |paths|
    ensures Contains(Terminated(paths), paths[i])
  {
    var p := paths[0];
    var rest := Terminated(paths[1..]);
    assert Terminated(paths) == (p + "\n") + rest;
    if i == 0 {
      assert OccursAt((p + "\n") + rest, p, 0);
    } else {
      assert paths[1..][i - 1] == paths[i];
      TerminatedCovers(paths[1..], i - 1);
      ContainsExtend(rest, p + "\n", paths[i]);
    }
  }

  /** The test is for a substring, not for a line: a path that is part of a longer
      line already present is not added. */
  lemma SubstringCountsAsListed()
    ensures UpdateGitignore(Some("models_production/a.pkl.bak\n"), ["models_production/a.pkl"])
         == GitignoreUpdate("models_production/a.pkl.bak\n", false)
  {
    var current := "models_production/a.pkl.bak\n";
    var p := "models_production/a.pkl";
    assert OccursAt(current, p, 0);
  }

  // ---------------------------------------------------------------------------
  // Reading the blocked paths out of git's error text.

  /** The text in git's error that triggers the recovery. */
  const OverwriteMessage: string := "untracked working tree files would be overwritten by checkout"

  /** The directory whose lines in the error text are read. */
  const ProductionDirectory: string := "barcode_production/"

  /** A line names a blocked path when, stripped, it starts with the production directory. */
  predicate NamesPath(line: string)
  {
    StartsWith(Strip(line), ProductionDirectory)
  }

  lemma NamesPathNotBlank(line: string)
    requires NamesPath(line)
    ensures !AllSpace(line)
  {
    assert Strip(line) != [];
  }

  /** `line.split()[-1]` when the line names a path, nothing otherwise. */
  function TokenOf(line: string): (r: seq<string>)
    ensures |r| <= 1
    ensures r != [] <==> NamesPath(line)
    ensures r != [] ==> !AllSpace(line) && r[0] == LastWord(line)
  {
    if NamesPath(line) then NamesPathNotBlank(line); [LastWord(line)] else []
  }

  /** The token of a line is the word that ends it: a line that names a path and ends in
      a word, followed by nothing but whitespace, gives that word. */
  lemma TokenOfLastWord(p: string, w: string, t: string)
    requires p == [] || IsSpace(p[|p| - 1])
    requires IsWord(w) && AllSpace(t)
    requires NamesPath(p + w + t)
    ensures TokenOf(p + w + t) == [w]
  {
    LastWordEnds(p, w, t);
  }

  /** `[line.split()[-1] for line in lines if line.strip().startswith(...)]` */
  function UntrackedTokens(lines: seq<string>): (r: seq<string>)
    ensures forall i :: 0 <= i < |r| ==> IsWord(r[i])
  {
    var r := FlatMap(TokenOf, lines);
    forall i | 0 <= i < |r|
      ensures IsWord(r[i])
    {
      assert r[i] in r;
      var k :| 0 <= k < |lines| && r[i] in TokenOf(lines[k]);
    }
    r
  }

  /** One line of the error text contributes exactly its own token, if any. */
  lemma UntrackedTokensOne(line: string)
    ensures UntrackedTokens([line]) == TokenOf(line)
  {
    FlatMapSingle(TokenOf, line);
  }

  /** `production_files`: the tokens that contain "_production". */
  function ProductionFiles(stderr: string): (r: seq<string>)
    ensures forall i :: 0 <= i < |r| ==> IsWord(r[i]) && Contains(r[i], ProductionMarker)
  {
    var tokens := UntrackedTokens(Split(stderr, '\n'));
    var r := Filter(t => Contains(t, ProductionMarker), tokens);
    forall i | 0 <= i < |r|
      ensures IsWord(r[i])
    {
      assert r[i] in r;
      assert multiset(r)[r[i]] > 0;
      assert r[i] in tokens;
    }
    r
  }

  /** The error text is read line by line: the paths of two texts joined by a line break
      are the paths of the first followed by those of the second. */
  lemma ProductionFilesLines(a: string, b: string)
    ensures ProductionFiles(a + "\n" + b) == ProductionFiles(a) + ProductionFiles(b)
  {
    SplitAround(a, b, '\n');
    assert a + "\n" + b == a + ['\n'] + b;
    FlatMapAppend(TokenOf, Split(a, '\n'), Split(b, '\n'));
    FilterAppend(t => Contains(t, ProductionMarker), UntrackedTokens(Split(a, '\n')), UntrackedTokens(Split(b, '\n')));
  }

  /** A single line yields its last token exactly when the stripped line starts with the
      production directory and that token contains "_production". */
  lemma ProductionFilesOneLine(line: string)
    requires '\n' !in line
    ensures NamesPath(line) && Contains(LastWord(line), ProductionMarker) ==> ProductionFiles(line) == [LastWord(line)]
    ensures !(NamesPath(line) && Contains(LastWord(line), ProductionMarker)) ==> ProductionFiles(line) == []
  {
    SplitPrefix(line, [], '\n');
    assert line + [] == line;
    assert Split(line, '\n') == [line];
    assert [line][1..] == [];
    assert FlatMap(TokenOf, [line]) == TokenOf(line) + FlatMap(TokenOf, []);
    assert TokenOf(line) + [] == TokenOf(line);
  }

  /** A path in the production directory contains "_production". */
  lemma ProductionDirectoryMarked(path: string)
    requires StartsWith(path, ProductionDirectory)
    ensures Contains(path, ProductionMarker)
  {
    assert path[7..18] == path[..|ProductionDirectory|][7..18] == ProductionDirectory[7..18];
    assert OccursAt(path, ProductionMarker, 7);
  }

  /** The usual line of git's list, a path indented by whitespace, yields the path. */
  lemma IndentedPathKept(indent: string, path: string)
    requires AllSpace(indent) && '\n' !in indent
    requires IsWord(path) && StartsWith(path, ProductionDirectory)
    ensures ProductionFiles(indent + path) == [path]
  {
    WordsSingle(indent, path);
    ProductionDirectoryMarked(path);
    NoSpaceNoNewline(path);
    assert '\n' !in indent + path by {
      forall k | 0 <= k < |indent + path|
        ensures (indent + path)[k] != '\n'
      {
        if k < |indent| {
          assert indent[k] in indent;
        } else {
          assert path[k - |indent|] in path;
        }
      }
    }
    ProductionFilesOneLine(indent + path);
  }

  /** What `handle_checkout` does with a failed checkout's error text: nothing unless git
      reports untracked files in the way; otherwise the `.gitignore` update with the
      production paths it names. */
  function HandleCheckoutError(stderr: string, gitignore: Option<string>): (r: Option<GitignoreUpdate>)
    ensures r.None? <==> !Contains(stderr, OverwriteMessage)
    ensures r.Some? && gitignore.Some? ==> StartsWith(r.value.text, gitignore.value)
  {
    if Contains(stderr, OverwriteMessage) then Some(UpdateGitignore(gitignore, ProductionFiles(stderr)))
    else None
  }

  /** What the recovery adds names production paths: in an existing `.gitignore`, every
      piece written after the first added line break contains "_production" (that break
      ends the old last line, so a file already ending in a line break gains one empty
      line); in a fresh one, every line does. */
  lemma HandleCheckoutAddsProductionPaths(stderr: string, gitignore: Option<string>)
    requires HandleCheckoutError(stderr, gitignore).Some?
    ensures gitignore.Some? ==>
      var added := Split(HandleCheckoutError(stderr, gitignore).value.text[|gitignore.value|..], '\n');
      added[0] == "" && forall i :: 1 <= i < |added| ==> Contains(added[i], ProductionMarker)
    ensures gitignore.None? ==>
      var lines := Split(HandleCheckoutError(stderr, gitignore).value.text, '\n');
      lines[|lines| - 1] == "" && forall i :: 0 <= i < |lines| - 1 ==> Contains(lines[i], ProductionMarker)
  {
    var files := ProductionFiles(stderr);
    ProductionFilesSingleLines(stderr);
    GitignoreLines(gitignore, files);
    if gitignore.Some? {
      MissingMarked(gitignore.value, files);
    }
  }

  /** A path missing from an existing `.gitignore` is written after a line break. */
  lemma AppendOneMissing(original: string, path: string)
    requires !Contains(original, path)
    ensures UpdateGitignore(Some(original), [path]).text == original + "\n" + path
  {
    assert [path][1..] == [];
    assert AppendMissing(original, [path]) == "\n" + path;
  }

  /** An existing `.gitignore` that already ends in a line break gains an empty line. */
  lemma TrailingBreakGainsEmptyLine()
    ensures UpdateGitignore(Some("a\n"), ["barcode_production/x"]).text == "a\n\nbarcode_production/x"
  {
    NotContainsFirstChar("a\n", "barcode_production/x");
    AppendOneMissing("a\n", "barcode_production/x");
  }

  /** No production path spans a line break. */
  lemma ProductionFilesSingleLines(stderr: string)
    ensures forall i :: 0 <= i < |ProductionFiles(stderr)| ==> '\n' !in ProductionFiles(stderr)[i]
  {
    var files := ProductionFiles(stderr);
    forall i | 0 <= i < |files|
      ensures '\n' !in files[i]
    {
      NoSpaceNoNewline(files[i]);
    }
  }

  /** The paths missing from a `.gitignore` are among the paths asked for, so they keep
      any property all of those have; here, containing "_production". */
  lemma MissingMarked(original: string, files: seq<string>)
    requires forall i :: 0 <= i < |files| ==> Contains(files[i], ProductionMarker)
    ensures forall i :: 0 <= i < |Missing(original, files)| ==> Contains(Missing(original, files)[i], ProductionMarker)
  {
    var m := Missing(original, files);
    forall i | 0 <= i < |m|
      ensures Contains(m[i], ProductionMarker)
    {
      assert m[i] in m;
      var k :| 0 <= k < |files| && files[k] == m[i];
    }
  }
}
