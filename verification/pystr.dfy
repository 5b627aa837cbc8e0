/** The Python `str` operations the report tool relies on, over strings as `seq<char>`:
    `isspace`, `strip`/`lstrip`/`rstrip`, the substring test `w in s`, `startswith`,
    `split(sep)` with a one-character separator and `split()` with no separator. */
module PyStr {

  /** `c.isspace()`: the characters Python treats as whitespace (bidirectional
      classes WS, B and S, and general category Zs). */
  predicate IsSpace(c: char)
  {
    || c == ' '
    || ('\t' <= c <= '\r')
    || ('\U{1C}' <= c <= '\U{1F}')
    || c == '\U{85}' || c == '\U{A0}' || c == '\U{1680}'
    || ('\U{2000}' <= c <= '\U{200A}')
    || c == '\U{2028}' || c == '\U{2029}' || c == '\U{202F}' || c == '\U{205F}' || c == '\U{3000}'
  }

  predicate AllSpace(s: string)
  {
    forall k :: 0 <= k < |s| ==> IsSpace(s[k])
  }

  predicate NoSpace(s: string)
  {
    forall k :: 0 <= k < |s| ==> !IsSpace(s[k])
  }

  lemma AllSpaceCons(c: char, t: string)
    requires IsSpace(c) && AllSpace(t)
    ensures AllSpace([c] + t)
  {
    forall k | 0 <= k < |[c] + t|
      ensures IsSpace(([c] + t)[k])
    {
      if k > 0 {
        assert ([c] + t)[k] == t[k - 1];
      }
    }
  }

  lemma AllSpaceSnoc(t: string, c: char)
    requires AllSpace(t) && IsSpace(c)
    ensures AllSpace(t + [c])
  {
    forall k | 0 <= k < |t + [c]|
      ensures IsSpace((t + [c])[k])
    {
      if k < |t| {
        assert (t + [c])[k] == t[k];
      }
    }
  }

  /** A suffix of `s[1..]` after whitespace is a suffix of `s` after whitespace when `s[0]` is whitespace. */
  lemma LStripStep(s: string, r: string)
    requires s != [] && IsSpace(s[0])
    requires |r| <= |s| - 1 && r == s[1..][|s| - 1 - |r|..] && AllSpace(s[1..][..|s| - 1 - |r|])
    ensures r == s[|s| - |r|..] && AllSpace(s[..|s| - |r|])
  {
    assert s[1..][|s| - 1 - |r|..] == s[|s| - |r|..];
    AllSpaceCons(s[0], s[1..][..|s| - 1 - |r|]);
    assert s[..|s| - |r|] == [s[0]] + s[1..][..|s| - 1 - |r|];
  }

  /** The mirror image of `LStripStep`, for a prefix of `s` minus its whitespace last character. */
  lemma RStripStep(s: string, r: string)
    requires s != [] && IsSpace(s[|s| - 1])
    requires |r| <= |s| - 1 && r == s[..|s| - 1][..|r|] && AllSpace(s[..|s| - 1][|r|..])
    ensures r == s[..|r|] && AllSpace(s[|r|..])
  {
    assert s[..|s| - 1][..|r|] == s[..|r|];
    AllSpaceSnoc(s[..|s| - 1][|r|..], s[|s| - 1]);
    assert s[|r|..] == s[..|s| - 1][|r|..] + [s[|s| - 1]];
  }

  /** Every character of a whitespace slice is whitespace. */
  lemma AllSpaceSlice(s: string, x: int, y: int)
    requires 0 <= x <= y <= |s| && AllSpace(s[x..y])
    ensures forall k :: x <= k < y ==> IsSpace(s[k])
  {
    forall k | x <= k < y
      ensures IsSpace(s[k])
    {
      assert s[x..y][k - x] == s[k];
    }
  }

  /** `s.lstrip()`: the longest suffix of `s` that does not start with whitespace. */
  function LStrip(s: string): (r: string)
    ensures |r| <= |s| && r == s[|s| - |r|..]
    ensures AllSpace(s[..|s| - |r|])
    ensures r == [] || !IsSpace(r[0])
  {
    if s != [] && IsSpace(s[0]) then
      var r := LStrip(s[1..]);
      LStripStep(s, r);
      r
    else
      assert s[..0] == [];
      s
  }

  /** `s.rstrip()`: the longest prefix of `s` that does not end with whitespace. */
  function RStrip(s: string): (r: string)
    ensures |r| <= |s| && r == s[..|r|]
    ensures AllSpace(s[|r|..])
    ensures r == [] || !IsSpace(r[|r| - 1])
  {
    if s != [] && IsSpace(s[|s| - 1]) then
      var r := RStrip(s[..|s| - 1]);
      RStripStep(s, r);
      r
    else
      assert s[|s|..] == [];
      s
  }

  /** `s.strip()`: whitespace removed at both ends. */
  function Strip(s: string): (r: string)
    ensures r == [] <==> AllSpace(s)
    ensures r != [] ==> !IsSpace(r[0]) && !IsSpace(r[|r| - 1])
  {
    var l := LStrip(s);
    StripEnds(s, l, RStrip(l));
    RStrip(l)
  }

  lemma StripEnds(s: string, l: string, r: string)
    requires l == LStrip(s) && r == RStrip(l)
    ensures r == [] <==> AllSpace(s)
    ensures r != [] ==> !IsSpace(r[0]) && !IsSpace(r[|r| - 1])
  {
    var a := |s| - |l|;
    if r == [] {
      assert l[|r|..] == l;
      if l != [] {
        assert false;
      }
      assert s[..a] == s;
    } else {
      assert r[0] == l[0];
      assert l[0] == s[a];
    }
  }

  /** The offset in `s` at which `Strip(s)` begins. */
  function StripStart(s: string): nat
  {
    |s| - |LStrip(s)|
  }

  /** `Strip(s)` is a slice of `s`, starting at `StripStart(s)`. */
  lemma StripIsSlice(s: string)
    ensures StripStart(s) + |Strip(s)| <= |s|
    ensures Strip(s) == s[StripStart(s)..StripStart(s) + |Strip(s)|]
  {
    var a := StripStart(s);
    var l := LStrip(s);
    var r := RStrip(l);
    PrefixOfSuffix(s, a, l, r);
  }

  lemma PrefixOfSuffix(s: string, a: nat, l: string, r: string)
    requires a <= |s| && l == s[a..] && |r| <= |l| && r == l[..|r|]
    ensures a + |r| <= |s| && r == s[a..a + |r|]
  {
  }

  /** `Strip(s)` is the slice of `s` between its leading and its trailing whitespace. */
  lemma StripSlice(s: string)
    ensures StripStart(s) + |Strip(s)| <= |s|
    ensures Strip(s) == s[StripStart(s)..StripStart(s) + |Strip(s)|]
    ensures forall k :: 0 <= k < StripStart(s) ==> IsSpace(s[k])
    ensures forall k :: StripStart(s) + |Strip(s)| <= k < |s| ==> IsSpace(s[k])
  {
    StripIsSlice(s);
    var a := StripStart(s);
    var l := LStrip(s);
    SpaceAround(s, a, l, RStrip(l));
  }

  lemma SpaceAround(s: string, a: nat, l: string, r: string)
    requires a <= |s| && l == s[a..] && |r| <= |l|
    requires AllSpace(s[..a]) && AllSpace(l[|r|..])
    ensures forall k :: 0 <= k < a ==> IsSpace(s[k])
    ensures forall k :: a + |r| <= k < |s| ==> IsSpace(s[k])
  {
    assert s[..a] == s[0..a];
    AllSpaceSlice(s, 0, a);
    assert l[|r|..] == s[a + |r|..|s|];
    AllSpaceSlice(s, a + |r|, |s|);
  }

  /** `w` occurs in `s` starting at offset `i`. */
  predicate OccursAt(s: string, w: string, i: int)
  {
    0 <= i && i + |w| <= |s| && s[i..i + |w|] == w
  }

  /** Python's `w in s` on strings: `w` is a substring of `s` (the empty string is in every string). */
  predicate Contains(s: string, w: string)
  {
    exists i | 0 <= i <= |s| - |w| :: OccursAt(s, w, i)
  }

  /** `s.startswith(p)`. */
  predicate StartsWith(s: string, p: string)
  {
    |p| <= |s| && s[..|p|] == p
  }

  /** Appending text keeps every substring. */
  lemma ContainsExtend(s: string, t: string, w: string)
    requires Contains(s, w)
    ensures Contains(s + t, w) && Contains(t + s, w)
  {
    var i :| 0 <= i <= |s| - |w| && OccursAt(s, w, i);
    assert (s + t)[i..i + |w|] == s[i..i + |w|];
    assert OccursAt(s + t, w, i);
    assert (t + s)[|t| + i..|t| + i + |w|] == s[i..i + |w|];
    assert OccursAt(t + s, w, |t| + i);
  }

  /** A text in which the first character of `w` never appears does not contain `w`. */
  lemma NotContainsFirstChar(s: string, w: string)
    requires w != [] && w[0] !in s
    ensures !Contains(s, w)
  {
    forall i | 0 <= i <= |s| - |w|
      ensures !OccursAt(s, w, i)
    {
      assert s[i] in s;
      assert s[i..i + |w|][0] == s[i];
    }
  }

  /** `s.split(sep)` for a one-character separator: the pieces between separators,
      always at least one (`"".split(sep) == [""]`). */
  function Split(s: string, sep: char): (r: seq<string>)
    ensures |r| >= 1
    ensures forall i :: 0 <= i < |r| ==> sep !in r[i]
  {
    if s == [] then [[]]
    else
      var rest := Split(s[1..], sep);
      if s[0] == sep then [[]] + rest
      else [[s[0]] + rest[0]] + rest[1..]
  }

  /** `sep.join(parts)`. */
  function Join(parts: seq<string>, sep: char): string
    requires |parts| >= 1
  {
    if |parts| == 1 then parts[0] else parts[0] + [sep] + Join(parts[1..], sep)
  }

  /** Joining the pieces of a split gives back the string. */
  lemma {:induction false} JoinSplit(s: string, sep: char)
    ensures Join(Split(s, sep), sep) == s
  {
    if s != [] {
      var rest := Split(s[1..], sep);
      JoinSplit(s[1..], sep);
      if s[0] == sep {
        assert Split(s, sep)[1..] == rest;
        assert s == [s[0]] + s[1..];
      } else {
        var r := Split(s, sep);
        if |rest| == 1 {
          assert r == [[s[0]] + rest[0]];
        } else {
          assert r[1..] == rest[1..];
          assert Join(rest, sep) == rest[0] + [sep] + Join(rest[1..], sep);
        }
        assert s == [s[0]] + s[1..];
      }
    }
  }

  /** Splitting `w + t`, where `w` holds no separator, glues `w` onto the first piece of `t`. */
  lemma {:induction false} SplitPrefix(w: string, t: string, sep: char)
    requires sep !in w
    ensures Split(w + t, sep) == [w + Split(t, sep)[0]] + Split(t, sep)[1..]
  {
    if w != [] {
      assert (w + t)[1..] == w[1..] + t;
      assert w[0] in w;
      SplitPrefix(w[1..], t, sep);
      assert [w[0]] + (w[1..] + Split(t, sep)[0]) == w + Split(t, sep)[0];
    } else {
      var st := Split(t, sep);
      assert w + t == t;
      assert w + st[0] == st[0];
      assert st == [st[0]] + st[1..];
    }
  }

  /** Splitting a join of separator-free pieces gives back the pieces. */
  lemma {:induction false} SplitJoin(parts: seq<string>, sep: char)
    requires |parts| >= 1
    requires forall i :: 0 <= i < |parts| ==> sep !in parts[i]
    ensures Split(Join(parts, sep), sep) == parts
  {
    if |parts| == 1 {
      SplitPrefix(parts[0], [], sep);
      assert parts[0] + [] == parts[0];
    } else {
      SplitJoin(parts[1..], sep);
      var t := [sep] + Join(parts[1..], sep);
      assert parts[0] + [sep] + Join(parts[1..], sep) == parts[0] + t;
      SplitPrefix(parts[0], t, sep);
      assert t != [] && t[0] == sep && t[1..] == Join(parts[1..], sep);
      assert Split(t, sep) == [[]] + parts[1..];
      assert parts[0] + [] == parts[0];
      assert parts == [parts[0]] + parts[1..];
    }
  }

  /** Joining two lists of pieces is joining their joins. */
  lemma {:induction false} JoinAppend(x: seq<string>, y: seq<string>, sep: char)
    requires |x| >= 1 && |y| >= 1
    ensures Join(x + y, sep) == Join(x, sep) + [sep] + Join(y, sep)
  {
    if |x| > 1 {
      assert (x + y)[1..] == x[1..] + y;
      JoinAppend(x[1..], y, sep);
    } else {
      assert (x + y)[1..] == y;
    }
  }

  /** A separator between two texts puts their pieces side by side. */
  lemma SplitAround(a: string, b: string, sep: char)
    ensures Split(a + [sep] + b, sep) == Split(a, sep) + Split(b, sep)
  {
    var pa := Split(a, sep);
    var pb := Split(b, sep);
    JoinSplit(a, sep);
    JoinSplit(b, sep);
    JoinAppend(pa, pb, sep);
    SplitJoin(pa + pb, sep);
  }

  /** Lines written one after another, each followed by '\n'. */
  function Terminated(lines: seq<string>): string
  {
    if lines == [] then [] else lines[0] + "\n" + Terminated(lines[1..])
  }

  lemma {:induction false} TerminatedAppend(xs: seq<string>, ys: seq<string>)
    ensures Terminated(xs + ys) == Terminated(xs) + Terminated(ys)
  {
    if xs == [] {
      assert xs + ys == ys;
    } else {
      assert (xs + ys)[1..] == xs[1..] + ys;
      TerminatedAppend(xs[1..], ys);
    }
  }

  /** Terminating every line is joining them with '\n' and ending with one more. */
  lemma {:induction false} TerminatedJoin(xs: seq<string>)
    requires |xs| >= 1
    ensures Terminated(xs) == Join(xs, '\n') + "\n"
  {
    if |xs| > 1 {
      TerminatedJoin(xs[1..]);
    } else {
      assert xs[1..] == [];
    }
  }

  /** The leading run of non-whitespace characters of `s`. */
  function TakeWord(s: string): (w: string)
    ensures |w| <= |s| && w == s[..|w|]
    ensures NoSpace(w)
    ensures |w| == |s| || IsSpace(s[|w|])
  {
    if s == [] || IsSpace(s[0]) then [] else [s[0]] + TakeWord(s[1..])
  }

  /** A text without whitespace holds no line break. */
  lemma NoSpaceNoNewline(w: string)
    requires NoSpace(w)
    ensures '\n' !in w
  {
    forall k | 0 <= k < |w|
      ensures w[k] != '\n'
    {
      assert !IsSpace(w[k]);
    }
  }

  /** A token of `s.split()`: a non-empty run of non-whitespace characters. */
  predicate IsWord(w: string)
  {
    w != [] && NoSpace(w)
  }

  /** `s.split()`: the maximal runs of non-whitespace characters, in order. */
  function Words(s: string): (r: seq<string>)
    ensures forall i :: 0 <= i < |r| ==> IsWord(r[i])
    ensures r == [] <==> AllSpace(s)
    decreases |s|
  {
    var t := LStrip(s);
    WordsStep(s, t);
    if t == [] then []
    else
      var w := TakeWord(t);
      var rest := Words(t[|w|..]);
      WordsCons(w, rest);
      [w] + rest
  }

  lemma WordsCons(w: string, rest: seq<string>)
    requires IsWord(w) && forall i :: 0 <= i < |rest| ==> IsWord(rest[i])
    ensures forall i :: 0 <= i < |[w] + rest| ==> IsWord(([w] + rest)[i])
  {
    forall i | 0 <= i < |[w] + rest|
      ensures IsWord(([w] + rest)[i])
    {
      if i > 0 {
        assert ([w] + rest)[i] == rest[i - 1];
      }
    }
  }

  /** What `Words` needs at each step: `s` is blank exactly when nothing is left after
      `lstrip`, and otherwise the leading word of what is left is a word. */
  lemma WordsStep(s: string, t: string)
    requires t == LStrip(s)
    ensures t == [] <==> AllSpace(s)
    ensures t != [] ==> IsWord(TakeWord(t))
  {
    var a := |s| - |t|;
    if t == [] {
      assert s[..a] == s;
    } else {
      assert s[a] == t[0];
      assert !IsSpace(s[a]);
      assert TakeWord(t) != [] by { assert !IsSpace(t[0]); }
    }
  }

  /** `lstrip` removes exactly a leading run of whitespace. */
  lemma {:induction false} LStripSpaces(ws: string, w: string)
    requires AllSpace(ws) && (w == [] || !IsSpace(w[0]))
    ensures LStrip(ws + w) == w
  {
    if ws != [] {
      assert (ws + w)[1..] == ws[1..] + w;
      LStripSpaces(ws[1..], w);
    } else {
      assert ws + w == w;
    }
  }

  /** A run without whitespace is its own leading word. */
  lemma {:induction false} TakeWordAll(w: string)
    requires NoSpace(w)
    ensures TakeWord(w) == w
  {
    if w != [] {
      TakeWordAll(w[1..]);
    }
  }

  /** Whitespace followed by one word splits into that word. */
  lemma WordsSingle(ws: string, w: string)
    requires AllSpace(ws) && IsWord(w)
    ensures Words(ws + w) == [w]
    ensures Strip(ws + w) == w
  {
    LStripSpaces(ws, w);
    TakeWordAll(w);
    assert w[|w|..] == [];
    assert Words([]) == [];
  }

  /** A run without whitespace that is followed by whitespace, or by nothing, is the
      leading word. */
  lemma {:induction false} TakeWordBefore(w: string, rest: string)
    requires NoSpace(w) && (rest == [] || IsSpace(rest[0]))
    ensures TakeWord(w + rest) == w
  {
    if w == [] {
      assert w + rest == rest;
    } else {
      assert (w + rest)[0] == w[0];
      assert (w + rest)[1..] == w[1..] + rest;
      assert NoSpace(w[1..]) by {
        forall k | 0 <= k < |w[1..]|
          ensures !IsSpace(w[1..][k])
        {
          assert w[1..][k] == w[k + 1];
        }
      }
      TakeWordBefore(w[1..], rest);
    }
  }

  /** `split()` reads words left to right: leading whitespace is skipped, and a word
      that ends at whitespace or at the end of the text is the first token, followed by
      the tokens of what comes after it. With `Words(ws) == []` for blank `ws`, this
      determines `split()` on every text. */
  lemma WordsAfter(ws: string, w: string, rest: string)
    requires AllSpace(ws) && IsWord(w) && (rest == [] || IsSpace(rest[0]))
    ensures Words(ws + w + rest) == [w] + Words(rest)
  {
    assert ws + w + rest == ws + (w + rest);
    assert (w + rest)[0] == w[0];
    LStripSpaces(ws, w + rest);
    TakeWordBefore(w, rest);
    assert (w + rest)[|w|..] == rest;
  }

  /** `s.split()[-1]`, defined when `s` is not all whitespace. */
  function LastWord(s: string): (w: string)
    requires !AllSpace(s)
    ensures IsWord(w)
  {
    var ws := Words(s);
    ws[|ws| - 1]
  }

  /** `split()[-1]` is the word that ends the text: a word preceded by nothing or by
      whitespace, and followed only by whitespace. */
  lemma {:induction false} LastWordEnds(p: string, w: string, t: string)
    requires p == [] || IsSpace(p[|p| - 1])
    requires IsWord(w) && AllSpace(t)
    ensures !AllSpace(p + w + t) && LastWord(p + w + t) == w
    decreases |p|
  {
    if AllSpace(p) {
      LastWordOnly(p, w, t);
    } else {
      var ws, w1, q := FirstWord(p);
      LastWordEnds(q, w, t);
      Regroup(p, ws, w1, q, w, t);
      LastWordPrepend(ws, w1, q, w + t);
    }
  }

  /** A blank text, a word and a blank text: the word is the only token. */
  lemma LastWordOnly(ws: string, w: string, t: string)
    requires AllSpace(ws) && IsWord(w) && AllSpace(t)
    ensures !AllSpace(ws + w + t) && LastWord(ws + w + t) == w
  {
    assert (ws + w + t)[|ws|] == w[0];
    if t != [] {
      assert IsSpace(t[0]);
    }
    WordsAfter(ws, w, t);
  }

  /** A text with a word that ends before its final whitespace character: the leading
      whitespace, the first word, and the rest, which is not empty and starts with whitespace. */
  lemma FirstWord(p: string) returns (ws: string, w: string, q: string)
    requires !AllSpace(p) && IsSpace(p[|p| - 1])
    ensures p == ws + w + q && AllSpace(ws) && IsWord(w)
    ensures q != [] && IsSpace(q[0]) && IsSpace(q[|q| - 1]) && |q| < |p|
  {
    var t := LStrip(p);
    WordsStep(p, t);
    w := TakeWord(t);
    ws, q := SplitAtWord(p, t, w);
  }

  lemma SplitAtWord(p: string, t: string, w: string) returns (ws: string, q: string)
    requires |t| <= |p| && t == p[|p| - |t|..] && AllSpace(p[..|p| - |t|])
    requires |w| <= |t| && w == t[..|w|] && (|w| == |t| || IsSpace(t[|w|]))
    requires IsWord(w) && IsSpace(p[|p| - 1])
    ensures p == ws + w + q && AllSpace(ws)
    ensures q != [] && IsSpace(q[0]) && IsSpace(q[|q| - 1]) && |q| < |p|
  {
    var a := |p| - |t|;
    HeadPlace(p, t, a, w);
    ws, q := p[..a], p[a + |w|..];
    assert p[a + |w| - 1] == w[|w| - 1];
    assert q[|q| - 1] == p[|p| - 1];
    assert p == ws + w + q;
  }

  lemma Regroup(p: string, ws: string, w1: string, q: string, w: string, t: string)
    requires p == ws + w1 + q
    ensures p + w + t == ws + w1 + (q + (w + t)) && q + w + t == q + (w + t)
  {
  }

  /** A word and whitespace in front of a text that has a token do not change its last token. */
  lemma LastWordPrepend(ws: string, w1: string, q: string, x: string)
    requires AllSpace(ws) && IsWord(w1) && q != [] && IsSpace(q[0]) && !AllSpace(q + x)
    ensures !AllSpace(ws + w1 + (q + x)) && LastWord(ws + w1 + (q + x)) == LastWord(q + x)
  {
    var s := ws + w1 + (q + x);
    assert s[|ws|] == w1[0];
    assert (q + x)[0] == q[0];
    WordsAfter(ws, w1, q + x);
    LastWordCons(s, w1, q + x);
  }

  /** The last token of `[w] + Words(u)`. */
  lemma LastWordCons(s: string, w: string, u: string)
    requires !AllSpace(s) && Words(s) == [w] + Words(u)
    ensures AllSpace(u) ==> LastWord(s) == w
    ensures !AllSpace(u) ==> LastWord(s) == LastWord(u)
  {
  }

  lemma HeadPlace(s: string, t: string, a: nat, w: string)
    requires |t| <= |s| && a == |s| - |t| && t == s[a..] && AllSpace(s[..a])
    requires |w| <= |t| && w == t[..|w|] && (|w| == |t| || IsSpace(t[|w|]))
    ensures a + |w| <= |s| && s[a..a + |w|] == w
    ensures a == 0 || IsSpace(s[a - 1])
    ensures a + |w| == |s| || IsSpace(s[a + |w|])
    ensures t[|w|..] == s[a + |w|..]
  {
    assert s[a..a + |w|] == t[..|w|];
    if a > 0 {
      assert s[..a][a - 1] == s[a - 1];
    }
  }
}
