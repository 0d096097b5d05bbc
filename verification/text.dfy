/**
 * The string operations the bot applies to message text and URLs:
 * Python's `str.split()` (no separator), `str.split(sep)` with a
 * one-character separator, and the attachment filename derived from a URL.
 */
module Text {

  /** The characters Python's `str.isspace()` accepts. */
  predicate IsSpace(c: char) {
    || c == ' ' || c == '\t' || c == '\n' || c == '\r' || c == '\U{B}' || c == '\U{C}'
    || ('\U{1C}' <= c <= '\U{1F}')
    || c == '\U{85}' || c == '\U{A0}' || c == '\U{1680}'
    || ('\U{2000}' <= c <= '\U{200A}')
    || c == '\U{2028}' || c == '\U{2029}' || c == '\U{202F}' || c == '\U{205F}' || c == '\U{3000}'
  }

  predicate SpaceFree(w: string) {
    forall k :: 0 <= k < |w| ==> !IsSpace(w[k])
  }

  /** `s[i..j]` is bounded on each side by whitespace or by an end of `s`. */
  ghost predicate Delimited(s: string, i: int, j: int) {
    && 0 <= i <= j <= |s|
    && (i == 0 || IsSpace(s[i - 1]))
    && (j == |s| || IsSpace(s[j]))
  }

  /** `w` occurs in `s` as a whole run, bounded by whitespace or the ends of `s`. */
  ghost predicate OccursDelimited(w: string, s: string) {
    exists i, j :: Delimited(s, i, j) && s[i..j] == w
  }

  /** Length of the longest whitespace-free prefix of `s`. */
  function WordLen(s: string): (n: nat)
    ensures n <= |s|
    ensures SpaceFree(s[..n])
    ensures n < |s| ==> IsSpace(s[n])
  {
    if |s| == 0 || IsSpace(s[0]) then 0 else 1 + WordLen(s[1..])
  }

  /** Python's `s.split()`: the maximal runs of non-whitespace, in order. */
  function Words(s: string): (ws: seq<string>)
    ensures forall k :: 0 <= k < |ws| ==> ws[k] != [] && SpaceFree(ws[k])
    decreases |s|
  {
    if |s| == 0 then []
    else if IsSpace(s[0]) then Words(s[1..])
    else
      var n := WordLen(s);
      [s[..n]] + Words(s[n..])
  }

  /** The characters of `s` that are not whitespace, in order. */
  function NonSpace(s: string): string {
    if |s| == 0 then []
    else if IsSpace(s[0]) then NonSpace(s[1..])
    else [s[0]] + NonSpace(s[1..])
  }

  function Concat(ws: seq<string>): string {
    if |ws| == 0 then [] else ws[0] + Concat(ws[1..])
  }

  /** `ws` joined by single spaces, Python's `' '.join(ws)`. */
  function Unwords(ws: seq<string>): string {
    if |ws| == 0 then []
    else if |ws| == 1 then ws[0]
    else ws[0] + " " + Unwords(ws[1..])
  }

  /** A delimited piece of a suffix `s[d..]` is a delimited piece of `s` when its left side stays delimited. */
  lemma ShiftDelimited(s: string, d: nat, i: int, j: int)
    requires d <= |s| && Delimited(s[d..], i, j)
    requires i > 0 || d == 0 || IsSpace(s[d - 1])
    ensures Delimited(s, i + d, j + d) && s[i + d..j + d] == s[d..][i..j]
  {
    if i > 0 {
      assert s[i + d - 1] == s[d..][i - 1];
      assert IsSpace(s[d..][i - 1]);
    }
    assert j + d == |s| || s[j + d] == s[d..][j];
    assert s[i + d..j + d] == s[d..][i..j];
  }

  /**
   * Every word of `s` is a contiguous piece of `s` with whitespace or an end
   * of `s` on each side; being whitespace-free, it is a maximal run.
   */
  lemma {:induction false} WordsOccur(s: string)
    ensures forall w :: w in Words(s) ==> OccursDelimited(w, s)
    decreases |s|
  {
    if |s| == 0 {
    } else if IsSpace(s[0]) {
      var t := s[1..];
      WordsOccur(t);
      forall w | w in Words(t) ensures OccursDelimited(w, s) {
        var i, j :| Delimited(t, i, j) && t[i..j] == w;
        ShiftDelimited(s, 1, i, j);
      }
    } else {
      var n := WordLen(s);
      var t := s[n..];
      WordsOccur(t);
      assert s[0..n] == s[..n];
      assert Delimited(s, 0, n);
      forall w | w in Words(t) ensures OccursDelimited(w, s) {
        var i, j :| Delimited(t, i, j) && t[i..j] == w;
        assert w[0] == t[i] && !IsSpace(t[i]);
        assert IsSpace(t[0]);
        ShiftDelimited(s, n, i, j);
      }
    }
  }

  /** A whitespace-free prefix followed by whitespace or the end is the one `WordLen` measures. */
  lemma {:induction false} WordLenOfRun(s: string, j: int)
    requires 0 < j <= |s| && SpaceFree(s[..j]) && (j == |s| || IsSpace(s[j]))
    ensures WordLen(s) == j
    decreases j
  {
    assert s[..j][0] == s[0];
    if j > 1 {
      assert s[1..][..j - 1] == s[..j][1..];
      assert j - 1 == |s[1..]| || s[1..][j - 1] == s[j];
      WordLenOfRun(s[1..], j - 1);
    }
  }

  /** The first word of `s` ends at or before any whitespace. */
  lemma {:induction false} WordLenBeforeSpace(s: string, p: int)
    requires 0 <= p < |s| && IsSpace(s[p])
    ensures WordLen(s) <= p
    decreases p
  {
    if !IsSpace(s[0]) {
      assert p > 0;
      WordLenBeforeSpace(s[1..], p - 1);
    }
  }

  /** Conversely, every maximal non-empty whitespace-free run of `s` is one of its words. */
  lemma {:induction false} DelimitedRunIsWord(s: string, i: int, j: int)
    requires Delimited(s, i, j) && i < j && SpaceFree(s[i..j])
    ensures s[i..j] in Words(s)
    decreases |s|
  {
    assert s[i..j][0] == s[i];
    if IsSpace(s[0]) {
      assert i > 0;
      ShiftDelimitedBack(s, 1, i, j);
      DelimitedRunIsWord(s[1..], i - 1, j - 1);
    } else {
      var n := WordLen(s);
      assert Words(s) == [s[..n]] + Words(s[n..]);
      if i == 0 {
        assert s[..j] == s[i..j];
        WordLenOfRun(s, j);
      } else {
        WordLenBeforeSpace(s, i - 1);
        ShiftDelimitedBack(s, n, i, j);
        DelimitedRunIsWord(s[n..], i - n, j - n);
      }
    }
  }

  /** A delimited piece of `s` lying at or after `d` is a delimited piece of `s[d..]`. */
  lemma ShiftDelimitedBack(s: string, d: nat, i: int, j: int)
    requires d <= i && Delimited(s, i, j)
    ensures Delimited(s[d..], i - d, j - d) && s[d..][i - d..j - d] == s[i..j]
  {
    assert i - d == 0 || s[d..][i - d - 1] == s[i - 1];
    assert j - d == |s[d..]| || s[d..][j - d] == s[j];
  }

  lemma {:induction false} NonSpaceAppend(a: string, b: string)
    ensures NonSpace(a + b) == NonSpace(a) + NonSpace(b)
    decreases |a|
  {
    if |a| == 0 {
      assert a + b == b;
    } else {
      assert (a + b)[1..] == a[1..] + b;
      NonSpaceAppend(a[1..], b);
    }
  }

  lemma {:induction false} NonSpaceOfSpaceFree(w: string)
    requires SpaceFree(w)
    ensures NonSpace(w) == w
    decreases |w|
  {
    if |w| > 0 {
      NonSpaceOfSpaceFree(w[1..]);
    }
  }

  /** Splitting loses only whitespace: the words, glued together, are the non-whitespace characters of `s`. */
  lemma {:induction false} WordsKeepAllText(s: string)
    ensures Concat(Words(s)) == NonSpace(s)
    decreases |s|
  {
    if |s| == 0 {
    } else if IsSpace(s[0]) {
      WordsKeepAllText(s[1..]);
    } else {
      var n := WordLen(s);
      var ws := Words(s);
      assert ws == [s[..n]] + Words(s[n..]);
      assert ws[1..] == Words(s[n..]);
      assert Concat(ws) == s[..n] + Concat(Words(s[n..]));
      WordsKeepAllText(s[n..]);
      assert s == s[..n] + s[n..];
      NonSpaceAppend(s[..n], s[n..]);
      NonSpaceOfSpaceFree(s[..n]);
    }
  }

  lemma {:induction false} WordLenOfWord(w: string, rest: string)
    requires SpaceFree(w)
    requires rest == [] || IsSpace(rest[0])
    ensures WordLen(w + rest) == |w|
    decreases |w|
  {
    if |w| == 0 {
      assert w + rest == rest;
    } else {
      assert (w + rest)[1..] == w[1..] + rest;
      WordLenOfWord(w[1..], rest);
    }
  }

  lemma WordsOfWordThenRest(w: string, rest: string)
    requires w != [] && SpaceFree(w)
    requires rest == [] || IsSpace(rest[0])
    ensures Words(w + rest) == [w] + Words(rest)
  {
    WordLenOfWord(w, rest);
    var s := w + rest;
    assert s[..|w|] == w;
    assert s[|w|..] == rest;
  }

  /** Round trip: splitting words joined by spaces gives the words back. */
  lemma {:induction false} WordsUnwords(ws: seq<string>)
    requires forall k :: 0 <= k < |ws| ==> ws[k] != [] && SpaceFree(ws[k])
    ensures Words(Unwords(ws)) == ws
    decreases |ws|
  {
    if |ws| == 0 {
    } else if |ws| == 1 {
      WordsOfWordThenRest(ws[0], []);
      assert ws[0] + [] == ws[0];
    } else {
      var tail := Unwords(ws[1..]);
      WordsUnwords(ws[1..]);
      assert ws[0] + " " + tail == ws[0] + (" " + tail);
      WordsOfWordThenRest(ws[0], " " + tail);
      assert (" " + tail)[1..] == tail;
    }
  }

  /** Python's `s.split(sep)` for a one-character separator: never empty, no piece holds `sep`. */
  function Split(s: string, sep: char): (parts: seq<string>)
    ensures |parts| >= 1
    ensures forall k :: 0 <= k < |parts| ==> sep !in parts[k]
  {
    if |s| == 0 then [""]
    else
      var rest := Split(s[1..], sep);
      if s[0] == sep then [""] + rest
      else [[s[0]] + rest[0]] + rest[1..]
  }

  /** Python's `sep.join(parts)`. */
  function Join(parts: seq<string>, sep: char): string {
    if |parts| == 0 then []
    else if |parts| == 1 then parts[0]
    else parts[0] + [sep] + Join(parts[1..], sep)
  }

  lemma {:induction false} JoinSplit(s: string, sep: char)
    ensures Join(Split(s, sep), sep) == s
    decreases |s|
  {
    if |s| > 0 {
      var rest := Split(s[1..], sep);
      JoinSplit(s[1..], sep);
      if s[0] == sep {
        assert Split(s, sep) == [""] + rest;
        assert ([""] + rest)[1..] == rest;
      } else {
        var parts := [[s[0]] + rest[0]] + rest[1..];
        assert Split(s, sep) == parts;
        if |rest| == 1 {
          assert Join(rest, sep) == rest[0];
        } else {
          assert parts[1..] == rest[1..];
          assert Join(rest, sep) == rest[0] + [sep] + Join(rest[1..], sep);
        }
      }
    }
  }

  lemma {:induction false} SplitJoin(parts: seq<string>, sep: char)
    requires |parts| >= 1
    requires forall k :: 0 <= k < |parts| ==> sep !in parts[k]
    ensures Split(Join(parts, sep), sep) == parts
    decreases |parts|, |parts[0]|
  {
    var head := parts[0];
    if |head| == 0 {
      if |parts| == 1 {
      } else {
        SplitJoin(parts[1..], sep);
        var s := Join(parts, sep);
        assert s == [sep] + Join(parts[1..], sep);
        assert s[1..] == Join(parts[1..], sep);
        assert parts == [""] + parts[1..];
      }
    } else {
      var shorter := [head[1..]] + parts[1..];
      assert shorter[1..] == parts[1..];
      SplitJoin(shorter, sep);
      var s := Join(parts, sep);
      if |parts| == 1 {
        assert s[1..] == Join(shorter, sep);
      } else {
        assert s == head + [sep] + Join(parts[1..], sep);
        assert s[1..] == head[1..] + [sep] + Join(parts[1..], sep);
        assert s[1..] == Join(shorter, sep);
      }
      assert s[0] == head[0] && head[0] != sep;
      assert [head[0]] + head[1..] == head;
      assert parts == [head] + parts[1..];
    }
  }

  lemma {:induction false} SplitWithoutSep(s: string, sep: char)
    requires sep !in s
    ensures Split(s, sep) == [s]
    decreases |s|
  {
    if |s| > 0 {
      SplitWithoutSep(s[1..], sep);
      assert [s[0]] + s[1..] == s;
    }
  }

  /** The first piece of a split is the prefix of `s` up to the first `sep`. */
  lemma {:induction false} SplitFirstIsPrefix(s: string, sep: char)
    ensures var p := Split(s, sep)[0];
      |p| <= |s| && p == s[..|p|] && (|p| == |s| || s[|p|] == sep)
    decreases |s|
  {
    if |s| > 0 {
      SplitFirstIsPrefix(s[1..], sep);
    }
  }

  function Last(parts: seq<string>): string
    requires |parts| >= 1
  {
    parts[|parts| - 1]
  }

  lemma {:induction false} SplitWithSep(s: string, sep: char)
    requires sep in s
    ensures |Split(s, sep)| >= 2
    decreases |s|
  {
    if s[0] != sep {
      SplitWithSep(s[1..], sep);
    }
  }

  /** Peeling the first character off `s` keeps the last piece when a separator follows it. */
  lemma SplitLastOfTail(s: string, sep: char)
    requires |s| > 0 && sep in s[1..]
    ensures |Split(s[1..], sep)| >= 2
    ensures Last(Split(s, sep)) == Last(Split(s[1..], sep))
  {
    var rest := Split(s[1..], sep);
    SplitWithSep(s[1..], sep);
    if s[0] == sep {
      assert Split(s, sep) == [""] + rest;
    } else {
      assert Split(s, sep) == [[s[0]] + rest[0]] + rest[1..];
    }
  }

  /** Without a separator after the first character, the last piece is all of `s`, or all but a leading separator. */
  lemma SplitLastNoSepInTail(s: string, sep: char)
    requires |s| > 0 && sep !in s[1..]
    ensures Last(Split(s, sep)) == if s[0] == sep then s[1..] else s
  {
    SplitWithoutSep(s[1..], sep);
    if s[0] != sep {
      assert s == [s[0]] + s[1..];
    }
  }

  /** The last piece of a split is the suffix of `s` after the last `sep`. */
  lemma {:induction false} SplitLastIsSuffix(s: string, sep: char)
    ensures |Last(Split(s, sep))| <= |s|
    ensures Last(Split(s, sep)) == s[|s| - |Last(Split(s, sep))|..]
    ensures |Last(Split(s, sep))| == |s| || s[|s| - |Last(Split(s, sep))| - 1] == sep
    decreases |s|
  {
    if |s| > 0 {
      var t := s[1..];
      if sep !in t {
        SplitLastNoSepInTail(s, sep);
      } else {
        SplitLastIsSuffix(t, sep);
        SplitLastOfTail(s, sep);
        var q := Last(Split(t, sep));
        assert q != t;
        assert s[|s| - |q|..] == t[|t| - |q|..];
        assert s[|s| - |q| - 1] == t[|t| - |q| - 1];
      }
    }
  }

  /**
   * The filename given to a re-uploaded audio file: the last `/`-separated
   * segment of the URL, cut at its first `?`.
   */
  function Filename(url: string): (name: string)
    ensures '/' !in name && '?' !in name
  {
    var last := Last(Split(url, '/'));
    var name := Split(last, '?')[0];
    SplitFirstIsPrefix(last, '?');
    assert forall k :: 0 <= k < |name| ==> name[k] == last[k];
    name
  }

  /**
   * `url[i..j]` starts right after the last `/` of `url` (or at its start) and
   * ends right before the first `?` after that (or at its end).
   */
  ghost predicate LastSegmentSpan(url: string, i: int, j: int) {
    && 0 <= i <= j <= |url|
    && (i == 0 || url[i - 1] == '/') && '/' !in url[i..]
    && '?' !in url[i..j] && (j == |url| || url[j] == '?')
  }

  /**
   * The filename is the piece of the URL that starts right after its last `/`
   * (or at its start) and ends right before the first `?` after that (or at its end).
   */
  lemma FilenameIsLastSegment(url: string)
    ensures exists i, j :: LastSegmentSpan(url, i, j) && Filename(url) == url[i..j]
  {
    var last := Last(Split(url, '/'));
    SplitLastIsSuffix(url, '/');
    var i := |url| - |last|;
    SplitFirstIsPrefix(last, '?');
    var name := Split(last, '?')[0];
    var j := i + |name|;
    assert url[i..] == last;
    assert url[i..j] == name;
    assert j == |url| || url[j] == last[|name|] == '?';
    assert '/' !in url[i..];
    assert i == 0 || url[i - 1] == '/';
    assert LastSegmentSpan(url, i, j);
  }

}
