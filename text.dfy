/**
 * The string handling the updater relies on, as Python defines it:
 * `str.splitlines()`, `str.split()` with no separator, `str.strip()` and
 * the `in` test for substrings.
 */
module Text {

  /** Python's `str.isspace()`: what `split()` and `strip()` treat as whitespace. */
  predicate IsSpace(c: char)
  {
    c == ' ' || '\t' <= c <= '\r' || '\U{1C}' <= c <= '\U{1F}' || c == '\U{85}' || c == '\U{A0}'
    || c == '\U{1680}' || '\U{2000}' <= c <= '\U{200A}' || c == '\U{2028}' || c == '\U{2029}'
    || c == '\U{202F}' || c == '\U{205F}' || c == '\U{3000}'
  }

  /** The line boundaries of Python's `str.splitlines()` (`\r\n` counts as one boundary). */
  predicate IsLineBreak(c: char)
  {
    '\n' <= c <= '\r' || '\U{1C}' <= c <= '\U{1E}' || c == '\U{85}' || c == '\U{2028}' || c == '\U{2029}'
  }

  /** A field produced by `split()`: non-empty and free of whitespace. */
  predicate IsToken(w: string)
  {
    w != [] && forall i :: 0 <= i < |w| ==> !IsSpace(w[i])
  }

  /** A line produced by `splitlines()`: free of line boundaries. */
  predicate IsLine(l: string)
  {
    forall i :: 0 <= i < |l| ==> !IsLineBreak(l[i])
  }

  /** `sub` occurs in `s` starting at index `i`. */
  ghost predicate OccursAt(sub: string, s: string, i: int)
  {
    0 <= i <= |s| - |sub| && s[i..i + |sub|] == sub
  }

  /** `sub in s` in Python. */
  ghost predicate IsSubstring(sub: string, s: string)
  {
    exists i :: OccursAt(sub, s, i)
  }

  /** The index of the first character of `s` satisfying `stop`, or `|s|` when there is none. */
  function Until(s: string, stop: char -> bool): (n: nat)
    ensures n <= |s|
    ensures forall i :: 0 <= i < n ==> !stop(s[i])
    ensures n < |s| ==> stop(s[n])
  {
    if s == [] || stop(s[0]) then 0 else 1 + Until(s[1..], stop)
  }

  /** The first stop character is found right after a stretch that holds none. */
  lemma {:induction false} UntilAt(a: string, b: string, stop: char -> bool)
    requires forall i :: 0 <= i < |a| ==> !stop(a[i])
    requires b != [] && stop(b[0])
    ensures Until(a + b, stop) == |a|
  {
    if a != [] {
      assert (a + b)[0] == a[0];
      assert (a + b)[1..] == a[1..] + b;
      UntilAt(a[1..], b, stop);
    }
  }

  /** A substring of a suffix of `s` is a substring of `s`. */
  lemma SubstringOfSuffix(sub: string, s: string, m: nat)
    requires m <= |s|
    requires IsSubstring(sub, s[m..])
    ensures IsSubstring(sub, s)
  {
    var i :| OccursAt(sub, s[m..], i);
    assert s[m + i..m + i + |sub|] == sub;
    assert OccursAt(sub, s, m + i);
  }

  /** `sub` occurs in `s` away from position 0 exactly when it occurs in `s[1..]`. */
  lemma SubstringOfTail(sub: string, s: string)
    requires |sub| <= |s| && s[..|sub|] != sub
    ensures IsSubstring(sub, s) <==> IsSubstring(sub, s[1..])
  {
    if IsSubstring(sub, s) {
      var i :| OccursAt(sub, s, i);
      assert i != 0;
      assert s[1..][i - 1..i - 1 + |sub|] == sub;
      assert OccursAt(sub, s[1..], i - 1);
    }
    if IsSubstring(sub, s[1..]) {
      SubstringOfSuffix(sub, s, 1);
    }
  }

  /** `sub in s`, computed by scanning `s` from the left. */
  function Contains(s: string, sub: string): (b: bool)
    ensures b <==> IsSubstring(sub, s)
    decreases |s|
  {
    if |sub| > |s| then false
    else if s[..|sub|] == sub then assert OccursAt(sub, s, 0); true
    else SubstringOfTail(sub, s); Contains(s[1..], sub)
  }

  /** `s.splitlines()`: the lines of `s`, without their boundaries; no trailing empty line. */
  function Lines(s: string): (r: seq<string>)
    ensures forall i :: 0 <= i < |r| ==> IsLine(r[i])
    decreases |s|
  {
    if s == [] then []
    else
      var n := Until(s, IsLineBreak);
      if n == |s| then [s]
      else
        var next := if s[n] == '\r' && n + 1 < |s| && s[n + 1] == '\n' then n + 2 else n + 1;
        [s[..n]] + Lines(s[next..])
  }

  /** Each line followed by a newline: a listing as a provider would send it. */
  function JoinLines(ls: seq<string>): string
  {
    if ls == [] then [] else ls[0] + "\n" + JoinLines(ls[1..])
  }

  /** Splitting newline-terminated lines gives the lines back. */
  lemma {:induction false} LinesOfJoinLines(ls: seq<string>)
    requires forall i :: 0 <= i < |ls| ==> IsLine(ls[i])
    ensures Lines(JoinLines(ls)) == ls
  {
    if ls != [] {
      var rest := JoinLines(ls[1..]);
      var s := JoinLines(ls);
      assert s == ls[0] + ("\n" + rest);
      assert IsLine(ls[0]);
      UntilAt(ls[0], "\n" + rest, IsLineBreak);
      assert s[|ls[0]|] == '\n';
      assert s[|ls[0]| + 1..] == rest;
      assert s[..|ls[0]|] == ls[0];
      LinesOfJoinLines(ls[1..]);
    }
  }

  /** `s.split()`: the maximal runs of non-whitespace characters of `s`, in order. */
  function Words(s: string): (r: seq<string>)
    ensures forall i :: 0 <= i < |r| ==> IsToken(r[i])
    decreases |s|
  {
    if s == [] then []
    else if IsSpace(s[0]) then Words(s[1..])
    else
      var n := Until(s, IsSpace);
      [s[..n]] + Words(s[n..])
  }

  /** A run of one or more whitespace characters, as may separate the fields of a line. */
  predicate IsGap(g: string)
  {
    g != [] && forall i :: 0 <= i < |g| ==> IsSpace(g[i])
  }

  /** Each word followed by its own separator. */
  function Spaced(ws: seq<string>, gaps: seq<string>): string
    requires |gaps| == |ws|
  {
    if ws == [] then [] else ws[0] + (gaps[0] + Spaced(ws[1..], gaps[1..]))
  }

  /** `split()` skips a leading whitespace character. */
  lemma WordsAfterSpace(c: char, t: string)
    requires IsSpace(c)
    ensures Words([c] + t) == Words(t)
  {
    assert ([c] + t)[1..] == t;
  }

  /** `split()` skips leading whitespace, however long. */
  lemma {:induction false} WordsAfterGap(g: string, t: string)
    requires forall i :: 0 <= i < |g| ==> IsSpace(g[i])
    ensures Words(g + t) == Words(t)
  {
    if g != [] {
      WordsAfterGap(g[1..], t);
      assert g + t == [g[0]] + (g[1..] + t);
      WordsAfterSpace(g[0], g[1..] + t);
    } else {
      assert g + t == t;
    }
  }

  /** `split()` returns a leading token ended by whitespace as its first field. */
  lemma WordsAfterToken(w: string, t: string)
    requires IsToken(w)
    requires t != [] && IsSpace(t[0])
    ensures Words(w + t) == [w] + Words(t)
  {
    var s := w + t;
    UntilAt(w, t, IsSpace);
    assert s[0] == w[0];
    assert s[..|w|] == w;
    assert s[|w|..] == t;
  }

  /** A token, a run of whitespace, then any text: `split()` yields the token and the fields of the text. */
  lemma WordsOfTokenGap(w: string, g: string, tail: string)
    requires IsToken(w) && IsGap(g)
    ensures Words(w + (g + tail)) == [w] + Words(tail)
  {
    WordsAfterToken(w, g + tail);
    WordsAfterGap(g, tail);
  }

  /** Spaced words of a non-empty list: the first word, its separator, then the rest. */
  lemma SpacedCons(ws: seq<string>, gaps: seq<string>, rest: string)
    requires |gaps| == |ws| && ws != []
    ensures Spaced(ws, gaps) + rest == ws[0] + (gaps[0] + (Spaced(ws[1..], gaps[1..]) + rest))
  {
    var tail := Spaced(ws[1..], gaps[1..]);
    assert Spaced(ws, gaps) == ws[0] + (gaps[0] + tail);
    TextAssoc(ws[0], gaps[0], tail, rest);
  }

  /** Appending text after a word, its separator and the rest of a line. */
  lemma TextAssoc(w: string, g: string, tail: string, rest: string)
    ensures (w + (g + tail)) + rest == w + (g + (tail + rest))
  {
  }

  /**
   * Splitting tokens separated by runs of whitespace gives the tokens back,
   * whatever text follows them.
   */
  lemma {:induction false} WordsOfSpaced(ws: seq<string>, gaps: seq<string>, rest: string)
    requires |gaps| == |ws|
    requires forall i :: 0 <= i < |ws| ==> IsToken(ws[i]) && IsGap(gaps[i])
    ensures Words(Spaced(ws, gaps) + rest) == ws + Words(rest)
  {
    if ws != [] {
      var tail := Spaced(ws[1..], gaps[1..]) + rest;
      calc {
        Words(Spaced(ws, gaps) + rest);
        { SpacedCons(ws, gaps, rest); }
        Words(ws[0] + (gaps[0] + tail));
        { WordsOfTokenGap(ws[0], gaps[0], tail); }
        [ws[0]] + Words(tail);
        { WordsOfSpaced(ws[1..], gaps[1..], rest); }
        [ws[0]] + (ws[1..] + Words(rest));
        { assert [ws[0]] + (ws[1..] + Words(rest)) == ([ws[0]] + ws[1..]) + Words(rest); }
        ([ws[0]] + ws[1..]) + Words(rest);
        { assert ws == [ws[0]] + ws[1..]; }
        ws + Words(rest);
      }
    } else {
      assert Spaced(ws, gaps) + rest == rest;
    }
  }

  /** A single token is its own only field. */
  lemma WordsOfToken(w: string)
    requires IsToken(w)
    ensures Words(w) == [w]
  {
    assert w[..|w|] == w && w[|w|..] == [];
  }

  /** Every field `split()` returns occurs in the line it came from. */
  lemma {:induction false} WordsAreSubstrings(s: string, k: nat)
    requires k < |Words(s)|
    ensures IsSubstring(Words(s)[k], s)
    decreases |s|
  {
    if IsSpace(s[0]) {
      WordsAreSubstrings(s[1..], k);
      SubstringOfSuffix(Words(s)[k], s, 1);
    } else {
      var n := Until(s, IsSpace);
      if k == 0 {
        assert OccursAt(Words(s)[0], s, 0);
      } else {
        WordsAreSubstrings(s[n..], k - 1);
        SubstringOfSuffix(Words(s)[k], s, n);
      }
    }
  }

  /** How many characters at the start of `s` satisfy `drop`. */
  function Leading(s: string, drop: char -> bool): (n: nat)
    ensures n <= |s|
    ensures forall i :: 0 <= i < n ==> drop(s[i])
    ensures n < |s| ==> !drop(s[n])
  {
    if s == [] || !drop(s[0]) then 0 else 1 + Leading(s[1..], drop)
  }

  /** How many characters at the end of `s` satisfy `drop`. */
  function Trailing(s: string, drop: char -> bool): (n: nat)
    ensures n <= |s|
    ensures forall i :: |s| - n <= i < |s| ==> drop(s[i])
    ensures n < |s| ==> !drop(s[|s| - n - 1])
  {
    if s == [] || !drop(s[|s| - 1]) then 0 else 1 + Trailing(s[..|s| - 1], drop)
  }

  /** `s.lstrip(chars)`, with the characters to drop given by `drop`. */
  function TrimStart(s: string, drop: char -> bool): string
  {
    s[Leading(s, drop)..]
  }

  /** `s.rstrip(chars)`, with the characters to drop given by `drop`. */
  function TrimEnd(s: string, drop: char -> bool): string
  {
    s[..|s| - Trailing(s, drop)]
  }

  /** `s` is `r` with nothing but `drop` characters before index `a` and after `r`. */
  ghost predicate PaddedAt(s: string, a: int, r: string, drop: char -> bool)
  {
    0 <= a <= |s| - |r| && s[a..a + |r|] == r
    && (forall i :: 0 <= i < a ==> drop(s[i]))
    && (forall i :: a + |r| <= i < |s| ==> drop(s[i]))
  }

  /** Trimming both ends leaves only dropped characters around the result. */
  lemma TrimmedIsPadded(s: string, drop: char -> bool)
    ensures var t := TrimStart(s, drop); var r := TrimEnd(t, drop);
            && PaddedAt(s, |s| - |t|, r, drop)
            && (r == [] || (!drop(r[0]) && !drop(r[|r| - 1])))
  {
    var a := Leading(s, drop);
    var t := s[a..];
    var m := Trailing(t, drop);
    var r := t[..|t| - m];
    assert s[a..a + |r|] == r;
    forall i | a + |r| <= i < |s| ensures drop(s[i]) {
      assert s[i] == t[i - a];
    }
    if r != [] {
      assert r[0] == s[a];
      assert r[|r| - 1] == t[|t| - m - 1];
    }
  }

  /** `s.strip()`: `s` without its leading and trailing whitespace. */
  function Strip(s: string): (r: string)
    ensures r == [] || (!IsSpace(r[0]) && !IsSpace(r[|r| - 1]))
    ensures exists a :: PaddedAt(s, a, r, IsSpace)
  {
    TrimmedIsPadded(s, IsSpace);
    TrimEnd(TrimStart(s, IsSpace), IsSpace)
  }

  /** Removing padding from around a text that neither starts nor ends with padding gives that text back. */
  lemma TrimPadded(pre: string, w: string, post: string, drop: char -> bool)
    requires forall i :: 0 <= i < |pre| ==> drop(pre[i])
    requires forall i :: 0 <= i < |post| ==> drop(post[i])
    requires w == [] || (!drop(w[0]) && !drop(w[|w| - 1]))
    ensures TrimEnd(TrimStart(pre + w + post, drop), drop) == w
  {
    var s := pre + w + post;
    TrimmedIsPadded(s, drop);
    var r := TrimEnd(TrimStart(s, drop), drop);
    var a := |s| - |TrimStart(s, drop)|;
    assert forall i :: 0 <= i < |pre| ==> s[i] == pre[i];
    assert forall i :: |pre| + |w| <= i < |s| ==> drop(s[i]) by {
      forall i | |pre| + |w| <= i < |s| ensures drop(s[i]) {
        assert s[i] == post[i - |pre| - |w|];
      }
    }
    if w == [] {
      assert forall i :: 0 <= i < |s| ==> drop(s[i]);
    } else {
      assert s[|pre|] == w[0];
      assert s[|pre| + |w| - 1] == w[|w| - 1];
      assert a == |pre|;
      assert a + |r| == |pre| + |w|;
      assert s[|pre|..|pre| + |w|] == w;
    }
  }

  /** Stripping whitespace padded around a text without outer whitespace gives that text back. */
  lemma StripPadded(pre: string, w: string, post: string)
    requires forall i :: 0 <= i < |pre| ==> IsSpace(pre[i])
    requires forall i :: 0 <= i < |post| ==> IsSpace(post[i])
    requires w == [] || (!IsSpace(w[0]) && !IsSpace(w[|w| - 1]))
    ensures Strip(pre + w + post) == w
  {
    TrimPadded(pre, w, post, IsSpace);
  }
}
