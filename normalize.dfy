/**
  Text normalisation: `clean_text`, which lowercases its input and replaces
  every run of whitespace (the regular expression `\s+`) by one space.
  Lowercasing is modelled for ASCII letters; whitespace is Python's `\s`
  on `str` patterns, i.e. every character `str.isspace()` accepts.
 */
module Normalize {

  predicate IsAsciiUpper(c: char) { 'A' <= c <= 'Z' }

  predicate IsAsciiLower(c: char) { 'a' <= c <= 'z' }

  predicate IsAsciiLetter(c: char) { IsAsciiUpper(c) || IsAsciiLower(c) }

  /** Python's `\s`: ASCII tab to carriage return, the four ASCII separators
      U+001C..U+001F, space, and the Unicode space and line separators. */
  predicate IsSpace(c: char)
  {
    || '\t' <= c <= '\r'
    || '\U{1C}' <= c <= ' '
    || c == '\U{85}' || c == '\U{A0}' || c == '\U{1680}'
    || '\U{2000}' <= c <= '\U{200A}'
    || c == '\U{2028}' || c == '\U{2029}' || c == '\U{202F}' || c == '\U{205F}'
    || c == '\U{3000}'
  }

  /** `str.lower()` on one character, for the ASCII range. */
  function LowerChar(c: char): (d: char)
    ensures !IsAsciiUpper(d)
    ensures IsAsciiLetter(d) <==> IsAsciiLetter(c)
    ensures IsAsciiUpper(c) ==> d as int - c as int == 'a' as int - 'A' as int
    ensures !IsAsciiUpper(c) ==> d == c
  {
    if IsAsciiUpper(c) then (c as int - 'A' as int + 'a' as int) as char else c
  }

  /** `str.lower()`: characterwise. */
  function Lower(s: string): (r: string)
    ensures |r| == |s|
    ensures forall i :: 0 <= i < |s| ==> r[i] == LowerChar(s[i])
  {
    seq(|s|, i requires 0 <= i < |s| => LowerChar(s[i]))
  }

  predicate NoUpper(s: string)
  {
    forall i :: 0 <= i < |s| ==> !IsAsciiUpper(s[i])
  }

  lemma LowerOfLowercase(s: string)
    requires NoUpper(s)
    ensures Lower(s) == s
  {
  }

  lemma LowerAppend(a: string, b: string)
    ensures Lower(a + b) == Lower(a) + Lower(b)
  {
  }

  lemma LowerSlice(s: string, i: nat, j: nat)
    requires i <= j <= |s|
    ensures Lower(s)[i..j] == Lower(s[i..j])
  {
  }

  /** The end of the run of whitespace that starts at `i`. */
  function SpaceRunEnd(s: string, i: nat): (j: nat)
    requires i <= |s|
    ensures i <= j <= |s|
    ensures forall k :: i <= k < j ==> IsSpace(s[k])
    ensures j < |s| ==> !IsSpace(s[j])
    decreases |s| - i
  {
    if i < |s| && IsSpace(s[i]) then SpaceRunEnd(s, i + 1) else i
  }

  /** The length of the run of whitespace at the front of `s`. */
  function SpaceRunLength(s: string): (n: nat)
    ensures n <= |s|
    ensures forall k :: 0 <= k < n ==> IsSpace(s[k])
    ensures n < |s| ==> !IsSpace(s[n])
  {
    SpaceRunEnd(s, 0)
  }

  /** The end of the run of non-whitespace that starts at `i`. */
  function TextRunEnd(s: string, i: nat): (j: nat)
    requires i <= |s|
    ensures i <= j <= |s|
    ensures forall k :: i <= k < j ==> !IsSpace(s[k])
    ensures j < |s| ==> IsSpace(s[j])
    decreases |s| - i
  {
    if i < |s| && !IsSpace(s[i]) then TextRunEnd(s, i + 1) else i
  }

  /** The length of the run of non-whitespace at the front of `s`. */
  function TextRunLength(s: string): (n: nat)
    ensures n <= |s|
    ensures forall k :: 0 <= k < n ==> !IsSpace(s[k])
    ensures n < |s| ==> IsSpace(s[n])
  {
    TextRunEnd(s, 0)
  }

  /** `re.sub(r'\s+', ' ', s)`: each maximal run of whitespace, scanning
      from the left, becomes a single space. */
  function CollapseWhitespace(s: string): string
    decreases |s|
  {
    if s == [] then []
    else if IsSpace(s[0]) then
      var n := SpaceRunLength(s);
      [' '] + CollapseWhitespace(s[n..])
    else
      [s[0]] + CollapseWhitespace(s[1..])
  }

  /** The result has no whitespace but single spaces, adds no other
      character, and starts and ends with a space exactly when the input
      starts and ends with whitespace. */
  lemma {:induction false} CollapseNormalForm(s: string)
    ensures var r := CollapseWhitespace(s);
      && (forall i :: 0 <= i < |r| && IsSpace(r[i]) ==> r[i] == ' ')
      && (forall i :: 0 <= i < |r| - 1 ==> !(r[i] == ' ' && r[i + 1] == ' '))
      && (forall c :: c in r ==> c == ' ' || c in s)
      && |r| <= |s|
      && (r == [] <==> s == [])
      && (s != [] ==> (IsSpace(s[0]) <==> r[0] == ' '))
      && (s != [] ==> (IsSpace(s[|s| - 1]) <==> r[|r| - 1] == ' '))
    decreases |s|
  {
    if s != [] {
      var r := CollapseWhitespace(s);
      if IsSpace(s[0]) {
        var n := SpaceRunLength(s);
        CollapseNormalForm(s[n..]);
        assert r == [' '] + CollapseWhitespace(s[n..]);
        if n < |s| {
          assert s[|s| - 1] == s[n..][|s[n..]| - 1];
        }
        forall c | c in r ensures c == ' ' || c in s {
          if c != ' ' {
            assert c in CollapseWhitespace(s[n..]);
            assert c in s[n..];
          }
        }
      } else {
        CollapseNormalForm(s[1..]);
        assert r == [s[0]] + CollapseWhitespace(s[1..]);
        if 1 < |s| {
          assert s[|s| - 1] == s[1..][|s[1..]| - 1];
        }
        forall c | c in r ensures c == ' ' || c in s {
          if c != s[0] {
            assert c in CollapseWhitespace(s[1..]);
            assert c == ' ' || c in s[1..];
          }
        }
      }
    }
  }

  /** `clean_text(text)`. */
  function CleanText(text: string): (r: string)
    ensures forall i :: 0 <= i < |r| && IsSpace(r[i]) ==> r[i] == ' '
    ensures forall i :: 0 <= i < |r| - 1 ==> !(r[i] == ' ' && r[i + 1] == ' ')
    ensures NoUpper(r)
    ensures r == [] <==> text == []
    ensures text != [] ==> (IsSpace(text[0]) <==> r[0] == ' ')
    ensures text != [] ==> (IsSpace(text[|text| - 1]) <==> r[|r| - 1] == ' ')
  {
    var lowered := Lower(text);
    var r := CollapseWhitespace(lowered);
    CollapseNormalForm(lowered);
    assert NoUpper(r) by {
      forall i | 0 <= i < |r| ensures !IsAsciiUpper(r[i]) {
        assert r[i] in r;
      }
    }
    r
  }

  /** The non-whitespace characters of `s`, in order. */
  function NonSpace(s: string): string
    decreases |s|
  {
    if s == [] then []
    else if IsSpace(s[0]) then NonSpace(s[1..])
    else [s[0]] + NonSpace(s[1..])
  }

  lemma {:induction false} NonSpaceSkipsRun(s: string, n: nat)
    requires n <= |s|
    requires forall k :: 0 <= k < n ==> IsSpace(s[k])
    ensures NonSpace(s) == NonSpace(s[n..])
    decreases n
  {
    if n > 0 {
      NonSpaceSkipsRun(s[1..], n - 1);
      assert s[1..][n - 1..] == s[n..];
    }
  }

  /** Collapsing whitespace keeps every other character, in order. */
  lemma {:induction false} CollapseKeepsContent(s: string)
    ensures NonSpace(CollapseWhitespace(s)) == NonSpace(s)
    decreases |s|
  {
    if s != [] {
      if IsSpace(s[0]) {
        var n := SpaceRunLength(s);
        CollapseKeepsContent(s[n..]);
        NonSpaceSkipsRun(s, n);
        var t := CollapseWhitespace(s[n..]);
        assert ([' '] + t)[1..] == t;
      } else {
        CollapseKeepsContent(s[1..]);
        var t := CollapseWhitespace(s[1..]);
        assert ([s[0]] + t)[1..] == t;
      }
    }
  }

  /** Text already in normal form is left unchanged. */
  lemma {:induction false} CollapseFixesNormalForm(s: string)
    requires forall i :: 0 <= i < |s| && IsSpace(s[i]) ==> s[i] == ' '
    requires forall i :: 0 <= i < |s| - 1 ==> !(s[i] == ' ' && s[i + 1] == ' ')
    ensures CollapseWhitespace(s) == s
    decreases |s|
  {
    if s != [] {
      assert s[1..] == [] || s[1..][0] == s[1];
      CollapseFixesNormalForm(s[1..]);
      if IsSpace(s[0]) {
        assert SpaceRunLength(s) == 1 by {
          if |s| > 1 { assert !IsSpace(s[1]); }
        }
      }
      assert s == [s[0]] + s[1..];
    }
  }

  /** A front run of non-whitespace is copied unchanged. */
  lemma {:induction false} CollapseKeepsTextRun(s: string, n: nat)
    requires n <= |s|
    requires forall k :: 0 <= k < n ==> !IsSpace(s[k])
    ensures CollapseWhitespace(s) == s[..n] + CollapseWhitespace(s[n..])
    decreases n
  {
    if n > 0 {
      CollapseLetterHead(s);
      TailOfTextRun(s, n);
      CollapseKeepsTextRun(s[1..], n - 1);
      TextRunGlue(s, n, CollapseWhitespace(s[n..]));
    }
  }

  lemma TailOfTextRun(s: string, n: nat)
    requires 1 <= n <= |s|
    requires forall k :: 0 <= k < n ==> !IsSpace(s[k])
    ensures forall k :: 0 <= k < n - 1 ==> !IsSpace(s[1..][k])
  {
    forall k | 0 <= k < n - 1 ensures !IsSpace(s[1..][k]) {
      assert s[1..][k] == s[k + 1];
    }
  }

  lemma TextRunGlue(s: string, n: nat, x: string)
    requires 1 <= n <= |s|
    ensures s[1..][n - 1..] == s[n..]
    ensures [s[0]] + (s[1..][..n - 1] + x) == s[..n] + x
  {
    assert s[..n] == [s[0]] + s[1..][..n - 1];
  }

  /** A run that stops at `j` is the run `SpaceRunEnd` finds. */
  lemma {:induction false} SpaceRunEndAt(s: string, i: nat, j: nat)
    requires i <= j <= |s|
    requires forall k :: i <= k < j ==> IsSpace(s[k])
    requires j < |s| ==> !IsSpace(s[j])
    ensures SpaceRunEnd(s, i) == j
    decreases j - i
  {
    if i < j { SpaceRunEndAt(s, i + 1, j); }
  }

  /** A text that does not end in whitespace collapses independently of
      what follows it. */
  lemma {:induction false} CollapseAppend(u: string, t: string)
    requires u == [] || !IsSpace(u[|u| - 1])
    ensures CollapseWhitespace(u + t) == CollapseWhitespace(u) + CollapseWhitespace(t)
    decreases |u|, 1
  {
    if u == [] {
      AppendToEmpty(u, t);
    } else if IsSpace(u[0]) {
      AppendAfterSpaces(u, t);
    } else {
      AppendAfterLetter(u, t);
    }
  }

  lemma AppendToEmpty(u: string, t: string)
    requires u == []
    ensures CollapseWhitespace(u + t) == CollapseWhitespace(u) + CollapseWhitespace(t)
  {
    assert u + t == t;
    assert CollapseWhitespace(u) == [];
  }

  lemma {:induction false} AppendAfterSpaces(u: string, t: string)
    requires u != [] && IsSpace(u[0]) && !IsSpace(u[|u| - 1])
    ensures CollapseWhitespace(u + t) == CollapseWhitespace(u) + CollapseWhitespace(t)
    decreases |u|, 0
  {
    var n := SpaceRunLength(u);
    AppendShape(u, t, n);
    CollapseAppend(u[n..], t);
    AppendSpaceStep(u, t, n);
  }

  lemma {:induction false} AppendAfterLetter(u: string, t: string)
    requires u != [] && !IsSpace(u[0]) && !IsSpace(u[|u| - 1])
    ensures CollapseWhitespace(u + t) == CollapseWhitespace(u) + CollapseWhitespace(t)
    decreases |u|, 0
  {
    AppendShape(u, t, 1);
    CollapseAppend(u[1..], t);
    AppendLetterStep(u, t);
  }

  /** Dropping a front part of `u` that stops before its end. */
  lemma AppendShape(u: string, t: string, n: nat)
    requires 1 <= n <= |u| && !IsSpace(u[|u| - 1])
    requires n < |u| || n == 1
    ensures (u + t)[n..] == u[n..] + t
    ensures (u + t)[0] == u[0]
    ensures u[n..] == [] || !IsSpace(u[n..][|u[n..]| - 1])
  {
  }

  lemma AppendSpaceStep(u: string, t: string, n: nat)
    requires u != [] && IsSpace(u[0]) && n == SpaceRunLength(u) && n < |u|
    requires (u + t)[n..] == u[n..] + t && (u + t)[0] == u[0]
    requires CollapseWhitespace(u[n..] + t) == CollapseWhitespace(u[n..]) + CollapseWhitespace(t)
    ensures CollapseWhitespace(u + t) == CollapseWhitespace(u) + CollapseWhitespace(t)
  {
    RunOfAppend(u, t, n);
    CollapseSpaceHead(u + t, n);
    CollapseSpaceHead(u, n);
    ConcatAssoc([' '], CollapseWhitespace(u[n..]), CollapseWhitespace(t));
  }

  lemma AppendLetterStep(u: string, t: string)
    requires u != [] && !IsSpace(u[0])
    requires (u + t)[1..] == u[1..] + t && (u + t)[0] == u[0]
    requires CollapseWhitespace(u[1..] + t) == CollapseWhitespace(u[1..]) + CollapseWhitespace(t)
    ensures CollapseWhitespace(u + t) == CollapseWhitespace(u) + CollapseWhitespace(t)
  {
    CollapseLetterHead(u + t);
    CollapseLetterHead(u);
    ConcatAssoc([u[0]], CollapseWhitespace(u[1..]), CollapseWhitespace(t));
  }

  /** The whitespace run at the front of `u` ends inside `u`, so what
      follows `u` does not extend it. */
  lemma RunOfAppend(u: string, t: string, n: nat)
    requires n == SpaceRunLength(u) && n < |u|
    ensures SpaceRunLength(u + t) == n
  {
    var s := u + t;
    assert s[n] == u[n];
    forall k | 0 <= k < n ensures IsSpace(s[k]) {
      assert s[k] == u[k];
    }
    SpaceRunEndAt(s, 0, n);
  }

  lemma CollapseSpaceHead(s: string, n: nat)
    requires s != [] && IsSpace(s[0]) && n == SpaceRunLength(s)
    ensures CollapseWhitespace(s) == [' '] + CollapseWhitespace(s[n..])
  {
  }

  lemma CollapseLetterHead(s: string)
    requires s != [] && !IsSpace(s[0])
    ensures CollapseWhitespace(s) == [s[0]] + CollapseWhitespace(s[1..])
  {
  }

  /** A whole run of whitespace in front of other text becomes one space. */
  lemma CollapseLeadingRun(ws: string, v: string)
    requires ws != [] && forall k :: 0 <= k < |ws| ==> IsSpace(ws[k])
    requires v == [] || !IsSpace(v[0])
    ensures CollapseWhitespace(ws + v) == [' '] + CollapseWhitespace(v)
  {
    var s := ws + v;
    assert s[0] == ws[0];
    assert |ws| < |s| ==> s[|ws|] == v[0];
    SpaceRunEndAt(s, 0, |ws|);
    assert s[|ws|..] == v;
  }

  /** `re.sub(r'\s+', ' ', ...)` turns a maximal run of whitespace into
      exactly one space and leaves the text on either side of it to be
      collapsed on its own. */
  lemma CollapseRun(u: string, ws: string, v: string)
    requires u == [] || !IsSpace(u[|u| - 1])
    requires ws != [] && forall k :: 0 <= k < |ws| ==> IsSpace(ws[k])
    requires v == [] || !IsSpace(v[0])
    ensures CollapseWhitespace(u + ws + v) == CollapseWhitespace(u) + " " + CollapseWhitespace(v)
  {
    var rest := ws + v;
    CollapseLeadingRun(ws, v);
    CollapseAppend(u, rest);
    ConcatAssoc(u, ws, v);
    ConcatAssoc(CollapseWhitespace(u), " ", CollapseWhitespace(v));
  }

  lemma ConcatAssoc(a: string, b: string, c: string)
    ensures a + b + c == a + (b + c)
  {
  }

  /** Lowercasing keeps whitespace and non-whitespace apart. */
  lemma LowerKeepsSpace(c: char)
    ensures IsSpace(LowerChar(c)) <==> IsSpace(c)
  {
  }

  /** `clean_text` on a text holding a maximal whitespace run: the run becomes
      one space between the cleaned text before it and after it. */
  lemma CleanTextRun(u: string, ws: string, v: string)
    requires u == [] || !IsSpace(u[|u| - 1])
    requires ws != [] && forall k :: 0 <= k < |ws| ==> IsSpace(ws[k])
    requires v == [] || !IsSpace(v[0])
    ensures CleanText(u + ws + v) == CleanText(u) + " " + CleanText(v)
  {
    var lu, lw, lv := Lower(u), Lower(ws), Lower(v);
    LowerAppend(u + ws, v);
    LowerAppend(u, ws);
    if u != [] { LowerKeepsSpace(u[|u| - 1]); }
    if v != [] { LowerKeepsSpace(v[0]); }
    forall k | 0 <= k < |lw| ensures IsSpace(lw[k]) {
      LowerKeepsSpace(ws[k]);
    }
    CollapseRun(lu, lw, lv);
  }

  /** Cleaning keeps the non-whitespace characters of the lowercased text. */
  lemma CleanTextKeepsContent(text: string)
    ensures NonSpace(CleanText(text)) == NonSpace(Lower(text))
  {
    CollapseKeepsContent(Lower(text));
  }

  /** Cleaning twice is the same as cleaning once. */
  lemma CleanTextIdempotent(text: string)
    ensures CleanText(CleanText(text)) == CleanText(text)
  {
    var r := CleanText(text);
    LowerOfLowercase(r);
    CollapseFixesNormalForm(r);
  }
}
