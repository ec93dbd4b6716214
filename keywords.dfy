/**
  Keyword extraction: `extract_keywords`. The text is lowercased, every
  match of the regular expression `\b[a-zA-Z]{4,}\b` is collected the way
  `re.findall` scans for it, stopwords are dropped, and the distinct
  survivors are returned in ascending order.
 */
module Keywords {
  import opened Normalize
  import opened StringOrder

  datatype Option<T> = None | Some(value: T)

  /** The `{4,}` of the pattern. */
  const MinKeywordLength: nat := 4

  /** The stopword set of `extract_keywords`, three-letter entries included. */
  const Stopwords: set<string> := {
    "with", "that", "from", "this", "have", "will", "you", "your",
    "for", "and", "the", "are", "our", "but", "has", "was", "any", "who", "not"
  }

  /** The entries of `Stopwords` that are long enough to be a match. */
  const EffectiveStopwords: set<string> := {
    "with", "that", "from", "this", "have", "will", "your"
  }

  /** Python's `\w` on `str` patterns (`str.isalnum()` or `_`): exact for
      U+0000..U+00FF, for the General Punctuation block, for the byte-order
      mark U+FEFF, for the blocks of combining marks (U+0300..U+036F,
      U+1AB0..U+1AFF, U+1DC0..U+1DFF, U+20D0..U+20FF, U+FE20..U+FE2F) and
      for the private-use areas; every other character above U+00FF that is
      not whitespace counts as alphanumeric. */
  predicate IsWordChar(c: char)
  {
    if c < '\U{80}' then
      IsAsciiLetter(c) || '0' <= c <= '9' || c == '_'
    else if c <= '\U{FF}' then
      || c == '\U{AA}' || c == '\U{B2}' || c == '\U{B3}' || c == '\U{B5}'
      || c == '\U{B9}' || c == '\U{BA}' || '\U{BC}' <= c <= '\U{BE}'
      || ('\U{C0}' <= c && c != '\U{D7}' && c != '\U{F7}')
    else
      && !IsSpace(c)
      && !('\U{2000}' <= c <= '\U{206F}')
      && !IsCombiningMark(c)
      && c != '\U{FEFF}'
      && !IsPrivateUse(c)
  }

  /** The blocks of combining diacritical marks; none of their characters is
      alphanumeric. */
  predicate IsCombiningMark(c: char)
  {
    || '\U{300}' <= c <= '\U{36F}'
    || '\U{1AB0}' <= c <= '\U{1AFF}'
    || '\U{1DC0}' <= c <= '\U{1DFF}'
    || '\U{20D0}' <= c <= '\U{20FF}'
    || '\U{FE20}' <= c <= '\U{FE2F}'
  }

  /** The private-use areas: U+E000..U+F8FF and the planes from U+F0000 up.
      No private-use character is alphanumeric. */
  predicate IsPrivateUse(c: char)
  {
    '\U{E000}' <= c <= '\U{F8FF}' || '\U{F0000}' <= c
  }

  lemma WordCharNotSpace(c: char)
    requires IsWordChar(c)
    ensures !IsSpace(c)
  {
  }

  /** `\b` at position `k` of `s`: exactly one of the characters on either
      side of `k` is a word character (outside the text counts as none). */
  predicate Boundary(s: string, k: nat)
    requires k <= |s|
  {
    (k > 0 && IsWordChar(s[k - 1])) != (k < |s| && IsWordChar(s[k]))
  }

  /** `s[i..j]` is a keyword occurrence: at least four ASCII letters with a
      word boundary on both sides. This is the reference for the scan. */
  predicate IsKeywordSpan(s: string, i: int, j: int)
  {
    && 0 <= i
    && i + MinKeywordLength <= j <= |s|
    && (forall k :: i <= k < j ==> IsAsciiLetter(s[k]))
    && Boundary(s, i)
    && Boundary(s, j)
  }

  /** `w` occurs in `s` as a keyword. */
  ghost predicate HasSpanWord(s: string, w: string)
  {
    exists i, j {:trigger IsKeywordSpan(s, i, j)} :: IsKeywordSpan(s, i, j) && s[i..j] == w
  }

  /** The greedy `[a-zA-Z]{4,}`: the end of the run of ASCII letters at `i`. */
  function LetterRunEnd(s: string, i: nat): (j: nat)
    requires i <= |s|
    ensures i <= j <= |s|
    ensures forall k :: i <= k < j ==> IsAsciiLetter(s[k])
    ensures j < |s| ==> !IsAsciiLetter(s[j])
    decreases |s| - i
  {
    if i < |s| && IsAsciiLetter(s[i]) then LetterRunEnd(s, i + 1) else i
  }

  /** Backtracking for the final `\b`: try the ends `k`, `k - 1`, ... down to
      `i + 4` and take the first one at a word boundary. */
  function Backtrack(s: string, i: nat, k: nat): (m: Option<nat>)
    requires i <= k <= |s|
    ensures m.Some? ==> i + MinKeywordLength <= m.value <= k && Boundary(s, m.value)
    ensures m.Some? ==> forall e :: m.value < e <= k ==> !Boundary(s, e)
    ensures m.None? ==> forall e :: i + MinKeywordLength <= e <= k ==> !Boundary(s, e)
    decreases k
  {
    if k < i + MinKeywordLength then None
    else if Boundary(s, k) then Some(k)
    else Backtrack(s, i, k - 1)
  }

  /** One attempt of `\b[a-zA-Z]{4,}\b` at position `i`: the end of the match. */
  function MatchAt(s: string, i: nat): (m: Option<nat>)
    requires i <= |s|
    ensures m.Some? ==> IsKeywordSpan(s, i, m.value)
    ensures forall j :: IsKeywordSpan(s, i, j) ==> m == Some(j)
  {
    if !Boundary(s, i) then None
    else
      var e := LetterRunEnd(s, i);
      var m := Backtrack(s, i, e);
      assert forall j :: i < j < e ==> !Boundary(s, j) by {
        forall j | i < j < e ensures !Boundary(s, j) {
          assert IsAsciiLetter(s[j - 1]) && IsAsciiLetter(s[j]);
        }
      }
      m
  }

  /** `re.findall` of the pattern from position `p`: after a match the scan
      resumes at its end, after a failure at the next position. */
  function FindAll(s: string, p: nat): seq<string>
    requires p <= |s|
    decreases |s| - p
  {
    if p == |s| then []
    else
      match MatchAt(s, p)
      case Some(j) => [s[p..j]] + FindAll(s, j)
      case None => FindAll(s, p + 1)
  }

  /** The scan finds exactly the keyword occurrences that start at or after
      `p`. */
  lemma {:induction false} FindAllSpec(s: string, p: nat)
    requires p <= |s|
    ensures forall w :: w in FindAll(s, p) <==>
      exists i, j :: p <= i && IsKeywordSpan(s, i, j) && s[i..j] == w
    decreases |s| - p
  {
    if p < |s| {
      match MatchAt(s, p)
      case Some(e) =>
        FindAllSpec(s, e);
        forall i | p < i < e ensures !Boundary(s, i) {
          assert IsAsciiLetter(s[i - 1]) && IsAsciiLetter(s[i]);
        }
      case None =>
        FindAllSpec(s, p + 1);
    }
  }

  /** `extract_keywords(text)`. */
  function ExtractKeywords(text: string): (r: seq<string>)
    ensures StrictlyAscending(r)
    ensures forall w :: w in r ==>
      && |w| >= MinKeywordLength
      && (forall k :: 0 <= k < |w| ==> IsAsciiLower(w[k]))
      && w !in Stopwords
  {
    var words := FindAll(Lower(text), 0);
    FoundWordsAreLowercase(text);
    SortSet(set w | w in words && w !in Stopwords)
  }

  lemma FoundWordsAreLowercase(text: string)
    ensures forall w :: w in FindAll(Lower(text), 0) ==>
      |w| >= MinKeywordLength && forall k :: 0 <= k < |w| ==> IsAsciiLower(w[k])
  {
    var lowered := Lower(text);
    FindAllSpec(lowered, 0);
    forall w | w in FindAll(lowered, 0)
      ensures |w| >= MinKeywordLength && forall k :: 0 <= k < |w| ==> IsAsciiLower(w[k])
    {
      var i, j :| 0 <= i && IsKeywordSpan(lowered, i, j) && lowered[i..j] == w;
      forall k | 0 <= k < |w| ensures IsAsciiLower(w[k]) {
        assert w[k] == lowered[i + k];
        assert IsAsciiLetter(lowered[i + k]);
      }
    }
  }

  /** Membership in the result, stated on the lowercased text. */
  lemma KeywordsAreSpanWords(text: string, w: string)
    ensures w in ExtractKeywords(text) <==> w !in Stopwords && HasSpanWord(Lower(text), w)
  {
    FindAllSpec(Lower(text), 0);
  }

  lemma LowerKeepsBoundary(s: string, k: nat)
    requires k <= |s|
    ensures Boundary(Lower(s), k) == Boundary(s, k)
  {
  }

  lemma LowerKeepsSpan(s: string, i: nat, j: nat)
    ensures IsKeywordSpan(Lower(s), i, j) <==> IsKeywordSpan(s, i, j)
  {
    if i <= |s| && j <= |s| {
      LowerKeepsBoundary(s, i);
      LowerKeepsBoundary(s, j);
    }
  }

  /** A word is a keyword of `text` exactly when it is not a stopword and it
      is the lowercase form of some run of at least four ASCII letters of
      `text` with a word boundary on both sides. */
  lemma ExtractKeywordsSpec(text: string, w: string)
    ensures w in ExtractKeywords(text) <==>
      w !in Stopwords && exists i, j :: IsKeywordSpan(text, i, j) && Lower(text[i..j]) == w
  {
    var lowered := Lower(text);
    KeywordsAreSpanWords(text, w);
    if w in ExtractKeywords(text) {
      var i, j :| IsKeywordSpan(lowered, i, j) && lowered[i..j] == w;
      LowerKeepsSpan(text, i, j);
      LowerSlice(text, i, j);
    }
    if w !in Stopwords && exists i, j :: IsKeywordSpan(text, i, j) && Lower(text[i..j]) == w {
      var i, j :| IsKeywordSpan(text, i, j) && Lower(text[i..j]) == w;
      LowerKeepsSpan(text, i, j);
      LowerSlice(text, i, j);
      assert IsKeywordSpan(lowered, i, j) && lowered[i..j] == w;
    }
  }

  /** The three-letter stopwords can never match: filtering with only the
      four-letter and longer ones gives the same keywords. */
  lemma ShortStopwordsInert(text: string)
    ensures ExtractKeywords(text) ==
      SortSet(set w | w in FindAll(Lower(text), 0) && w !in EffectiveStopwords)
  {
    var words := FindAll(Lower(text), 0);
    FindAllSpec(Lower(text), 0);
    forall w | w in words ensures w in Stopwords <==> w in EffectiveStopwords {
      var i, j :| IsKeywordSpan(Lower(text), i, j) && Lower(text)[i..j] == w;
      assert |w| >= MinKeywordLength;
    }
    assert (set w | w in words && w !in Stopwords) == (set w | w in words && w !in EffectiveStopwords);
  }

  /** Moving the start of the text past a position that follows a non-word
      character keeps word boundaries. */
  lemma BoundaryShift(s: string, n: nat, k: nat)
    requires n <= k <= |s|
    requires n == 0 || !IsWordChar(s[n - 1])
    ensures Boundary(s[n..], k - n) == Boundary(s, k)
  {
  }

  lemma SpanShift(s: string, n: nat, i: nat, j: nat)
    requires n <= i && n <= |s|
    requires n == 0 || !IsWordChar(s[n - 1])
    ensures IsKeywordSpan(s[n..], i - n, j - n) <==> IsKeywordSpan(s, i, j)
    ensures j <= |s| && i <= j ==> s[n..][i - n..j - n] == s[i..j]
  {
    if i + MinKeywordLength <= j <= |s| {
      BoundaryShift(s, n, i);
      BoundaryShift(s, n, j);
      LettersShift(s, n, i, j);
    }
    if i <= j <= |s| {
      SliceShift(s, n, i, j);
    }
  }

  lemma SpanUnshift(s: string, n: nat, i: nat, j: nat)
    requires n <= |s|
    requires n == 0 || !IsWordChar(s[n - 1])
    requires IsKeywordSpan(s[n..], i, j)
    ensures IsKeywordSpan(s, i + n, j + n) && s[n..][i..j] == s[i + n..j + n]
  {
    var t := s[n..];
    BoundaryUnshift(s, n, i);
    BoundaryUnshift(s, n, j);
    forall k | i + n <= k < j + n ensures IsAsciiLetter(s[k]) {
      assert s[k] == t[k - n];
    }
    SliceUnshift(s, n, i, j);
  }

  lemma BoundaryUnshift(s: string, n: nat, k: nat)
    requires n + k <= |s|
    requires n == 0 || !IsWordChar(s[n - 1])
    ensures Boundary(s[n..], k) == Boundary(s, k + n)
  {
    BoundaryShift(s, n, k + n);
  }

  lemma SliceUnshift(s: string, n: nat, i: nat, j: nat)
    requires i <= j && n + j <= |s|
    ensures s[n..][i..j] == s[i + n..j + n]
  {
  }

  lemma LettersShift(s: string, n: nat, i: nat, j: nat)
    requires n <= i <= j <= |s|
    ensures (forall k :: i - n <= k < j - n ==> IsAsciiLetter(s[n..][k])) <==>
      (forall k :: i <= k < j ==> IsAsciiLetter(s[k]))
  {
    var t := s[n..];
    assert forall k :: i <= k < j ==> t[k - n] == s[k];
    if forall k :: i <= k < j ==> IsAsciiLetter(s[k]) {
      forall k | i - n <= k < j - n ensures IsAsciiLetter(t[k]) {
        assert t[k] == s[k + n];
      }
    }
  }

  lemma SliceShift(s: string, n: nat, i: nat, j: nat)
    requires n <= i <= j <= |s|
    ensures s[n..][i - n..j - n] == s[i..j]
  {
  }

  /** A prefix of non-word characters contributes no keyword and does not
      change the keywords after it. */
  lemma SkipNonWordPrefixSpan(s: string, n: nat, w: string)
    requires n <= |s|
    requires forall k :: 0 <= k < n ==> !IsWordChar(s[k])
    ensures HasSpanWord(s, w) <==> HasSpanWord(s[n..], w)
  {
    if HasSpanWord(s, w) {
      SpanWordAfterPrefix(s, n, w);
    }
    if HasSpanWord(s[n..], w) {
      SpanWordInSuffix(s, n, w);
    }
  }

  /** A keyword occurrence does not start among leading non-word characters. */
  lemma SpanWordAfterPrefix(s: string, n: nat, w: string)
    requires n <= |s|
    requires forall k :: 0 <= k < n ==> !IsWordChar(s[k])
    requires HasSpanWord(s, w)
    ensures HasSpanWord(s[n..], w)
  {
    var i, j :| IsKeywordSpan(s, i, j) && s[i..j] == w;
    assert IsAsciiLetter(s[i]);
    SpanShift(s, n, i, j);
    assert IsKeywordSpan(s[n..], i - n, j - n) && s[n..][i - n..j - n] == w;
  }

  /** A keyword occurrence of a suffix that follows a non-word character is
      one of the whole text. */
  lemma SpanWordInSuffix(s: string, n: nat, w: string)
    requires n <= |s|
    requires n == 0 || !IsWordChar(s[n - 1])
    requires HasSpanWord(s[n..], w)
    ensures HasSpanWord(s, w)
  {
    var i, j :| IsKeywordSpan(s[n..], i, j) && s[n..][i..j] == w;
    SpanUnshift(s, n, i, j);
    assert IsKeywordSpan(s, i + n, j + n) && s[i + n..j + n] == w;
  }

  lemma BoundaryPrefix(u: string, v: string, k: nat)
    requires k <= |u|
    requires v == [] || !IsWordChar(v[0])
    ensures Boundary(u + v, k) == Boundary(u, k)
  {
  }

  /** A keyword occurrence that ends before a non-word character is one of
      the text before that character, and the other way round. */
  lemma SpanBeforeSeparator(u: string, c: char, v: string, i: int, j: int)
    requires !IsWordChar(c)
    requires 0 <= i <= j <= |u|
    ensures IsKeywordSpan(u + [c] + v, i, j) <==> IsKeywordSpan(u, i, j)
    ensures (u + [c] + v)[i..j] == u[i..j]
  {
    var s := u + [c] + v;
    assert s == u + ([c] + v);
    BoundaryPrefix(u, [c] + v, i);
    BoundaryPrefix(u, [c] + v, j);
    assert forall k :: 0 <= k < |u| ==> s[k] == u[k];
  }

  /** No keyword occurrence covers a non-word character. */
  lemma SpanAvoidsSeparator(u: string, c: char, v: string, i: int, j: int)
    requires !IsWordChar(c)
    requires IsKeywordSpan(u + [c] + v, i, j)
    ensures j <= |u| || |u| < i
  {
    var s := u + [c] + v;
    assert s[|u|] == c;
    assert !IsAsciiLetter(s[|u|]);
  }

  /** Cutting the text at a non-word character splits its keywords: those
      of the left part and those of the right part. */
  lemma SplitAtSeparatorSpan(t: string, u: string, c: char, v: string, w: string)
    requires t == u + [c] + v
    requires !IsWordChar(c)
    ensures HasSpanWord(t, w) <==> HasSpanWord(u, w) || HasSpanWord(v, w)
  {
    if HasSpanWord(u + [c] + v, w) {
      SplitSpanWord(u, c, v, w);
    }
    if HasSpanWord(u, w) {
      var i, j :| IsKeywordSpan(u, i, j) && u[i..j] == w;
      SpanBeforeSeparator(u, c, v, i, j);
    }
    if HasSpanWord(v, w) {
      SpanAfterSeparator(u, c, v, w);
    }
  }

  lemma SpanAfterSeparator(u: string, c: char, v: string, w: string)
    requires !IsWordChar(c)
    requires HasSpanWord(v, w)
    ensures HasSpanWord(u + [c] + v, w)
  {
    var s, n := u + [c] + v, |u| + 1;
    assert s[n..] == v && s[n - 1] == c;
    SpanWordInSuffix(s, n, w);
  }

  lemma SplitSpanWord(u: string, c: char, v: string, w: string)
    requires !IsWordChar(c)
    requires HasSpanWord(u + [c] + v, w)
    ensures HasSpanWord(u, w) || HasSpanWord(v, w)
  {
    var s, n := u + [c] + v, |u| + 1;
    var i, j :| IsKeywordSpan(s, i, j) && s[i..j] == w;
    SpanAvoidsSeparator(u, c, v, i, j);
    if j <= |u| {
      SpanBeforeSeparator(u, c, v, i, j);
      assert IsKeywordSpan(u, i, j) && u[i..j] == w;
    } else {
      assert s[n..] == v;
      SpanShift(s, n, i, j);
      assert IsKeywordSpan(v, i - n, j - n) && v[i - n..j - n] == w;
    }
  }

  /** `re.findall` finds `w` in `s` exactly when `w` occurs in `s` as a keyword. */
  lemma FoundIffSpan(s: string, w: string)
    ensures w in FindAll(s, 0) <==> HasSpanWord(s, w)
  {
    FindAllSpec(s, 0);
  }

  /** A prefix of non-word characters yields no match and does not change
      the matches after it. */
  lemma SkipNonWordPrefix(s: string, n: nat, w: string)
    requires n <= |s|
    requires forall k :: 0 <= k < n ==> !IsWordChar(s[k])
    ensures w in FindAll(s, 0) <==> w in FindAll(s[n..], 0)
  {
    FoundIffSpan(s, w);
    FoundIffSpan(s[n..], w);
    SkipNonWordPrefixSpan(s, n, w);
  }

  /** Cutting the text at a non-word character splits the matches: those of
      the left part and those of the right part. */
  lemma SplitAtSeparator(t: string, u: string, c: char, v: string, w: string)
    requires t == u + [c] + v
    requires !IsWordChar(c)
    ensures w in FindAll(t, 0) <==> w in FindAll(u, 0) || w in FindAll(v, 0)
  {
    FoundIffSpan(t, w);
    FoundIffSpan(u, w);
    FoundIffSpan(v, w);
    SplitAtSeparatorSpan(t, u, c, v, w);
  }

  /** Joining two texts with a space gives the union of their keywords. */
  lemma KeywordsOfJoin(a: string, b: string)
    ensures forall w :: w in ExtractKeywords(a + " " + b) <==>
      w in ExtractKeywords(a) || w in ExtractKeywords(b)
  {
    LowerAppend(a + " ", b);
    LowerAppend(a, " ");
    assert Lower(" ") == " ";
    forall w ensures w in ExtractKeywords(a + " " + b) <==>
      w in ExtractKeywords(a) || w in ExtractKeywords(b)
    {
      SplitAtSeparator(Lower(a + " " + b), Lower(a), ' ', Lower(b), w);
    }
  }

  /** The order of the words does not change the keywords. */
  lemma KeywordsIgnoreOrder(a: string, b: string)
    ensures ExtractKeywords(a + " " + b) == ExtractKeywords(b + " " + a)
  {
    KeywordsOfJoin(a, b);
    KeywordsOfJoin(b, a);
    AscendingUnique(ExtractKeywords(a + " " + b), ExtractKeywords(b + " " + a));
  }

  /** Repeating the words does not change the keywords. */
  lemma KeywordsIgnoreRepetition(a: string)
    ensures ExtractKeywords(a + " " + a) == ExtractKeywords(a)
  {
    KeywordsOfJoin(a, a);
    AscendingUnique(ExtractKeywords(a + " " + a), ExtractKeywords(a));
  }

  /** Cutting the text at the non-word character `t[k]` splits the matches. */
  lemma SplitAt(t: string, k: nat, w: string)
    requires k < |t| && !IsWordChar(t[k])
    ensures w in FindAll(t, 0) <==> w in FindAll(t[..k], 0) || w in FindAll(t[k + 1..], 0)
  {
    Decompose(t, k);
    SplitAtSeparator(t, t[..k], t[k], t[k + 1..], w);
  }

  lemma Decompose(t: string, k: nat)
    requires k < |t|
    ensures t == t[..k] + [t[k]] + t[k + 1..]
  {
  }

  /** Leading whitespace yields no match and does not change the matches
      after it. */
  lemma SkipLeadingSpaces(s: string, n: nat, w: string)
    requires n <= |s| && forall k :: 0 <= k < n ==> IsSpace(s[k])
    ensures w in FindAll(s, 0) <==> w in FindAll(s[n..], 0)
  {
    forall k | 0 <= k < n ensures !IsWordChar(s[k]) {
      if IsWordChar(s[k]) { WordCharNotSpace(s[k]); }
    }
    SkipNonWordPrefix(s, n, w);
  }

  /** In a run of `n` whitespace characters at `m`, the ones after the first
      yield no match and do not change the matches after them. */
  lemma SkipSpaceRun(s: string, m: nat, n: nat, w: string)
    requires 1 <= n && m + n <= |s| && forall k :: m <= k < m + n ==> IsSpace(s[k])
    ensures w in FindAll(s[m + 1..], 0) <==> w in FindAll(s[m + n..], 0)
  {
    var t := s[m + 1..];
    forall k | 0 <= k < n - 1 ensures !IsWordChar(t[k]) {
      assert t[k] == s[m + 1 + k];
      if IsWordChar(t[k]) { WordCharNotSpace(t[k]); }
    }
    SkipNonWordPrefix(t, n - 1, w);
    assert t[n - 1..] == s[m + n..];
  }

  /** Collapsing whitespace keeps the keyword occurrences. */
  lemma {:induction false} CollapseKeepsSpanWords(s: string, w: string)
    ensures w in FindAll(CollapseWhitespace(s), 0) <==> w in FindAll(s, 0)
    decreases |s|
  {
    if s != [] {
      if IsSpace(s[0]) {
        var n := SpaceRunLength(s);
        CollapseKeepsSpanWords(s[n..], w);
        CollapseSpaceHead(s, w);
      } else {
        var m := TextRunLength(s);
        if m < |s| {
          var n := SpaceRunLength(s[m..]);
          CollapseKeepsSpanWords(s[m + n..], w);
          CollapseTextHead(s, m, n, w);
        } else {
          CollapseKeepsTextRun(s, m);
          assert CollapseWhitespace(s) == s;
        }
      }
    }
  }

  /** One step of CollapseKeepsSpanWords: a run of whitespace at the front. */
  lemma CollapseSpaceHead(s: string, w: string)
    requires s != [] && IsSpace(s[0])
    requires var n := SpaceRunLength(s);
      w in FindAll(CollapseWhitespace(s[n..]), 0) <==> w in FindAll(s[n..], 0)
    ensures w in FindAll(CollapseWhitespace(s), 0) <==> w in FindAll(s, 0)
  {
    var n := SpaceRunLength(s);
    var c := CollapseWhitespace(s);
    assert c == [' '] + CollapseWhitespace(s[n..]);
    assert c[1..] == CollapseWhitespace(s[n..]);
    SplitAt(c, 0, w);
    assert c[..0] == [];
    SkipLeadingSpaces(s, n, w);
  }

  /** One step of CollapseKeepsSpanWords: a run of other characters at the
      front, followed by whitespace. */
  lemma CollapseTextHead(s: string, m: nat, n: nat, w: string)
    requires m == TextRunLength(s) < |s| && n == SpaceRunLength(s[m..])
    requires w in FindAll(CollapseWhitespace(s[m + n..]), 0) <==> w in FindAll(s[m + n..], 0)
    ensures w in FindAll(CollapseWhitespace(s), 0) <==> w in FindAll(s, 0)
  {
    TextHeadShape(s, m, n);
    JoinAtSpace(CollapseWhitespace(s), s, m, n, CollapseWhitespace(s[m + n..]), w);
  }

  /** `c` agrees with `s` up to `m`, has a space at `m` where `s` has a run
      of `n` whitespace characters, and continues with `rest`. */
  predicate JoinsAtSpace(c: string, s: string, m: nat, n: nat, rest: string)
  {
    && 1 <= n && m + n <= |s| && (forall k :: m <= k < m + n ==> IsSpace(s[k]))
    && m < |c| && c[..m] == s[..m] && c[m] == ' ' && c[m + 1..] == rest
  }

  /** When `c` joins like `s` at a space and the rests have the same
      matches, `c` and `s` have the same matches. */
  lemma JoinAtSpace(c: string, s: string, m: nat, n: nat, rest: string, w: string)
    requires JoinsAtSpace(c, s, m, n, rest)
    requires w in FindAll(rest, 0) <==> w in FindAll(s[m + n..], 0)
    ensures w in FindAll(c, 0) <==> w in FindAll(s, 0)
  {
    SplitAtSpace(c, m, w);
    SplitAtRun(s, m, n, w);
  }

  lemma SplitAtSpace(c: string, m: nat, w: string)
    requires m < |c| && c[m] == ' '
    ensures w in FindAll(c, 0) <==> w in FindAll(c[..m], 0) || w in FindAll(c[m + 1..], 0)
  {
    SplitAt(c, m, w);
  }

  lemma SplitAtRun(s: string, m: nat, n: nat, w: string)
    requires 1 <= n && m + n <= |s| && forall k :: m <= k < m + n ==> IsSpace(s[k])
    ensures w in FindAll(s, 0) <==> w in FindAll(s[..m], 0) || w in FindAll(s[m + n..], 0)
  {
    assert !IsWordChar(s[m]) by {
      if IsWordChar(s[m]) { WordCharNotSpace(s[m]); }
    }
    SplitAt(s, m, w);
    SkipSpaceRun(s, m, n, w);
  }

  /** Whitespace collapsing keeps a run of other characters and turns the
      whitespace after it into one space. */
  lemma TextHeadShape(s: string, m: nat, n: nat)
    requires m == TextRunLength(s) < |s| && n == SpaceRunLength(s[m..])
    ensures JoinsAtSpace(CollapseWhitespace(s), s, m, n, CollapseWhitespace(s[m + n..]))
  {
    SpaceRunAt(s, m, n);
    CollapseKeepsTextRun(s, m);
    CollapseSpaceRun(s, m, n);
    PartsOfJoin(CollapseWhitespace(s), s[..m], CollapseWhitespace(s[m..]),
      CollapseWhitespace(s[m + n..]));
  }

  /** The whitespace run after the text run, in the indices of `s`. */
  lemma SpaceRunAt(s: string, m: nat, n: nat)
    requires m == TextRunLength(s) < |s| && n == SpaceRunLength(s[m..])
    ensures 1 <= n && m + n <= |s| && forall k :: m <= k < m + n ==> IsSpace(s[k])
  {
    var rest := s[m..];
    assert rest[0] == s[m];
    forall k | m <= k < m + n ensures IsSpace(s[k]) {
      assert s[k] == rest[k - m];
    }
  }

  /** A front run of whitespace collapses to one space. */
  lemma CollapseSpaceRun(s: string, m: nat, n: nat)
    requires m < |s| && IsSpace(s[m]) && n == SpaceRunLength(s[m..])
    ensures m + n <= |s|
    ensures CollapseWhitespace(s[m..]) == [' '] + CollapseWhitespace(s[m + n..])
  {
    var rest := s[m..];
    assert rest[0] == s[m];
    DropDrop(s, m, n);
  }

  lemma DropDrop(s: string, m: nat, n: nat)
    requires m + n <= |s|
    ensures s[m..][n..] == s[m + n..]
  {
  }

  lemma PartsOfJoin(c: string, u: string, d: string, tail: string)
    requires c == u + d && d == [' '] + tail
    ensures |u| < |c| && c[..|u|] == u && c[|u|] == ' ' && c[|u| + 1..] == tail
  {
  }

  /** Extracting keywords after `clean_text` gives the same keywords as
      extracting them from the raw text. */
  lemma CleanTextKeepsKeywords(text: string)
    ensures ExtractKeywords(CleanText(text)) == ExtractKeywords(text)
  {
    var cleaned := CleanText(text);
    LowerOfLowercase(cleaned);
    forall w ensures w in ExtractKeywords(cleaned) <==> w in ExtractKeywords(text) {
      CollapseKeepsSpanWords(Lower(text), w);
    }
    AscendingUnique(ExtractKeywords(cleaned), ExtractKeywords(text));
  }

  /** A digit after the letters blocks the match: "python3" has no keyword. */
  lemma DigitSuffixBlocksKeyword()
    ensures ExtractKeywords("python3") == []
  {
    var s := "python3";
    forall k | 1 <= k < |s| ensures !Boundary(s, k) {
      assert IsWordChar(s[k - 1]) && IsWordChar(s[k]);
    }
    assert !IsAsciiLetter(s[6]);
    forall w ensures w !in ExtractKeywords(s) {
      ExtractKeywordsSpec(s, w);
    }
  }

  /** A byte-order mark in front of the letters is not a word character, so
      it leaves the boundary in place: "\U{FEFF}Java" has the keyword "java". */
  lemma ByteOrderMarkKeepsKeyword(s: string)
    requires IsBomJava(s)
    ensures ExtractKeywords(s) == ["java"]
  {
    BomSpan(s);
    forall i, j | IsKeywordSpan(s, i, j) ensures i == 1 && j == 5 {
      BomOnlySpan(s, i, j);
    }
    OnlyKeyword(s, 1, 5, "java");
  }

  /** A text with a single keyword occurrence, not a stopword, has that
      one keyword. */
  lemma OnlyKeyword(text: string, i: int, j: int, w: string)
    requires IsKeywordSpan(text, i, j) && Lower(text[i..j]) == w && w !in Stopwords
    requires forall i', j' :: IsKeywordSpan(text, i', j') ==> i' == i && j' == j
    ensures ExtractKeywords(text) == [w]
  {
    var ks := ExtractKeywords(text);
    ExtractKeywordsSpec(text, w);
    forall x | x in ks ensures x == w {
      ExtractKeywordsSpec(text, x);
    }
    AscendingUnique(ks, [w]);
  }

  /** `s` is "\U{FEFF}Java". */
  predicate IsBomJava(s: string)
  {
    |s| == 5 && s[0] == '\U{FEFF}' && s[1] == 'J' && s[2] == 'a' && s[3] == 'v' && s[4] == 'a'
  }

  lemma BomSpan(s: string)
    requires IsBomJava(s)
    ensures IsKeywordSpan(s, 1, 5) && Lower(s[1..5]) == "java"
  {
    assert !IsWordChar(s[0]);
    assert s[1..5] == "Java";
  }

  lemma BomOnlySpan(s: string, i: int, j: int)
    requires IsBomJava(s) && IsKeywordSpan(s, i, j)
    ensures i == 1 && j == 5 && s[i..j] == "Java"
  {
    assert !IsAsciiLetter(s[0]);
  }

  /** A combining accent is not a word character either: in the decomposed
      "re\U{301}sume\U{301}" the letters "sume" between the two accents
      are a keyword, as Python's `\b` sees them. */
  lemma CombiningMarkSplitsWord(s: string)
    requires IsDecomposedResume(s)
    ensures ExtractKeywords(s) == ["sume"]
  {
    DecomposedSpan(s);
    forall i, j | IsKeywordSpan(s, i, j) ensures i == 3 && j == 7 {
      DecomposedOnlySpan(s, i, j);
    }
    OnlyKeyword(s, 3, 7, "sume");
  }

  /** `s` is "re\U{301}sume\U{301}". */
  predicate IsDecomposedResume(s: string)
  {
    && |s| == 8 && s[0] == 'r' && s[1] == 'e' && s[2] == '\U{301}'
    && s[3] == 's' && s[4] == 'u' && s[5] == 'm' && s[6] == 'e' && s[7] == '\U{301}'
  }

  lemma DecomposedSpan(s: string)
    requires IsDecomposedResume(s)
    ensures IsKeywordSpan(s, 3, 7) && Lower(s[3..7]) == "sume"
  {
    assert !IsWordChar(s[2]) && !IsWordChar(s[7]);
    assert s[3..7] == "sume";
  }

  lemma DecomposedOnlySpan(s: string, i: int, j: int)
    requires IsDecomposedResume(s) && IsKeywordSpan(s, i, j)
    ensures i == 3 && j == 7
  {
    assert !IsAsciiLetter(s[2]) && !IsAsciiLetter(s[7]);
  }
  /** A private-use character, such as the U+F0B7 that PDF text extraction
      gives for a Symbol-font bullet, is not a word character:
      "\U{F0B7}Python" has the keyword "python". */
  lemma PrivateUseBulletKeepsKeyword(s: string)
    requires IsBulletPython(s)
    ensures ExtractKeywords(s) == ["python"]
  {
    BulletSpan(s);
    forall i, j | IsKeywordSpan(s, i, j) ensures i == 1 && j == 7 {
      BulletOnlySpan(s, i, j);
    }
    OnlyKeyword(s, 1, 7, "python");
  }

  /** `s` is "\U{F0B7}Python". */
  predicate IsBulletPython(s: string)
  {
    && |s| == 7 && s[0] == '\U{F0B7}' && s[1] == 'P' && s[2] == 'y'
    && s[3] == 't' && s[4] == 'h' && s[5] == 'o' && s[6] == 'n'
  }

  lemma BulletSpan(s: string)
    requires IsBulletPython(s)
    ensures IsKeywordSpan(s, 1, 7) && Lower(s[1..7]) == "python"
  {
    assert !IsWordChar(s[0]);
    assert s[1..7] == "Python";
  }

  lemma BulletOnlySpan(s: string, i: int, j: int)
    requires IsBulletPython(s) && IsKeywordSpan(s, i, j)
    ensures i == 1 && j == 7
  {
    assert !IsAsciiLetter(s[0]);
  }
}
