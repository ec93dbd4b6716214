# Résumé screening: keyword scoring, in Dafny

`resume_screening_bot.py` scores a résumé against a job description. It
lowercases both texts and collapses their whitespace (`clean_text`). It
extracts the keywords of each text (`extract_keywords`): every run of at
least four ASCII letters that `\b` marks off as a word, minus a fixed list
of stopwords, sorted and without duplicates. `ats_score` then:

- intersects the two keyword sets;
- computes the match ratio `match_count / max(|jd_keywords|, 1)`;
- fuses it with a TF-IDF cosine similarity as `0.6 * similarity + 0.4 * match_score`;
- shortlists the candidate when the fused score reaches the threshold (default 0.35);
- reports the first ten missing keywords in sorted order.

This project models that pipeline as pure functions and proves what it
promises. The TF-IDF similarity is an input.

Modules, one file each:

- `StringOrder` (`order.dfy`): Python's `<` on `str` and `sorted(...)` of a set of strings.
- `Normalize` (`normalize.dfy`): `str.lower()`, `re.sub(r'\s+', ' ', ...)` and `clean_text`.
- `Keywords` (`keywords.dfy`): `\b`, the scan `re.findall(r'\b[a-zA-Z]{4,}\b', ...)` with
  its greedy match and backtracking, the stopword filter and `extract_keywords`.
- `Ats` (`ats.dfy`): the keyword overlap, match ratio, fusion, decision and missing-keyword
  list of `ats_score`.

The scan is modelled as `re.findall` runs it. At each position it tries `\b`, takes the
longest run of letters, then backs off until a `\b` follows, and resumes after a match.
`FindAllSpec` proves that this finds exactly the reference occurrences (`IsKeywordSpan`):
at least four ASCII letters with a word boundary on both sides.

Some consequences of the code are easy to miss when reading it:

- A keyword is not any maximal run of four or more ASCII letters. The run must also be
  bounded by `\b`, and `\b` treats digits, `_` and non-ASCII letters as word characters.
  So `python3` and `data_science` contribute no keyword (`DigitSuffixBlocksKeyword`), and
  `zürich` does not contribute `rich`.
- The final score is computed from the unrounded match ratio, so it need not equal the
  fusion of the two rounded figures that are displayed.
- Leading and trailing whitespace become a single space; they are not stripped.

## Model

| member | source | states |
|---|---|---|
| `StringOrder.Less` | resume_screening_bot.py:27 | `<` on `str`, which `sorted` uses here and at line 50: code point by code point, a proper prefix first; `LessIrreflexive`, `LessAsymmetric`, `LessTransitive` and `LessTotal` prove it a strict total order |
| `StringOrder.LessIrreflexive` | resume_screening_bot.py:27 | no string is smaller than itself |
| `StringOrder.LessAsymmetric` | resume_screening_bot.py:27 | two strings are never each smaller than the other |
| `StringOrder.LessTransitive` | resume_screening_bot.py:27 | the string order is transitive |
| `StringOrder.LessTotal` | resume_screening_bot.py:27 | any two distinct strings are ordered one way or the other |
| `StringOrder.AscendingDistinct` | resume_screening_bot.py:27 | a strictly ascending list has no duplicates |
| `StringOrder.LeastExists` | resume_screening_bot.py:27 | every non-empty set of strings has a smallest element |
| `StringOrder.LeastUnique` | resume_screening_bot.py:27 | that smallest element is unique |
| `StringOrder.SortSet` | resume_screening_bot.py:27 | `sorted(set)` is strictly ascending, holds exactly the set's elements, and is as long as the set is large |
| `StringOrder.AscendingUnique` | resume_screening_bot.py:27 | two strictly ascending lists with the same elements are equal, so the sorted form is unique |
| `StringOrder.SortSetOfAscending` | resume_screening_bot.py:27 | sorting the elements of a sorted list gives the list back |
| `StringOrder.SortSetDeterminedByElements` | resume_screening_bot.py:27 | any strictly ascending list with the set's elements is its sorted form |
| `StringOrder.AscendingPrefix` | resume_screening_bot.py:50 | a prefix of a sorted list is sorted and below everything after it |
| `StringOrder.AscendingCard` | resume_screening_bot.py:36-37 | the set of a strictly ascending list has as many elements as the list |
| `Normalize.IsSpace` | resume_screening_bot.py:18 | `\s` on `str` patterns: the characters `str.isspace()` accepts; `Keywords.WordCharNotSpace` proves no word character is one |
| `Normalize.LowerChar` | resume_screening_bot.py:18 | lowercasing one character leaves no ASCII capital, keeps letters letters, maps `A`..`Z` to `a`..`z` and changes nothing else |
| `Normalize.Lower` | resume_screening_bot.py:18 | `str.lower()` keeps the length and lowercases each character |
| `Normalize.SpaceRunEnd` | resume_screening_bot.py:18 | the greedy `\s+`: the run from `i` is whitespace and is maximal |
| `Normalize.SpaceRunLength` | resume_screening_bot.py:18 | the whitespace run at the front of a text is maximal |
| `Normalize.CollapseWhitespace` | resume_screening_bot.py:18 | `re.sub(r'\s+', ' ', s)` scanning from the left; `CollapseNormalForm`, `CollapseRun`, `CollapseKeepsTextRun` and `CollapseKeepsContent` state its result |
| `Normalize.CollapseKeepsTextRun` | resume_screening_bot.py:18 | a front run of non-whitespace is copied unchanged by the substitution |
| `Normalize.CollapseNormalForm` | resume_screening_bot.py:18 | after `re.sub(r'\s+', ' ', s)` the only whitespace is single spaces and no other character is added; the result is empty iff the input is, is no longer than the input, and starts or ends with a space iff the input starts or ends with whitespace |
| `Normalize.CleanText` | resume_screening_bot.py:17-18 | `clean_text` leaves no whitespace but `' '`, no two spaces in a row and no ASCII capital; it is empty iff its input is, and starts or ends with a space iff the input starts or ends with whitespace |
| `Normalize.SpaceRunEndAt` | resume_screening_bot.py:18 | a whitespace run from `i` that stops at a non-whitespace character or the end of the text is the run `\s+` matches |
| `Normalize.CollapseAppend` | resume_screening_bot.py:18 | a text that does not end in whitespace collapses the same on its own as in front of any other text |
| `Normalize.CollapseLeadingRun` | resume_screening_bot.py:18 | a whole whitespace run in front of non-whitespace becomes exactly one space |
| `Normalize.CollapseRun` | resume_screening_bot.py:18 | a maximal whitespace run between two texts becomes exactly one space, and the texts on either side are collapsed on their own |
| `Normalize.CleanTextRun` | resume_screening_bot.py:17-18 | `clean_text` of `u + ws + v`, with `ws` a maximal whitespace run, is `clean_text(u) + " " + clean_text(v)` |
| `Normalize.NonSpaceSkipsRun` | resume_screening_bot.py:18 | a whitespace prefix adds no non-whitespace character |
| `Normalize.CollapseKeepsContent` | resume_screening_bot.py:18 | collapsing whitespace keeps every other character, in order |
| `Normalize.CollapseFixesNormalForm` | resume_screening_bot.py:18 | a text with only single spaces is left unchanged by the substitution |
| `Normalize.CleanTextKeepsContent` | resume_screening_bot.py:17-18 | `clean_text` keeps the non-whitespace characters of the lowercased text, in order |
| `Normalize.CleanTextIdempotent` | resume_screening_bot.py:17-18 | cleaning twice is the same as cleaning once |
| `Keywords.IsWordChar` | resume_screening_bot.py:22 | `\w` on `str` patterns, within the range named under "Left out"; `WordCharNotSpace` proves it excludes whitespace |
| `Keywords.Boundary` | resume_screening_bot.py:22 | `\b`: exactly one side of the position is a word character; `LowerKeepsBoundary` proves lowercasing keeps it |
| `Keywords.LetterRunEnd` | resume_screening_bot.py:22 | the greedy `[a-zA-Z]{4,}` takes the whole run of ASCII letters |
| `Keywords.Backtrack` | resume_screening_bot.py:22 | backing off for the final `\b` stops at the largest boundary at most `k` and at least four letters after the start, or shows there is no boundary in that range |
| `Keywords.MatchAt` | resume_screening_bot.py:22 | a match attempt at `i` succeeds with end `j` exactly when `[i, j)` is a keyword occurrence, which is then unique |
| `Keywords.FindAll` | resume_screening_bot.py:22 | the `re.findall` scan: after a match it resumes at the match's end, after a failure one position on; `FindAllSpec` proves it finds exactly the keyword occurrences |
| `Keywords.FindAllSpec` | resume_screening_bot.py:22 | `re.findall` from `p` yields exactly the words of the keyword occurrences that start at or after `p` |
| `Keywords.FoundIffSpan` | resume_screening_bot.py:22 | `re.findall` finds a word iff the text has it as a keyword occurrence |
| `Keywords.FoundWordsAreLowercase` | resume_screening_bot.py:22 | on lowercased text every match is at least four lowercase ASCII letters |
| `Keywords.ExtractKeywords` | resume_screening_bot.py:20-27 | `extract_keywords` is strictly ascending, so without duplicates, and every element is lowercase ASCII letters, at least four long, and not a stopword |
| `Keywords.KeywordsAreSpanWords` | resume_screening_bot.py:22-27 | a word is a keyword iff it is not a stopword and occurs as a keyword in the lowercased text |
| `Keywords.ExtractKeywordsSpec` | resume_screening_bot.py:22-27 | a word is a keyword iff it is not a stopword and is the lowercase form of a word-bounded run of at least four ASCII letters of the text (sound and complete) |
| `Keywords.ShortStopwordsInert` | resume_screening_bot.py:23-27 | the three-letter stopwords never matter: filtering with the seven longer ones gives the same result |
| `Keywords.SkipNonWordPrefixSpan` | resume_screening_bot.py:22 | a prefix of non-word characters neither holds nor changes keyword occurrences |
| `Keywords.SplitAtSeparatorSpan` | resume_screening_bot.py:22 | cutting a text at a non-word character splits its keyword occurrences into those of the two parts |
| `Keywords.SplitAtSeparator` | resume_screening_bot.py:22 | the same split, stated for the words `re.findall` returns |
| `Keywords.KeywordsOfJoin` | resume_screening_bot.py:22-27 | the keywords of two texts joined by a space are the union of their keywords |
| `Keywords.KeywordsIgnoreOrder` | resume_screening_bot.py:22-27 | swapping the two parts of a text does not change its keywords |
| `Keywords.KeywordsIgnoreRepetition` | resume_screening_bot.py:22-27 | repeating a text does not change its keywords |
| `Keywords.CollapseKeepsSpanWords` | resume_screening_bot.py:18-22 | collapsing whitespace does not change what `re.findall` finds |
| `Keywords.CleanTextKeepsKeywords` | resume_screening_bot.py:17-27 | the keywords of `clean_text(t)` are the keywords of `t` |
| `Keywords.DigitSuffixBlocksKeyword` | resume_screening_bot.py:22 | `python3` has no keyword: the digit removes the `\b` after the letters |
| `Keywords.OnlyKeyword` | resume_screening_bot.py:22-27 | a text whose only keyword occurrence spells a non-stopword has exactly that keyword |
| `Keywords.ByteOrderMarkKeepsKeyword` | resume_screening_bot.py:22 | a byte-order mark, which reading a UTF-8 file keeps, is not a word character: `\U{FEFF}Java` has the keyword `java` |
| `Keywords.PrivateUseBulletKeepsKeyword` | resume_screening_bot.py:22 | a private-use character, such as the U+F0B7 bullet PDF text extraction produces, is not a word character: `\U{F0B7}Python` has the keyword `python` |
| `Keywords.CombiningMarkSplitsWord` | resume_screening_bot.py:22 | a combining accent is not a word character: decomposed `re\U{301}sume\U{301}` has the keyword `sume` |
| `Ats.Label` | resume_screening_bot.py:43 | the shortlisted label begins with "Shortlisted", the other with "Not Shortlisted" |
| `Ats.KeywordSet` | resume_screening_bot.py:36-37 | `set(extract_keywords(text))` is as large as the keyword list, and holds no stopword and no word under four letters |
| `Ats.MatchCount` | resume_screening_bot.py:38 | the match count is at most either set's size, and is 0 iff no job keyword is in the résumé |
| `Ats.Missing` | resume_screening_bot.py:39 | the missing keywords are exactly the job keywords absent from the résumé |
| `Ats.OverlapPartition` | resume_screening_bot.py:38-39 | matched and missing keywords are disjoint, together make up the job keywords, and their sizes add up to its size |
| `Ats.SubsetSameSize` | resume_screening_bot.py:40 | a subset of a set as large as the set is the set |
| `Ats.AtLeastOne` | resume_screening_bot.py:40 | `max(n, 1)` is at least 1 and at least `n`; it is `n` when `n >= 1` and 1 when `n` is 0 |
| `Ats.Ratio` | resume_screening_bot.py:40 | a count over a larger positive total is in [0,1], 1 iff the count is the total, 0 iff the count is 0 |
| `Ats.MatchScore` | resume_screening_bot.py:40 | the match ratio is in [0,1]; it is 0 when the job has no keywords; it is 1 iff the job keywords are non-empty and all in the résumé; it is 0 iff none are |
| `Ats.MatchScoreMonotone` | resume_screening_bot.py:40 | more résumé keywords never lower the match ratio |
| `Ats.DivideMonotone` | resume_screening_bot.py:40 | dividing by a positive number keeps order |
| `Ats.FinalScore` | resume_screening_bot.py:42 | the fused score lies between its two inputs; it is in [0,1] when they are; for inputs at most 1 it is 1 iff both are 1 |
| `Ats.FinalScoreMonotone` | resume_screening_bot.py:42 | the fused score increases with each input, strictly when one input strictly increases |
| `Ats.Decide` | resume_screening_bot.py:43 | the candidate is shortlisted iff the score is at least the threshold |
| `Ats.DecideMonotone` | resume_screening_bot.py:43 | a score equal to the threshold is shortlisted; a higher score or a lower threshold keeps a shortlisting |
| `Ats.TopMissing` | resume_screening_bot.py:50 | `sorted(list(missing))[:10]` holds `min(|missing|, 10)` strictly ascending missing keywords, each smaller than every missing keyword left out, and all of them when there are at most ten |
| `Ats.ScoreKeywords` | resume_screening_bot.py:38-50 | the result over two keyword sets: similarity passed through, match ratio, fused score, a decision that is shortlisted iff the fused score reaches the threshold, and `min(|missing|, 10)` ascending missing keywords, each smaller than every missing keyword left out, so all of them when there are at most ten |
| `Ats.AtsScore` | resume_screening_bot.py:29-50 | the same for two texts: the reported missing keywords are the `min(|missing|, 10)` smallest keywords of the job text absent from the résumé text, ascending |
| `Ats.AtsScoreBounds` | resume_screening_bot.py:40-42 | with a similarity in [0,1] the match ratio and the fused score are in [0,1] |
| `Ats.FullCoverage` | resume_screening_bot.py:36-50 | a résumé with every keyword of a job description that has some gets ratio 1 and no missing keywords |
| `Ats.SameText` | resume_screening_bot.py:36-50 | a text scored against itself with similarity 1 gets ratio 1, fused score 1, no missing keyword, and is shortlisted for any threshold up to 1 |
| `Ats.EmptyResume` | resume_screening_bot.py:36-50 | against an empty résumé the ratio is 0, the fused score is `0.6 * similarity`, the missing keywords are the first ten job keywords, and a zero similarity is not shortlisted for a positive threshold |
| `Ats.EmptyResumeAtDefault` | resume_screening_bot.py:29-43 | at the default threshold 0.35 an empty résumé is shortlisted iff the similarity is at least 7/12 |
| `Ats.MoreResumeKeywordsNeverHurt` | resume_screening_bot.py:36-43 | appending text to the résumé, for the same similarity, never lowers the ratio or the fused score and never undoes a shortlisting |
| `Ats.CleaningKeepsKeywordScores` | resume_screening_bot.py:60-64 | scoring the cleaned texts, as the main block does, gives the same result as scoring the raw texts for the same similarity |

## Left out

- `extract_text_from_pdf` (lines 9-15): file input and the PyPDF2 library.
- The TF-IDF vectoriser and cosine similarity (lines 31-33): these are scikit-learn code
  and floating-point numerics. `similarity` is a `real` parameter. The bounds that need it
  in [0,1] say so in their requires or as a hypothesis of their ensures.
- `round(..., 3)` on the three reported numbers (lines 46-48). It only affects display, and
  the record holds the unrounded values.
- Floating-point arithmetic: the ratio, the fusion and the threshold comparison use exact
  `real`s. A float comparison at the threshold could fall either side of the exact one.
- The vectoriser's empty-vocabulary error (line 32). `fit_transform` raises `ValueError`
  when neither text has a token (a run of two or more word characters) outside
  scikit-learn's English stop-word list, for example
  for `ats_score("", "")` or `ats_score("about", "")`, so `ats_score` then returns nothing.
  `AtsScore` returns a result for every pair of texts. Its lemmas (`SameText`, `EmptyResume`,
  `EmptyResumeAtDefault`, `FullCoverage` and the others) describe the result only for texts
  on which a similarity was obtained.
- The main block (lines 54-72): paths, file reading and printing. Only its use of
  `clean_text` on both texts before scoring is modelled, by `CleaningKeepsKeywordScores`.
- Normalize.LowerChar: lowercases ASCII letters only. Python's `str.lower()` also maps
  non-ASCII capitals, and maps `İ` (U+0130) to two characters and the Kelvin sign (U+212A)
  to `k`, so a text holding these can gain ASCII letters. The model does not capture that.
- Keywords.IsWordChar: `\w` is exact for U+0000..U+00FF, the General Punctuation block
  U+2000..U+206F, the byte-order mark U+FEFF, the combining-mark blocks U+0300..U+036F,
  U+1AB0..U+1AFF, U+1DC0..U+1DFF, U+20D0..U+20FF and U+FE20..U+FE2F, and the private-use
  areas U+E000..U+F8FF and U+F0000..U+10FFFF. Every other
  non-whitespace character above U+00FF counts as a word character. That is right for
  letters and digits in any script. It is wrong for symbols (arrows, mathematical
  operators, emoji, currency signs), for punctuation outside those blocks (CJK and
  full-width punctuation), for other format characters, for the vowel signs and
  other marks of non-Latin scripts, and for unassigned code points such as U+0378. Next to a run of ASCII letters, such a character
  should leave a `\b` that the model does not see, so the model finds fewer keywords
  there than Python does.
- Ats.Label: the decision is a two-valued datatype. The exact label strings, with their
  check-mark and cross emoji, are only checked for their leading words.
