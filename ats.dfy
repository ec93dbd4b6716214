/**
  The keyword part of `ats_score`: the overlap of the keyword sets of a job
  description and a résumé, the match ratio, its fusion with the text
  similarity, the shortlisting decision and the list of missing keywords.
  The TF-IDF cosine similarity is an input here, not computed.
 */
module Ats {
  import opened StringOrder
  import opened Keywords

  /** The default `threshold` of `ats_score`. */
  const DefaultThreshold: real := 0.35

  /** The weights of the fusion `0.6 * similarity + 0.4 * match_score`. */
  const SimilarityWeight: real := 0.6
  const KeywordWeight: real := 0.4

  /** How many missing keywords are reported. */
  const MissingLimit: nat := 10

  datatype Decision = Shortlisted | NotShortlisted

  /** The text the decision is reported as. */
  function Label(d: Decision): (s: string)
    ensures d == Shortlisted <==> "Shortlisted" <= s
    ensures d == NotShortlisted <==> "Not Shortlisted" <= s
  {
    match d
    case Shortlisted =>
      var s := "Shortlisted \U{2705}";
      assert s[0] != "Not Shortlisted"[0];
      s
    case NotShortlisted =>
      var s := "Not Shortlisted \U{274C}";
      assert s[0] != "Shortlisted"[0];
      s
  }

  /** The dictionary `ats_score` returns, before rounding. */
  datatype ScoreResult = ScoreResult(
    similarity: real,
    keywordMatch: real,
    finalScore: real,
    decision: Decision,
    missingKeywords: seq<string>)

  /** `set(extract_keywords(text))`. */
  function KeywordSet(text: string): (ks: set<string>)
    ensures |ks| == |ExtractKeywords(text)|
    ensures forall w :: w in ks ==> w !in Stopwords && |w| >= MinKeywordLength
  {
    AscendingCard(ExtractKeywords(text));
    set w | w in ExtractKeywords(text)
  }

  /** `len(jd_keywords & resume_keywords)`. */
  function MatchCount(jd: set<string>, resume: set<string>): (n: nat)
    ensures n <= |jd| && n <= |resume|
    ensures n == 0 <==> forall w :: w in jd ==> w !in resume
  {
    var both := jd * resume;
    assert both != {} ==> exists w :: w in jd && w in resume by {
      if both != {} {
        var w :| w in both;
        assert w in jd && w in resume;
      }
    }
    assert jd == both + (jd - both) && resume == both + (resume - both);
    |both|
  }

  /** `jd_keywords - resume_keywords`. */
  function Missing(jd: set<string>, resume: set<string>): (m: set<string>)
    ensures m <= jd
    ensures forall w :: w in jd ==> (w in m <==> w !in resume)
  {
    jd - resume
  }

  /** Matched and missing keywords partition the job description's keywords. */
  lemma OverlapPartition(jd: set<string>, resume: set<string>)
    ensures MatchCount(jd, resume) + |Missing(jd, resume)| == |jd|
    ensures (jd * resume) + Missing(jd, resume) == jd
    ensures (jd * resume) * Missing(jd, resume) == {}
  {
    var both, missing := jd * resume, jd - resume;
    assert jd == both + missing;
    assert both * missing == {};
  }

  /** A subset as large as its superset is the superset. */
  lemma SubsetSameSize(a: set<string>, b: set<string>)
    requires a <= b && |a| == |b|
    ensures a == b
  {
    assert b == a + (b - a);
    assert |b - a| == 0;
  }

  /** `max(n, 1)`. */
  function AtLeastOne(n: nat): (d: nat)
    ensures d >= 1 && d >= n
    ensures n >= 1 ==> d == n
    ensures n == 0 ==> d == 1
  {
    if n > 1 then n else 1
  }

  /** `match_count / max(len(jd_keywords), 1)`. */
  function MatchScore(jd: set<string>, resume: set<string>): (r: real)
    ensures 0.0 <= r <= 1.0
    ensures jd == {} ==> r == 0.0
    ensures r == 1.0 <==> jd != {} && jd <= resume
    ensures r == 0.0 <==> forall w :: w in jd ==> w !in resume
  {
    var count := MatchCount(jd, resume);
    var d := AtLeastOne(|jd|);
    var r := count as real / d as real;
    Ratio(count, d);
    assert r == 1.0 ==> jd <= resume by {
      if r == 1.0 { SubsetSameSize(jd * resume, jd); }
    }
    assert jd <= resume && jd != {} ==> r == 1.0 by {
      if jd <= resume && jd != {} { assert jd * resume == jd; }
    }
    r
  }

  /** A count over a positive total lies in [0,1]; it is 1 exactly for the
      full count and 0 exactly for none. */
  lemma Ratio(count: nat, total: nat)
    requires count <= total && total >= 1
    ensures var r := count as real / total as real;
      0.0 <= r <= 1.0 && (r == 1.0 <==> count == total) && (r == 0.0 <==> count == 0)
  {
    var c, d := count as real, total as real;
    var r := c / d;
    assert r * d == c;
    if r == 1.0 { assert c == 1.0 * d; }
    if c == d { assert r == 1.0; }
  }

  /** More resume keywords never lower the match score. */
  lemma MatchScoreMonotone(jd: set<string>, resume: set<string>, more: set<string>)
    requires resume <= more
    ensures MatchScore(jd, resume) <= MatchScore(jd, more)
  {
    assert jd * resume <= jd * more;
    assert MatchCount(jd, resume) <= MatchCount(jd, more) by {
      assert jd * more == (jd * resume) + (jd * more - jd * resume);
    }
    DivideMonotone(MatchCount(jd, resume) as real, MatchCount(jd, more) as real,
      AtLeastOne(|jd|) as real);
  }

  lemma DivideMonotone(a: real, b: real, d: real)
    requires a <= b && d > 0.0
    ensures a / d <= b / d
  {
    assert b / d - a / d == (b - a) / d;
  }

  /** `0.6 * similarity + 0.4 * match_score`: a weighted mean, so it lies
      between its two inputs. */
  function FinalScore(similarity: real, matchScore: real): (r: real)
    ensures similarity <= matchScore ==> similarity <= r <= matchScore
    ensures matchScore <= similarity ==> matchScore <= r <= similarity
    ensures 0.0 <= similarity <= 1.0 && 0.0 <= matchScore <= 1.0 ==> 0.0 <= r <= 1.0
    ensures similarity <= 1.0 && matchScore <= 1.0 ==> (r == 1.0 <==> similarity == 1.0 && matchScore == 1.0)
  {
    SimilarityWeight * similarity + KeywordWeight * matchScore
  }

  /** The fusion is increasing in both inputs. */
  lemma FinalScoreMonotone(s: real, m: real, s': real, m': real)
    requires s <= s' && m <= m'
    ensures FinalScore(s, m) <= FinalScore(s', m')
    ensures s < s' || m < m' ==> FinalScore(s, m) < FinalScore(s', m')
  {
  }

  /** The conditional expression that decides: shortlisted when the score
      reaches the threshold. */
  function Decide(finalScore: real, threshold: real): (d: Decision)
    ensures d == Shortlisted <==> threshold <= finalScore
  {
    if finalScore >= threshold then Shortlisted else NotShortlisted
  }

  /** A score at the threshold is shortlisted; a higher score or a lower
      threshold keeps a shortlisted candidate shortlisted. */
  lemma DecideMonotone(f: real, t: real, f': real, t': real)
    requires f <= f' && t' <= t
    ensures Decide(f, t) == Shortlisted ==> Decide(f', t') == Shortlisted
    ensures Decide(t, t) == Shortlisted
  {
  }

  function Min(a: nat, b: nat): nat
  {
    if a <= b then a else b
  }

  /** `sorted(list(missing))[:10]`: the ten smallest missing keywords, or all
      of them when there are at most ten. */
  function TopMissing(missing: set<string>): (r: seq<string>)
    ensures |r| == Min(|missing|, MissingLimit)
    ensures StrictlyAscending(r)
    ensures forall w :: w in r ==> w in missing
    ensures forall x, y :: x in r && y in missing && y !in r ==> Less(x, y)
    ensures |missing| <= MissingLimit ==> forall w :: w in missing ==> w in r
  {
    var sorted := SortSet(missing);
    var n := Min(|missing|, MissingLimit);
    AscendingPrefix(sorted, n);
    assert sorted == sorted[..n] + sorted[n..];
    assert forall y :: y in missing && y !in sorted[..n] ==> y in sorted[n..];
    sorted[..n]
  }

  /** The scores of `ats_score` computed from the two keyword sets. */
  function ScoreKeywords(jd: set<string>, resume: set<string>, similarity: real, threshold: real)
    : (r: ScoreResult)
    ensures r.similarity == similarity
    ensures r.keywordMatch == MatchScore(jd, resume)
    ensures r.finalScore == FinalScore(similarity, r.keywordMatch)
    ensures r.decision == Shortlisted <==> threshold <= r.finalScore
    ensures |r.missingKeywords| == Min(|Missing(jd, resume)|, MissingLimit)
    ensures StrictlyAscending(r.missingKeywords)
    ensures forall w :: w in r.missingKeywords ==> w in jd && w !in resume
    ensures forall x, y ::
      x in r.missingKeywords && y in jd && y !in resume && y !in r.missingKeywords ==> Less(x, y)
    ensures |Missing(jd, resume)| <= MissingLimit ==>
      forall w :: w in jd && w !in resume ==> w in r.missingKeywords
  {
    var matchScore := MatchScore(jd, resume);
    var finalScore := FinalScore(similarity, matchScore);
    ScoreResult(similarity, matchScore, finalScore, Decide(finalScore, threshold),
      TopMissing(Missing(jd, resume)))
  }

  /** The keyword part of `ats_score(jd_text, resume_text, threshold)`, with
      the TF-IDF similarity of the two texts given as `similarity`. */
  function AtsScore(jdText: string, resumeText: string, similarity: real, threshold: real)
    : (r: ScoreResult)
    ensures r.similarity == similarity
    ensures r.keywordMatch == MatchScore(KeywordSet(jdText), KeywordSet(resumeText))
    ensures r.finalScore == FinalScore(similarity, r.keywordMatch)
    ensures r.decision == Shortlisted <==> threshold <= r.finalScore
    ensures |r.missingKeywords| == Min(|Missing(KeywordSet(jdText), KeywordSet(resumeText))|, MissingLimit)
    ensures StrictlyAscending(r.missingKeywords)
    ensures forall w :: w in r.missingKeywords ==>
      w in ExtractKeywords(jdText) && w !in ExtractKeywords(resumeText)
    ensures forall x, y ::
      (&& x in r.missingKeywords
       && y in ExtractKeywords(jdText) && y !in ExtractKeywords(resumeText)
       && y !in r.missingKeywords) ==> Less(x, y)
    ensures |Missing(KeywordSet(jdText), KeywordSet(resumeText))| <= MissingLimit ==>
      forall w :: w in ExtractKeywords(jdText) && w !in ExtractKeywords(resumeText) ==>
        w in r.missingKeywords
  {
    var jd := KeywordSet(jdText);
    var resume := KeywordSet(resumeText);
    var r := ScoreKeywords(jd, resume, similarity, threshold);
    assert forall w :: w in ExtractKeywords(jdText) <==> w in jd;
    assert forall w :: w in ExtractKeywords(resumeText) <==> w in resume;
    r
  }

  /** The reported scores are in [0,1] whenever the similarity is. */
  lemma AtsScoreBounds(jdText: string, resumeText: string, similarity: real, threshold: real)
    requires 0.0 <= similarity <= 1.0
    ensures var r := AtsScore(jdText, resumeText, similarity, threshold);
      0.0 <= r.keywordMatch <= 1.0 && 0.0 <= r.finalScore <= 1.0
  {
    var ms := MatchScore(KeywordSet(jdText), KeywordSet(resumeText));
    assert 0.0 <= FinalScore(similarity, ms) <= 1.0;
  }

  /** A résumé containing every keyword of a job description that has some
      gets full keyword marks and misses nothing. */
  lemma FullCoverage(jdText: string, resumeText: string, similarity: real, threshold: real)
    requires ExtractKeywords(jdText) != []
    requires forall w :: w in ExtractKeywords(jdText) ==> w in ExtractKeywords(resumeText)
    ensures var r := AtsScore(jdText, resumeText, similarity, threshold);
      r.keywordMatch == 1.0 && r.missingKeywords == []
  {
    var jd, resume := KeywordSet(jdText), KeywordSet(resumeText);
    assert ExtractKeywords(jdText)[0] in jd;
    assert Missing(jd, resume) == {};
  }

  /** Scoring a text against itself with full similarity gives full marks
      and a shortlisting at any threshold up to 1. */
  lemma SameText(text: string, threshold: real)
    requires ExtractKeywords(text) != []
    ensures var r := AtsScore(text, text, 1.0, threshold);
      && r.keywordMatch == 1.0 && r.finalScore == 1.0 && r.missingKeywords == []
      && (threshold <= 1.0 ==> r.decision == Shortlisted)
  {
    FullCoverage(text, text, 1.0, threshold);
  }

  /** Against an empty résumé every keyword is missing: the score is the
      weighted similarity alone and the first ten keywords of the job
      description are reported. */
  lemma EmptyResume(jdText: string, similarity: real, threshold: real)
    ensures var r := AtsScore(jdText, "", similarity, threshold);
      var ks := ExtractKeywords(jdText);
      && r.keywordMatch == 0.0
      && r.finalScore == SimilarityWeight * similarity
      && r.missingKeywords == ks[..Min(|ks|, MissingLimit)]
      && (similarity == 0.0 && threshold > 0.0 ==> r.decision == NotShortlisted)
  {
    var ks := ExtractKeywords(jdText);
    assert ExtractKeywords("") == [];
    var jd := KeywordSet(jdText);
    assert Missing(jd, KeywordSet("")) == jd;
    SortSetOfAscending(ks);
  }

  /** At the default threshold an empty résumé is shortlisted exactly when
      the text similarity alone reaches 0.35 / 0.6, that is 7/12. */
  lemma EmptyResumeAtDefault(jdText: string, similarity: real)
    ensures AtsScore(jdText, "", similarity, DefaultThreshold).decision == Shortlisted
      <==> 12.0 * similarity >= 7.0
  {
    EmptyResume(jdText, similarity, DefaultThreshold);
  }

  /** Appending text to the résumé never lowers its keyword score; with the
      similarity held fixed it never lowers the final score nor turns a
      shortlisting into a rejection. */
  lemma MoreResumeKeywordsNeverHurt(jdText: string, resumeText: string, extra: string,
                                 similarity: real, threshold: real)
    ensures var r := AtsScore(jdText, resumeText, similarity, threshold);
      var r' := AtsScore(jdText, resumeText + " " + extra, similarity, threshold);
      && r.keywordMatch <= r'.keywordMatch
      && r.finalScore <= r'.finalScore
      && (r.decision == Shortlisted ==> r'.decision == Shortlisted)
  {
    KeywordsOfJoin(resumeText, extra);
    var jd := KeywordSet(jdText);
    MatchScoreMonotone(jd, KeywordSet(resumeText), KeywordSet(resumeText + " " + extra));
  }

  /** Cleaning both texts first, as the program does before scoring, gives
      the same keyword score and missing keywords as scoring the raw texts. */
  lemma CleaningKeepsKeywordScores(jdText: string, resumeText: string,
                                   similarity: real, threshold: real)
    ensures AtsScore(Normalize.CleanText(jdText), Normalize.CleanText(resumeText), similarity, threshold)
      == AtsScore(jdText, resumeText, similarity, threshold)
  {
    CleanTextKeepsKeywords(jdText);
    CleanTextKeepsKeywords(resumeText);
  }
}
