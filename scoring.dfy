/**
 * The pronunciation scorer (`PronunciationScorer`): text normalisation, the 0-100 similarity
 * score, word-level accuracy and the score band. Scores are kept in integer tenths of a point
 * (85.5 is 855). The Levenshtein `ratio` is a foreign library function and is passed in.
 */
module Scoring {
  import opened PyText
  import Configuration

  /** `''.join(ch for ch in text if ch not in string.punctuation)`. */
  function RemovePunct(s: string): (r: string)
    ensures forall i :: 0 <= i < |r| ==> !IsPunct(r[i])
    ensures (forall i :: 0 <= i < |s| ==> !IsPunct(s[i])) ==> r == s
  {
    if s == [] then []
    else (if IsPunct(s[0]) then [] else [s[0]]) + RemovePunct(s[1..])
  }

  /** Dropping characters keeps any property all of them had. */
  lemma {:induction false} RemovePunctChars(s: string, P: char -> bool)
    requires forall i :: 0 <= i < |s| ==> P(s[i])
    ensures forall i :: 0 <= i < |RemovePunct(s)| ==> P(RemovePunct(s)[i])
  {
    if s != [] {
      assert forall i :: 0 <= i < |s| - 1 ==> s[1..][i] == s[i + 1];
      RemovePunctChars(s[1..], P);
    }
  }

  /** Lower-cased and stripped: every character is left alone by lower-casing. */
  function LowerStripped(text: string): (r: string)
    ensures r == Strip(Lower(text))
    ensures forall i :: 0 <= i < |r| ==> LowerChar(r[i]) == r[i]
  {
    var lowered := Lower(text);
    StripChars(lowered, c => LowerChar(c) == c);
    Strip(lowered)
  }

  /** Lower-cased, stripped and without punctuation. */
  function Cleaned(text: string): (r: string)
    ensures r == RemovePunct(Strip(Lower(text)))
    ensures forall i :: 0 <= i < |r| ==> !IsPunct(r[i]) && LowerChar(r[i]) == r[i]
  {
    var stripped := LowerStripped(text);
    RemovePunctChars(stripped, c => LowerChar(c) == c);
    RemovePunct(stripped)
  }

  /** `_normalize`: lower-case, strip, drop ASCII punctuation, collapse whitespace. */
  function Normalize(text: string): (r: string)
    ensures Collapsed(r)
    ensures forall i :: 0 <= i < |r| ==> !IsPunct(r[i]) && LowerChar(r[i]) == r[i]
  {
    var kept := Cleaned(text);
    CollapseKeepsCleaned(kept);
    CollapseIdempotent(kept);
    Collapse(kept)
  }

  lemma CollapseKeepsCleaned(s: string)
    requires forall i :: 0 <= i < |s| ==> !IsPunct(s[i]) && LowerChar(s[i]) == s[i]
    ensures forall i :: 0 <= i < |Collapse(s)| ==> !IsPunct(Collapse(s)[i]) && LowerChar(Collapse(s)[i]) == Collapse(s)[i]
  {
    CollapseChars(s, c => !IsPunct(c) && LowerChar(c) == c);
  }

  /** Normalising twice gives the same as normalising once. */
  lemma NormalizeIdempotent(text: string)
    ensures Normalize(Normalize(text)) == Normalize(text)
  {
    var n := Normalize(text);
    assert Lower(n) == n;
    StripCollapsed(n);
    assert RemovePunct(n) == n;
    assert Cleaned(n) == n;
    assert n == Collapse(Cleaned(text));
    CollapseIdempotent(Cleaned(text));
  }

  /** `str.lstrip(string.punctuation)`. */
  function LStripPunct(s: string): (r: string)
    ensures |r| <= |s| && s == s[..|s| - |r|] + r
    ensures r == [] || !IsPunct(r[0])
    ensures forall i :: 0 <= i < |s| - |r| ==> IsPunct(s[i])
  {
    if s != [] && IsPunct(s[0]) then LStripPunct(s[1..]) else s
  }

  /** `str.rstrip(string.punctuation)`. */
  function RStripPunct(s: string): (r: string)
    ensures |r| <= |s| && r == s[..|r|]
    ensures r == [] || !IsPunct(r[|r| - 1])
    ensures forall i :: |r| <= i < |s| ==> IsPunct(s[i])
  {
    if s != [] && IsPunct(s[|s| - 1]) then RStripPunct(s[..|s| - 1]) else s
  }

  /** `_normalize_word`: lower-case, then strip punctuation from both ends only. */
  function NormalizeWord(word: string): string {
    RStripPunct(LStripPunct(Lower(word)))
  }

  predicate AllPunct(s: string) {
    forall i :: 0 <= i < |s| ==> IsPunct(s[i])
  }

  lemma LowerConcat(a: string, b: string)
    ensures Lower(a + b) == Lower(a) + Lower(b)
  {
  }

  lemma {:induction false} LStripPunctPrefix(p: string, x: string)
    requires AllPunct(p) && (x == [] || !IsPunct(x[0]))
    ensures LStripPunct(p + x) == x
  {
    if p != [] {
      assert (p + x)[1..] == p[1..] + x;
      LStripPunctPrefix(p[1..], x);
    } else {
      assert p + x == x;
    }
  }

  lemma {:induction false} RStripPunctSuffix(x: string, q: string)
    requires AllPunct(q) && (x == [] || !IsPunct(x[|x| - 1]))
    ensures RStripPunct(x + q) == x
  {
    if q != [] {
      var q' := q[..|q| - 1];
      assert (x + q)[..|x + q| - 1] == x + q';
      RStripPunctSuffix(x, q');
    } else {
      assert x + q == x;
    }
  }

  /**
   * A word made of leading punctuation, a core that starts and ends with something else, and
   * trailing punctuation normalises to the lower-cased core: only the ends are stripped and
   * the interior (punctuation included) is kept.
   */
  lemma NormalizeWordKeepsCore(lead: string, core: string, trail: string)
    requires AllPunct(lead) && AllPunct(trail)
    requires core == [] || (!IsPunct(core[0]) && !IsPunct(core[|core| - 1]))
    ensures NormalizeWord(lead + core + trail) == Lower(core)
  {
    LowerConcat(lead + core, trail);
    LowerConcat(lead, core);
    assert Lower(lead) == lead && Lower(trail) == trail;
    var lc := Lower(core);
    if core == [] {
      assert lead + lc + trail == (lead + trail) + [];
      LStripPunctPrefix(lead + trail, []);
    } else {
      assert lc[0] == LowerChar(core[0]) && lc[|lc| - 1] == LowerChar(core[|core| - 1]);
      assert !IsPunct(lc[0]) && !IsPunct(lc[|lc| - 1]);
      assert lead + lc + trail == lead + (lc + trail);
      LStripPunctPrefix(lead, lc + trail);
      RStripPunctSuffix(lc, trail);
    }
  }

  /** Nearest integer, ties to the even one: Python's `round` on an exactly represented value. */
  function RoundHalfEven(x: real): (r: int)
    ensures x - 0.5 <= r as real <= x + 0.5
    ensures x == x.Floor as real ==> r == x.Floor
    ensures x - x.Floor as real == 0.5 ==> r % 2 == 0
  {
    var f := x.Floor;
    var frac := x - f as real;
    if frac < 0.5 then f else if frac > 0.5 then f + 1 else if f % 2 == 0 then f else f + 1
  }

  /** A similarity function with values in [0, 1], as Levenshtein's `ratio` is. */
  ghost predicate IsRatio(ratio: (string, string) -> real) {
    forall a, b :: 0.0 <= ratio(a, b) <= 1.0
  }

  /**
   * `calculate_score(standard, transcribed)` in tenths: 100.0 when both normalised texts are
   * empty, 0.0 when exactly one is, and otherwise `round(ratio(s1, s2) * 100, 1)`.
   */
  function CalculateScore(ratio: (string, string) -> real, standard: string, transcribed: string): (score: int)
    requires IsRatio(ratio)
    ensures 0 <= score <= 1000
    ensures Normalize(standard) == [] && Normalize(transcribed) == [] ==> score == 1000
    ensures (Normalize(standard) == []) != (Normalize(transcribed) == []) ==> score == 0
    ensures Normalize(standard) != [] && Normalize(transcribed) != [] ==>
      var x := ratio(Normalize(standard), Normalize(transcribed)) * 1000.0;
      x - 0.5 <= score as real <= x + 0.5
  {
    var s1 := Normalize(standard);
    var s2 := Normalize(transcribed);
    if s1 == [] && s2 == [] then 1000
    else if s1 == [] || s2 == [] then 0
    else
      var x := ratio(s1, s2) * 1000.0;
      assert 0.0 <= x <= 1000.0;
      RoundHalfEven(x)
  }

  /** A text scored against itself gets 100.0 when the ratio of a string with itself is 1. */
  lemma SelfScore(ratio: (string, string) -> real, text: string)
    requires IsRatio(ratio)
    requires ratio(Normalize(text), Normalize(text)) == 1.0
    ensures CalculateScore(ratio, text, text) == 1000
  {
  }

  /** The result of `get_word_accuracy`: matched count, total, and the rate in tenths of a percent. */
  datatype WordAccuracy = WordAccuracy(correct: nat, total: nat, accuracy: int)

  /** `[_normalize_word(w) for w in ws]`. */
  function NormalizeWords(ws: seq<string>): (r: seq<string>)
    ensures |r| == |ws|
  {
    seq(|ws|, i requires 0 <= i < |ws| => NormalizeWord(ws[i]))
  }

  /** Each entry is the normalised form of the word at the same position. */
  lemma NormalizeWordsAt(ws: seq<string>)
    ensures forall i :: 0 <= i < |ws| ==> NormalizeWords(ws)[i] == NormalizeWord(ws[i])
  {
  }

  /** The positions of `words` whose entry occurs somewhere in `pool`. */
  ghost function Hits(words: seq<string>, pool: seq<string>): set<int> {
    set i | 0 <= i < |words| && words[i] in pool
  }

  /** A position hits after normalising exactly when the normalised word at it occurs in the pool. */
  lemma HitsNormalized(ws: seq<string>, pool: seq<string>)
    ensures Hits(NormalizeWords(ws), pool) == set j | 0 <= j < |ws| && NormalizeWord(ws[j]) in pool
  {
    NormalizeWordsAt(ws);
  }

  /** `sum(1 for w in words if w in pool)`: how many entries of `words` occur somewhere in `pool`. */
  function CountIn(words: seq<string>, pool: seq<string>): (n: nat)
    ensures n == |Hits(words, pool)|
    ensures n <= |words|
    ensures n == |words| <==> forall i :: 0 <= i < |words| ==> words[i] in pool
    ensures n == 0 <==> forall i :: 0 <= i < |words| ==> words[i] !in pool
    decreases |words|
  {
    if words == [] then 0
    else
      HitsStep(words, pool);
      CountIn(words[..|words| - 1], pool) + (if words[|words| - 1] in pool then 1 else 0)
  }

  /** Looking at one more word adds its position to the hits exactly when it occurs in the pool. */
  lemma HitsStep(words: seq<string>, pool: seq<string>)
    requires words != []
    ensures var k := |words| - 1;
      Hits(words, pool) == Hits(words[..k], pool) + (if words[k] in pool then {k} else {})
      && k !in Hits(words[..k], pool)
  {
    var k := |words| - 1;
    forall i | 0 <= i < k
      ensures words[..k][i] == words[i]
    {
    }
  }

  /** With reference words, `r` is `correct / total * 100` in tenths to within half a tenth. */
  ghost predicate NearRate(correct: nat, total: nat, r: int)
  {
    total > 0 ==> var x := (correct as real) * 1000.0 / (total as real);
      x - 0.5 <= r as real <= x + 0.5
  }

  /** `correct / total * 100` rounded to one decimal, in tenths; 0 when there is no reference word. */
  function Rate(correct: nat, total: nat): (r: int)
    ensures total == 0 ==> r == 0
    ensures NearRate(correct, total, r)
    ensures r >= 0
    ensures correct <= total ==> r <= 1000
    ensures correct == total && total > 0 ==> r == 1000
  {
    if total == 0 then 0
    else
      var x := (correct as real) * 1000.0 / (total as real);
      RateBounds(correct as real, total as real);
      RoundHalfEven(x)
  }

  lemma RateBounds(c: real, t: real)
    requires 0.0 <= c && 0.0 < t
    ensures 0.0 <= c * 1000.0 / t
    ensures c <= t ==> c * 1000.0 / t <= 1000.0
    ensures c == t ==> c * 1000.0 / t == 1000.0
  {
    var y := c * 1000.0 / t;
    assert y * t == c * 1000.0;
    if c == t {
      assert (y - 1000.0) * t == 0.0;
    }
  }

  /**
   * `get_word_accuracy` as written: `total` is the number of reference words, and a transcribed
   * word counts as correct whenever its normalised form occurs anywhere among the reference's,
   * so a repeated word counts every time.
   */
  function GetWordAccuracy(standard: string, transcribed: string): (r: WordAccuracy)
    ensures r.total == |Split(standard)|
    ensures r.correct == |set j | 0 <= j < |Split(transcribed)| && NormalizeWord(Split(transcribed)[j]) in NormalizeWords(Split(standard))|
    ensures r.correct <= |Split(transcribed)|
    ensures NearRate(r.correct, r.total, r.accuracy)
    ensures r.total == 0 ==> r.accuracy == 0
    ensures r.accuracy >= 0
    ensures r.correct <= r.total ==> r.accuracy <= 1000
  {
    var w1 := NormalizeWords(Split(standard));
    var w2 := NormalizeWords(Split(transcribed));
    var correct := CountIn(w2, w1);
    HitsNormalized(Split(transcribed), w1);
    var total := |w1|;
    WordAccuracy(correct, total, Rate(correct, total))
  }

  /**
   * Word accuracy as evidently intended: each reference word can be matched once, so `correct`
   * is the size of the common part of the two word multisets and never exceeds the total.
   */
  function GetWordAccuracyOneToOne(standard: string, transcribed: string): (r: WordAccuracy)
    ensures r.total == |Split(standard)|
    ensures r.correct <= r.total && r.correct <= |Split(transcribed)|
    ensures 0 <= r.accuracy <= 1000
    ensures r.total > 0 && r.correct == r.total ==> r.accuracy == 1000
  {
    var w1 := NormalizeWords(Split(standard));
    var w2 := NormalizeWords(Split(transcribed));
    var common := multiset(w1) * multiset(w2);
    assert common <= multiset(w1) && common <= multiset(w2);
    MultisetSubsetSize(common, multiset(w1));
    MultisetSubsetSize(common, multiset(w2));
    WordAccuracy(|common|, |w1|, Rate(|common|, |w1|))
  }

  lemma MultisetSubsetSize(a: multiset<string>, b: multiset<string>)
    requires a <= b
    ensures |a| <= |b|
  {
    var d := b - a;
    assert b == a + d;
  }

  /** A word already in lower case with no punctuation at either end. */
  predicate Plain(w: string) {
    (forall i :: 0 <= i < |w| ==> LowerChar(w[i]) == w[i]) && (w == [] || (!IsPunct(w[0]) && !IsPunct(w[|w| - 1])))
  }

  /** `_normalize_word` leaves plain words alone. */
  lemma NormalizeWordPlain(w: string)
    requires Plain(w)
    ensures NormalizeWord(w) == w
  {
    assert Lower(w) == w;
    NormalizeWordKeepsCore([], w, []);
    assert [] + w + [] == w;
  }

  lemma NormalizeWordsPlain(ws: seq<string>)
    requires forall i :: 0 <= i < |ws| ==> Plain(ws[i])
    ensures NormalizeWords(ws) == ws
  {
    forall i | 0 <= i < |ws| ensures NormalizeWords(ws)[i] == ws[i] {
      NormalizeWordPlain(ws[i]);
    }
  }

  /** The reference `w` and the transcript `w w`, split and normalised. */
  lemma RepeatedWordSplits(w: string)
    requires w != [] && NoSpace(w) && Plain(w)
    ensures NormalizeWords(Split(w)) == [w]
    ensures NormalizeWords(Split(w + " " + w)) == [w, w]
  {
    SplitOne(w);
    SplitTwo(w);
    NormalizeWordsPlain([w]);
    NormalizeWordsPlain([w, w]);
  }

  lemma SplitOne(w: string)
    requires w != [] && NoSpace(w)
    ensures Split(w) == [w]
  {
    assert WellFormedWords([w]);
    SplitJoin([w]);
  }

  lemma SplitTwo(w: string)
    requires w != [] && NoSpace(w)
    ensures Split(w + " " + w) == [w, w]
  {
    assert WellFormedWords([w, w]);
    JoinCons(w, [w]);
    assert [w] + [w] == [w, w];
    SplitJoin([w, w]);
  }

  /**
   * A transcript repeating the single reference word twice scores 2 of 1 words, 200.0%,
   * whatever the word.
   */
  lemma RepeatedWordOvercounts(w: string)
    requires w != [] && NoSpace(w) && Plain(w)
    ensures GetWordAccuracy(w, w + " " + w) == WordAccuracy(2, 1, 2000)
  {
    RepeatedWordSplits(w);
    assert CountIn([w, w], [w]) == 2 by {
      assert [w, w][..1] == [w];
    }
    RateExamples();
  }

  /** Counted one to one, the same transcript scores 1 of 1 words, 100.0%. */
  lemma RepeatedWordCountedOnce(w: string)
    requires w != [] && NoSpace(w) && Plain(w)
    ensures GetWordAccuracyOneToOne(w, w + " " + w) == WordAccuracy(1, 1, 1000)
  {
    RepeatedWordSplits(w);
    assert multiset([w]) * multiset([w, w]) == multiset([w]);
    RateExamples();
  }

  lemma RateExamples()
    ensures Rate(2, 1) == 2000 && Rate(1, 1) == 1000
  {
    assert 2.0 * 1000.0 / 1.0 == 2000.0;
    assert (2000.0).Floor == 2000;
  }

  /** The score band `get_score_level` reports. */
  datatype Level = Excellent | Good | NeedsPractice | KeepTrying {
    function Label(): string {
      match this
      case Excellent => "🌟 Excellent"
      case Good => "👍 Good"
      case NeedsPractice => "😐 Needs Practice"
      case KeepTrying => "💪 Keep Trying"
    }

    /** Position of the band, best first. */
    function Rank(): nat {
      match this
      case Excellent => 3
      case Good => 2
      case NeedsPractice => 1
      case KeepTrying => 0
    }
  }

  /** `get_score_level(score)` for a score in tenths: at least 90 Excellent, 70 Good, 50 Needs Practice, else Keep Trying. */
  function GetScoreLevel(score: int): (level: Level)
    ensures level == Excellent <==> score >= 10 * Configuration.ScoreExcellent
    ensures level == Good <==> 10 * Configuration.ScoreGood <= score < 10 * Configuration.ScoreExcellent
    ensures level == NeedsPractice <==> 10 * Configuration.ScorePoor <= score < 10 * Configuration.ScoreGood
    ensures level == KeepTrying <==> score < 10 * Configuration.ScorePoor
  {
    if score >= 10 * Configuration.ScoreExcellent then Excellent
    else if score >= 10 * Configuration.ScoreGood then Good
    else if score >= 10 * Configuration.ScorePoor then NeedsPractice
    else KeepTrying
  }

  /** A higher score never gets a lower band. */
  lemma LevelMonotone(a: int, b: int)
    requires a <= b
    ensures GetScoreLevel(a).Rank() <= GetScoreLevel(b).Rank()
  {
  }
}
