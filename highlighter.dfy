/**
 * The text highlighter (`TextHighlighter`): the greedy word alignment behind `highlight_diff`,
 * its score colour, and the positional comparison of `show_comparison_table`. Only the
 * styled words are modelled; the panels and tables they are printed in are not.
 */
module Highlighter {
  import opened PyText
  import opened Scoring

  // ---------------------------------------------------------------------------------------
  // The greedy alignment, as a specification
  // ---------------------------------------------------------------------------------------

  /**
   * The earliest position at or after `k` that is not in `used` and holds `w`, or -1 when
   * there is none (`FirstFreeSpec` states this).
   */
  function FirstFree(tn: seq<string>, used: set<int>, w: string, k: nat): (r: int)
    requires k <= |tn|
    ensures r == -1 || k <= r < |tn|
    decreases |tn| - k
  {
    if k == |tn| then -1
    else if k !in used && tn[k] == w then k
    else FirstFree(tn, used, w, k + 1)
  }

  /** `FirstFree` finds a free position holding `w`, and every position before it is taken or differs. */
  lemma {:induction false} FirstFreeSpec(tn: seq<string>, used: set<int>, w: string, k: nat)
    requires k <= |tn|
    ensures var r := FirstFree(tn, used, w, k);
      && (r == -1 || (r !in used && tn[r] == w))
      && (r == -1 ==> forall q :: k <= q < |tn| ==> q in used || tn[q] != w)
      && (r != -1 ==> forall q :: k <= q < r ==> q in used || tn[q] != w)
    decreases |tn| - k
  {
    if k < |tn| && !(k !in used && tn[k] == w) {
      FirstFreeSpec(tn, used, w, k + 1);
    }
  }

  /** The characterisation pins `FirstFree` down: a free match with none free before it is the one found. */
  lemma FirstFreeIs(tn: seq<string>, used: set<int>, w: string, r: int)
    requires r == -1 || (0 <= r < |tn| && r !in used && tn[r] == w)
    requires forall q :: 0 <= q < (if r == -1 then |tn| else r) ==> q in used || tn[q] != w
    ensures FirstFree(tn, used, w, 0) == r
  {
    FirstFreeSpec(tn, used, w, 0);
  }

  /** The positions taken by an assignment (its entries that are not -1). */
  function Used(m: seq<int>): set<int> {
    if m == [] then {}
    else Used(m[..|m| - 1]) + (if m[|m| - 1] >= 0 then {m[|m| - 1]} else {})
  }

  /** Every non-negative entry of an alignment is a used position. */
  lemma {:induction false} UsedHas(m: seq<int>, i: nat)
    requires i < |m| && m[i] >= 0
    ensures m[i] in Used(m)
  {
    if i < |m| - 1 {
      UsedHas(m[..|m| - 1], i);
    }
  }

  /**
   * The greedy alignment of normalised reference words `sn` to normalised attempt words `tn`:
   * entry `i` is the attempt position matched to reference word `i`, or -1. Reference words
   * are taken left to right, each taking the earliest attempt position still free.
   */
  function Assign(sn: seq<string>, tn: seq<string>): (m: seq<int>)
    ensures |m| == |sn|
    ensures forall i :: 0 <= i < |m| ==> -1 <= m[i] < |tn|
  {
    if sn == [] then []
    else
      var prev := Assign(sn[..|sn| - 1], tn);
      prev + [FirstFree(tn, Used(prev), sn[|sn| - 1], 0)]
  }

  /** The alignment `highlight_diff` computes on the whitespace-split words of two texts. */
  function Greedy(standard: string, transcribed: string): seq<int> {
    Assign(NormalizeWords(Split(standard)), NormalizeWords(Split(transcribed)))
  }

  /** Every used position is a non-negative entry of the alignment. */
  lemma {:induction false} UsedOnly(m: seq<int>, x: int)
    requires x in Used(m)
    ensures x >= 0 && exists i :: 0 <= i < |m| && m[i] == x
  {
    var init := m[..|m| - 1];
    if x in Used(init) {
      UsedOnly(init, x);
      var i :| 0 <= i < |init| && init[i] == x;
      assert m[i] == x;
    }
  }

  lemma UsedSnoc(m: seq<int>, x: int)
    ensures Used(m + [x]) == Used(m) + (if x >= 0 then {x} else {})
  {
    assert (m + [x])[..|m|] == m;
  }

  /** Taking one more entry of an alignment adds that entry's position, if any, to the used set. */
  lemma UsedStep(m: seq<int>, i: nat)
    requires i <= |m|
    ensures i == |m| ==> m[..i] == m
    ensures i < |m| ==> Used(m[..i + 1]) == Used(m[..i]) + (if m[i] >= 0 then {m[i]} else {})
  {
    if i < |m| {
      assert m[..i + 1] == m[..i] + [m[i]];
      UsedSnoc(m[..i], m[i]);
    }
  }

  /** Aligning a prefix of the reference gives a prefix of the alignment. */
  lemma {:induction false} AssignPrefix(sn: seq<string>, tn: seq<string>, i: nat)
    requires i <= |sn|
    ensures Assign(sn[..i], tn) == Assign(sn, tn)[..i]
    decreases |sn|
  {
    if i < |sn| {
      var init := sn[..|sn| - 1];
      assert sn[..i] == init[..i];
      AssignPrefix(init, tn, i);
      assert Assign(sn, tn)[..|sn| - 1] == Assign(init, tn);
    } else {
      assert sn[..i] == sn;
    }
  }

  /**
   * Reference word `i` gets the earliest attempt position that is not taken by the words
   * before it and normalises to the same form.
   */
  lemma AssignAt(sn: seq<string>, tn: seq<string>, i: nat)
    requires i < |sn|
    ensures Assign(sn, tn)[i] == FirstFree(tn, Used(Assign(sn, tn)[..i]), sn[i], 0)
  {
    var pre := sn[..i + 1];
    AssignPrefix(sn, tn, i + 1);
    AssignPrefix(sn, tn, i);
    assert pre[..|pre| - 1] == sn[..i];
  }

  /**
   * A reference word is matched (green) if and only if some attempt position not taken by
   * the words before it holds the same normalised word; the one it takes is the earliest.
   */
  lemma MatchedIffFree(sn: seq<string>, tn: seq<string>, i: nat)
    requires i < |sn|
    ensures var m := Assign(sn, tn);
      m[i] >= 0 <==> exists q :: 0 <= q < |tn| && q !in Used(m[..i]) && tn[q] == sn[i]
    ensures var m := Assign(sn, tn);
      m[i] >= 0 ==> (tn[m[i]] == sn[i] && m[i] !in Used(m[..i]) &&
        forall q :: 0 <= q < m[i] ==> q in Used(m[..i]) || tn[q] != sn[i])
  {
    var m := Assign(sn, tn);
    AssignAt(sn, tn, i);
    FirstFreeSpec(tn, Used(m[..i]), sn[i], 0);
  }

  /** No attempt position is matched twice. */
  lemma AssignInjective(sn: seq<string>, tn: seq<string>, i: nat, k: nat)
    requires i < k < |sn|
    requires Assign(sn, tn)[i] >= 0
    ensures Assign(sn, tn)[i] != Assign(sn, tn)[k]
  {
    var m := Assign(sn, tn);
    AssignAt(sn, tn, k);
    FirstFreeSpec(tn, Used(m[..k]), sn[k], 0);
    UsedHas(m[..k], i);
  }

  /** How many entries of an alignment are matches: the number of green reference words. */
  function MatchCount(m: seq<int>): (n: nat)
    ensures n <= |m|
  {
    if m == [] then 0 else MatchCount(m[..|m| - 1]) + (if m[|m| - 1] >= 0 then 1 else 0)
  }

  /** An alignment that never repeats a position uses one position per match. */
  lemma {:induction false} UsedSize(m: seq<int>)
    requires forall i, k :: 0 <= i < k < |m| && m[i] >= 0 ==> m[i] != m[k]
    ensures |Used(m)| == MatchCount(m)
  {
    if m != [] {
      var init, x := m[..|m| - 1], m[|m| - 1];
      UsedSize(init);
      if x >= 0 && x in Used(init) {
        UsedOnly(init, x);
      }
    }
  }

  /** The integers 0 up to `n`, exclusive. */
  function Range(n: nat): (r: set<int>)
    ensures forall q :: q in r <==> 0 <= q < n
    ensures |r| == n
  {
    if n == 0 then {} else Range(n - 1) + {n - 1}
  }

  lemma UsedWithin(m: seq<int>, bound: nat)
    requires forall i :: 0 <= i < |m| ==> m[i] < bound
    ensures |Used(m)| <= bound
  {
    forall x | x in Used(m)
      ensures x in Range(bound)
    {
      UsedOnly(m, x);
    }
    SubsetSize(Used(m), Range(bound));
  }

  lemma SubsetSize(a: set<int>, b: set<int>)
    requires a <= b
    ensures |a| <= |b|
  {
    assert b == a + (b - a);
  }

  /**
   * The matched set has exactly as many positions as there are green reference words, and
   * that number is at most the length of either word list.
   */
  lemma MatchedSize(sn: seq<string>, tn: seq<string>)
    ensures var m := Assign(sn, tn);
      |Used(m)| == MatchCount(m) && MatchCount(m) <= |sn| && MatchCount(m) <= |tn|
  {
    var m := Assign(sn, tn);
    forall i, k | 0 <= i < k < |m| && m[i] >= 0
      ensures m[i] != m[k]
    {
      AssignInjective(sn, tn, i, k);
    }
    UsedSize(m);
    UsedWithin(m, |tn|);
  }

  // ---------------------------------------------------------------------------------------
  // highlight_diff
  // ---------------------------------------------------------------------------------------

  /** The Rich styles the two lines are printed with. */
  datatype Style = BoldGreen | BoldRed | Green | Dim

  /** One appended piece of styled text: a word followed by a space. */
  datatype Segment = Segment(text: string, style: Style)

  /**
   * The two styled lines of `highlight_diff`: the reference line (matched words bold green,
   * missed words bold red), the attempt line (matched words green, extra words dim), and the
   * set of matched attempt positions.
   */
  method HighlightDiff(standard: string, transcribed: string)
    returns (standardText: seq<Segment>, transcribedText: seq<Segment>, matched: set<int>)
    ensures var s, m := Split(standard), Greedy(standard, transcribed);
      |standardText| == |s| &&
      forall i :: 0 <= i < |s| ==>
        standardText[i] == Segment(s[i] + " ", if m[i] >= 0 then BoldGreen else BoldRed)
    ensures var t := Split(transcribed);
      |transcribedText| == |t| &&
      forall j :: 0 <= j < |t| ==>
        transcribedText[j] == Segment(t[j] + " ", if j in matched then Green else Dim)
    ensures matched == Used(Greedy(standard, transcribed))
  {
    var sWords := Split(standard);
    var tWords := Split(transcribed);
    standardText, matched := MarkStandard(sWords, tWords);
    StandardLineAt(sWords, Greedy(standard, transcribed));
    transcribedText := MarkTranscribed(tWords, matched);
  }

  /** The reference line for an alignment: matched words bold green, the others bold red. */
  function StandardLine(words: seq<string>, m: seq<int>): (line: seq<Segment>)
    requires |words| == |m|
    ensures |line| == |words|
  {
    if words == [] then []
    else
      var last := Segment(words[|words| - 1] + " ", if m[|m| - 1] >= 0 then BoldGreen else BoldRed);
      StandardLine(words[..|words| - 1], m[..|m| - 1]) + [last]
  }

  /** Word `i` of the reference line is styled by entry `i` of the alignment. */
  lemma {:induction false} StandardLineAt(words: seq<string>, m: seq<int>)
    requires |words| == |m|
    ensures forall i :: 0 <= i < |words| ==>
      StandardLine(words, m)[i] == Segment(words[i] + " ", if m[i] >= 0 then BoldGreen else BoldRed)
  {
    if words != [] {
      StandardLineAt(words[..|words| - 1], m[..|m| - 1]);
    }
  }

  lemma StandardLineStep(words: seq<string>, m: seq<int>, i: nat)
    requires |words| == |m| && i < |words|
    ensures StandardLine(words[..i + 1], m[..i + 1])
      == StandardLine(words[..i], m[..i]) + [Segment(words[i] + " ", if m[i] >= 0 then BoldGreen else BoldRed)]
  {
    assert words[..i + 1][..i] == words[..i];
    assert m[..i + 1][..i] == m[..i];
  }

  /**
   * The first loop of `highlight_diff`: each reference word, left to right, takes the first
   * free attempt word with the same normalised form and is styled by whether it found one.
   */
  method MarkStandard(sWords: seq<string>, tWords: seq<string>)
    returns (standardText: seq<Segment>, matched: set<int>)
    ensures var m := Assign(NormalizeWords(sWords), NormalizeWords(tWords));
      standardText == StandardLine(sWords, m) && matched == Used(m)
  {
    ghost var m := Assign(NormalizeWords(sWords), NormalizeWords(tWords));
    standardText := [];
    matched := {};
    for i := 0 to |sWords|
      invariant standardText == StandardLine(sWords[..i], m[..i])
      invariant matched == Used(m[..i])
    {
      var hit := FindFree(sWords[i], tWords, matched);
      MarkStep(sWords, tWords, i, matched, hit);
      if hit >= 0 {
        standardText := standardText + [Segment(sWords[i] + " ", BoldGreen)];
        matched := matched + {hit};
      } else {
        standardText := standardText + [Segment(sWords[i] + " ", BoldRed)];
      }
    }
    WholePrefix(sWords, m);
  }

  lemma WholePrefix(words: seq<string>, m: seq<int>)
    ensures words[..|words|] == words && m[..|m|] == m
  {
  }

  /** One iteration of the first loop keeps the reference line and the matched set in step with the alignment. */
  lemma MarkStep(sWords: seq<string>, tWords: seq<string>, i: nat, matched: set<int>, hit: int)
    requires i < |sWords|
    requires matched == Used(Assign(NormalizeWords(sWords), NormalizeWords(tWords))[..i])
    requires hit == FirstFree(NormalizeWords(tWords), matched, NormalizeWord(sWords[i]), 0)
    ensures var m := Assign(NormalizeWords(sWords), NormalizeWords(tWords));
      && hit == m[i]
      && Used(m[..i + 1]) == matched + (if hit >= 0 then {hit} else {})
      && StandardLine(sWords[..i + 1], m[..i + 1])
         == StandardLine(sWords[..i], m[..i]) + [Segment(sWords[i] + " ", if hit >= 0 then BoldGreen else BoldRed)]
  {
    var sn := NormalizeWords(sWords);
    var m := Assign(sn, NormalizeWords(tWords));
    AssignAt(sn, NormalizeWords(tWords), i);
    NormalizeWordsAt(sWords);
    UsedStep(m, i);
    StandardLineStep(sWords, m, i);
  }

  /** The second loop of `highlight_diff`: matched attempt words green, the others dim. */
  method MarkTranscribed(tWords: seq<string>, matched: set<int>) returns (transcribedText: seq<Segment>)
    ensures |transcribedText| == |tWords|
    ensures forall j :: 0 <= j < |tWords| ==>
      transcribedText[j] == Segment(tWords[j] + " ", if j in matched then Green else Dim)
  {
    transcribedText := [];
    for j := 0 to |tWords|
      invariant |transcribedText| == j
      invariant forall q :: 0 <= q < j ==>
        transcribedText[q] == Segment(tWords[q] + " ", if q in matched then Green else Dim)
    {
      if j in matched {
        transcribedText := transcribedText + [Segment(tWords[j] + " ", Green)];
      } else {
        transcribedText := transcribedText + [Segment(tWords[j] + " ", Dim)];
      }
    }
  }

  /**
   * The inner loop of `highlight_diff`: the first attempt word, skipping matched positions,
   * whose normalised form equals that of `sWord`; -1 when there is none.
   */
  method FindFree(sWord: string, tWords: seq<string>, matched: set<int>) returns (hit: int)
    ensures hit == FirstFree(NormalizeWords(tWords), matched, NormalizeWord(sWord), 0)
  {
    ghost var tn := NormalizeWords(tWords);
    NormalizeWordsAt(tWords);
    var normalizedS := NormalizeWord(sWord);
    hit := -1;
    for j := 0 to |tWords|
      invariant hit == -1
      invariant forall q :: 0 <= q < j ==> q in matched || tn[q] != normalizedS
    {
      if j in matched {
        continue;
      }
      var normalizedT := NormalizeWord(tWords[j]);
      assert tn[j] == normalizedT;
      if normalizedS == normalizedT {
        hit := j;
        FirstFreeIs(tn, matched, normalizedS, hit);
        break;
      }
      FreeDiffers(tn, matched, normalizedS, j);
    }
    if hit == -1 {
      FirstFreeIs(tn, matched, normalizedS, hit);
    }
  }

  /** Position `j` is taken or differs, so the prefix fact extends by one. */
  lemma FreeDiffers(tn: seq<string>, matched: set<int>, w: string, j: int)
    requires 0 <= j < |tn| && tn[j] != w
    requires forall q :: 0 <= q < j ==> q in matched || tn[q] != w
    ensures forall q :: 0 <= q < j + 1 ==> q in matched || tn[q] != w
  {
  }

  /** The colour the score is printed in. */
  datatype Colour = GreenScore | YellowScore | RedScore

  /** `"green" if score >= 70 else "yellow" if score >= 50 else "red"`, for a score in tenths. */
  function ScoreColour(score: int): (c: Colour)
    ensures c == GreenScore <==> score >= 700
    ensures c == YellowScore <==> 500 <= score < 700
    ensures c == RedScore <==> score < 500
  {
    if score >= 700 then GreenScore else if score >= 500 then YellowScore else RedScore
  }

  /** The colour agrees with the band: green for Good and Excellent, yellow for Needs Practice. */
  lemma ColourMatchesLevel(score: int)
    ensures ScoreColour(score) == GreenScore <==> Scoring.GetScoreLevel(score).Rank() >= 2
    ensures ScoreColour(score) == YellowScore <==> Scoring.GetScoreLevel(score) == Scoring.NeedsPractice
    ensures ScoreColour(score) == RedScore <==> Scoring.GetScoreLevel(score) == Scoring.KeepTrying
  {
  }

  // ---------------------------------------------------------------------------------------
  // show_comparison_table
  // ---------------------------------------------------------------------------------------

  /** The status column of the comparison table. */
  datatype Status = Match | Extra | Missed | Approximate {
    function Label(): string {
      match this
      case Match => "✓ 匹配"
      case Extra => "✗ 多余"
      case Missed => "✗ 遗漏"
      case Approximate => "~ 近似"
    }

    function Style(): string {
      match this
      case Match => "green"
      case Extra => "yellow"
      case Missed => "red"
      case Approximate => "blue"
    }
  }

  datatype Row = Row(standardWord: string, transcribedWord: string, status: Status)

  /** Word `i` of a list, or "-" past its end. */
  function Cell(ws: seq<string>, i: nat): string {
    if i < |ws| then ws[i] else "-"
  }

  /** The status rules, tried in order: equal, reference is "-", attempt is "-", otherwise approximate. */
  function StatusOf(s: string, t: string): (st: Status)
    ensures st == Match <==> s == t
    ensures st == Extra <==> s != t && s == "-"
    ensures st == Missed <==> s != t && s != "-" && t == "-"
    ensures st == Approximate <==> s != t && s != "-" && t != "-"
  {
    if s == t then Match else if s == "-" then Extra else if t == "-" then Missed else Approximate
  }

  /** The rows of `show_comparison_table`: words paired by position, the shorter list padded with "-". */
  method ComparisonTable(standard: string, transcribed: string) returns (rows: seq<Row>)
    ensures var s, t := Split(standard), Split(transcribed);
      |rows| == (if |s| >= |t| then |s| else |t|) &&
      forall i :: 0 <= i < |rows| ==>
        rows[i] == Row(Cell(s, i), Cell(t, i), StatusOf(Cell(s, i), Cell(t, i)))
  {
    var sWords := Split(standard);
    var tWords := Split(transcribed);
    var maxLen := if |sWords| >= |tWords| then |sWords| else |tWords|;
    rows := [];
    for i := 0 to maxLen
      invariant |rows| == i
      invariant forall k :: 0 <= k < i ==>
        rows[k] == Row(Cell(sWords, k), Cell(tWords, k), StatusOf(Cell(sWords, k), Cell(tWords, k)))
    {
      var sWord := if i < |sWords| then sWords[i] else "-";
      var tWord := if i < |tWords| then tWords[i] else "-";
      var status;
      if sWord == tWord {
        status := Match;
      } else if sWord == "-" {
        status := Extra;
      } else if tWord == "-" {
        status := Missed;
      } else {
        status := Approximate;
      }
      rows := rows + [Row(sWord, tWord, status)];
    }
  }

  /**
   * When neither text contains the word "-", row `i` is a match exactly when both words
   * exist and are equal, extra exactly when only the attempt has a word there, missed
   * exactly when only the reference has one.
   */
  lemma StatusByPosition(s: seq<string>, t: seq<string>, i: nat)
    requires "-" !in s && "-" !in t
    requires i < |s| || i < |t|
    ensures StatusOf(Cell(s, i), Cell(t, i)) == Match <==> i < |s| && i < |t| && s[i] == t[i]
    ensures StatusOf(Cell(s, i), Cell(t, i)) == Extra <==> |s| <= i
    ensures StatusOf(Cell(s, i), Cell(t, i)) == Missed <==> |t| <= i
    ensures StatusOf(Cell(s, i), Cell(t, i)) == Approximate <==> i < |s| && i < |t| && s[i] != t[i]
  {
    if i < |s| {
      assert s[i] in s;
    }
    if i < |t| {
      assert t[i] in t;
    }
  }

  /**
   * A reference word that is literally "-" past the end of the attempt is reported as a
   * match, because the padding compares equal to it.
   */
  lemma DashPaddingMatches(s: seq<string>, t: seq<string>, i: nat)
    requires |t| <= i < |s| && s[i] == "-"
    ensures StatusOf(Cell(s, i), Cell(t, i)) == Match
  {
  }
}
