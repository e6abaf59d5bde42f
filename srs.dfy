/**
 * The spaced-repetition scheduler (`SM2Algorithm`): from a word's current stage and the
 * learner's quality rating it computes the new stage, the new interval in days and the
 * next review date. `today` is passed in as a day number in place of the system clock.
 */
module Srs {
  import opened Wrappers
  import Configuration

  /** The dictionary `calculate_next_review` returns. */
  datatype Review = Review(nextDate: int, newStage: int, newInterval: int)

  /** An `SM2Algorithm` object: the interval table and the easiness factor (in tenths) it copied from the configuration. */
  datatype Scheduler = Scheduler(intervals: seq<int>, easinessTenths: int)

  /** The scheduler the application builds: `SRS_INTERVALS` and the factor 1.3. */
  const Sm2: Scheduler := Scheduler(Configuration.SrsIntervals, Configuration.EasinessTenths)

  const Stages: set<int> := set s | 0 <= s <= 5

  /** Python list indexing `xs[i]`: a negative index counts from the end; out of range is an `IndexError` (`None`). */
  function PyIndex(xs: seq<int>, i: int): (r: Option<int>)
    ensures r.Some? <==> -|xs| <= i < |xs|
    ensures 0 <= i < |xs| ==> r == Some(xs[i])
    ensures -|xs| <= i < 0 ==> r == Some(xs[|xs| + i])
  {
    if 0 <= i < |xs| then Some(xs[i]) else if -|xs| <= i < 0 then Some(xs[|xs| + i]) else None
  }

  /** `int(last * factor)` with the factor exact: the product truncated toward zero. */
  function Grow(last: int, easinessTenths: int): (r: int)
    ensures last >= 0 && easinessTenths >= 0 ==> 10 * r <= last * easinessTenths < 10 * r + 10
  {
    var p := last * easinessTenths;
    if p >= 0 then p / 10 else -((-p) / 10)
  }

  /**
   * `calculate_next_review(current_stage, quality, last_interval)`. A rating below 3 resets to
   * stage 0 for one day; otherwise the stage goes up by one, at most to 5, and the interval is
   * the table's entry for the new stage, or, past the table, `int(last_interval * factor)` when
   * `last_interval` is truthy and the table's last entry when not. `None` is the `IndexError`
   * Python raises for a stage the table cannot index.
   */
  function NextReview(scheduler: Scheduler, currentStage: int, quality: int, lastInterval: Option<int>, today: int): (r: Option<Review>)
    ensures r.Some? ==> r.value.nextDate == today + r.value.newInterval
    ensures quality < 3 ==> r == Some(Review(today + 1, 0, 1))
    ensures quality >= 3 && r.Some? ==> r.value.newStage == if currentStage < 5 then currentStage + 1 else 5
  {
    if quality < 3 then
      Some(Review(today + 1, 0, 1))
    else
      var newStage := if currentStage + 1 < 5 then currentStage + 1 else 5;
      var interval :=
        if newStage < |scheduler.intervals| then PyIndex(scheduler.intervals, newStage)
        else if lastInterval.Some? && lastInterval.value != 0 then Some(Grow(lastInterval.value, scheduler.easinessTenths))
        else PyIndex(scheduler.intervals, -1);
      match interval
      case Some(days) => Some(Review(today + days, newStage, days))
      case None => None
  }

  /** From any stage 0..5 the application's scheduler answers, the new stage stays in 0..5, and the interval is at least one day. */
  lemma StageStaysInRange(stage: int, quality: int, lastInterval: Option<int>, today: int)
    requires stage in Stages
    ensures NextReview(Sm2, stage, quality, lastInterval, today).Some?
    ensures NextReview(Sm2, stage, quality, lastInterval, today).value.newStage in Stages
    ensures NextReview(Sm2, stage, quality, lastInterval, today).value.newInterval >= 1
  {
  }

  /**
   * Whatever the stage, whenever the application's scheduler answers, the word is next due
   * at least a day later: every table entry is at least one day.
   */
  lemma AlwaysAdvances(stage: int, quality: int, today: int)
    ensures var r := NextReview(Sm2, stage, quality, None, today);
      r.Some? ==> r.value.nextDate > today && r.value.newInterval >= 1
  {
    Configuration.IntervalsShape();
  }

  /** A remembered word takes the table's interval for its new stage. */
  lemma RememberedUsesTable(stage: int, quality: int, lastInterval: Option<int>, today: int)
    requires stage in Stages && quality >= 3
    ensures var s := if stage < 5 then stage + 1 else 5;
      NextReview(Sm2, stage, quality, lastInterval, today) == Some(Review(today + Configuration.SrsIntervals[s], s, Configuration.SrsIntervals[s]))
  {
  }

  /**
   * With the six-entry table the new stage (at most 5) always indexes the table, so the
   * easiness-factor branch is never taken: `last_interval` never matters.
   */
  lemma {:induction false} LastIntervalIgnored(stage: int, quality: int, last1: Option<int>, last2: Option<int>, today: int)
    ensures NextReview(Sm2, stage, quality, last1, today) == NextReview(Sm2, stage, quality, last2, today)
  {
    assert |Sm2.intervals| == 6;
  }

  /** A mature word (stage 5) remembered again keeps stage 5 and 90 days, whatever the last interval (not 117 for 90). */
  lemma MatureSaturates(quality: int, lastInterval: Option<int>, today: int)
    requires quality >= 3
    ensures NextReview(Sm2, 5, quality, lastInterval, today) == Some(Review(today + 90, 5, 90))
  {
  }

  /** The worked examples: (0, 5) gives stage 1 for 3 days, (1, 4) stage 2 for 7, (2, 3) stage 3 for 14, (4, 5) stage 5 for 90, (3, 1) a reset. */
  lemma WorkedExamples(today: int)
    ensures NextReview(Sm2, 0, 5, None, today) == Some(Review(today + 3, 1, 3))
    ensures NextReview(Sm2, 1, 4, None, today) == Some(Review(today + 7, 2, 7))
    ensures NextReview(Sm2, 2, 3, None, today) == Some(Review(today + 14, 3, 14))
    ensures NextReview(Sm2, 4, 5, None, today) == Some(Review(today + 90, 5, 90))
    ensures NextReview(Sm2, 3, 1, None, today) == Some(Review(today + 1, 0, 1))
  {
  }

  /**
   * With a table shorter than six entries the easiness branch is reached: a truthy last
   * interval grows by the factor and is truncated (15 days become 19, where rounding would
   * give 20), a missing or zero one falls back to the table's last entry.
   */
  lemma EasinessBranchTruncates(today: int)
    ensures NextReview(Scheduler([1, 3, 7], 13), 4, 4, Some(15), today) == Some(Review(today + 19, 5, 19))
    ensures NextReview(Scheduler([1, 3, 7], 13), 4, 4, Some(90), today) == Some(Review(today + 117, 5, 117))
    ensures NextReview(Scheduler([1, 3, 7], 13), 4, 4, Some(0), today) == Some(Review(today + 7, 5, 7))
    ensures NextReview(Scheduler([1, 3, 7], 13), 4, 4, None, today) == Some(Review(today + 7, 5, 7))
  {
  }

  /**
   * The stage is not checked: a stage below -1 gives a negative new stage, which Python's
   * indexing reads from the end of the table, until it falls off the front (`IndexError`).
   */
  lemma NegativeStageIndexesFromEnd(today: int)
    ensures NextReview(Sm2, -3, 4, None, today) == Some(Review(today + 30, -2, 30))
    ensures NextReview(Sm2, -7, 4, None, today) == Some(Review(today + 1, -6, 1))
    ensures NextReview(Sm2, -8, 4, None, today) == None
  {
  }

  /** The message key `quality_to_text` looks up for a rating. */
  function QualityKey(quality: int): (key: string)
    ensures quality in {0, 1, 2} ==> key == "quality_forgot"
    ensures quality == 4 ==> key == "quality_good"
    ensures quality == 5 ==> key == "quality_easy"
    ensures quality !in {0, 1, 2, 4, 5} ==> key == "quality_hard"
  {
    match quality
    case 0 => "quality_forgot"
    case 1 => "quality_forgot"
    case 2 => "quality_forgot"
    case 3 => "quality_hard"
    case 4 => "quality_good"
    case 5 => "quality_easy"
    case _ => "quality_hard"
  }

  /**
   * `quality_to_text(quality, lang)` as written: `lang` defaults to the current language but is
   * then never used, and the text always comes from the current language `current`.
   */
  function QualityToText(current: string, quality: int, lang: Option<string>): (text: string)
    ensures text == Configuration.TableFor(current)[QualityKey(quality)]
  {
    var language := lang.GetOr(current);
    Configuration.QualityLabelsEverywhere(current);
    Configuration.Text(current, QualityKey(quality), []).value
  }

  /** `quality_to_text` as evidently intended: the text in `lang`, or in the current language when `lang` is omitted. */
  function QualityToTextIn(current: string, quality: int, lang: Option<string>): (text: string)
    ensures text == Configuration.TableFor(lang.GetOr(current))[QualityKey(quality)]
    ensures lang == None ==> text == QualityToText(current, quality, lang)
  {
    Configuration.QualityLabelsEverywhere(lang.GetOr(current));
    Configuration.QualityLabelsEverywhere(current);
    Configuration.Text(lang.GetOr(current), QualityKey(quality), []).value
  }

  /** Asking for English while the interface is in Chinese still gives the Chinese text. */
  lemma QualityToTextIgnoresLang()
    ensures QualityToText("zh", 4, Some("en")) == "记得 (Good)"
    ensures QualityToTextIn("zh", 4, Some("en")) == "Good"
  {
    assert Configuration.TableFor("zh") == Configuration.ZhStrings;
    assert Configuration.TableFor("en") == Configuration.EnStrings;
    assert Configuration.ZhStrings["quality_good"] == "记得 (Good)";
    assert Configuration.EnStrings["quality_good"] == "Good";
  }
}
