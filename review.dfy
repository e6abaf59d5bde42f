/**
 * The daily review session (`ReviewMode`): it lists the words due today, shows each one,
 * asks how well it was remembered, reschedules it and writes the schedule back; and it
 * shows the learning statistics. The terminal is the sequence of lines the learner types;
 * what is printed, the pronunciation audio and its failures are not modelled.
 */
module Review {
  import opened Wrappers
  import Srs
  import opened Database

  /** `QUALITY_OPTIONS`: menu key to (name, quality rating). */
  const QualityOptions: map<string, (string, int)> :=
    map["1" := ("forgot", 0), "2" := ("hard", 3), "3" := ("good", 4), "4" := ("easy", 5)]

  /** The prompt's `choices` and its `default`. */
  const Choices: seq<string> := ["1", "2", "3", "4"]
  const DefaultChoice: string := "3"

  /**
   * What the quality prompt makes of one typed line: an empty line is the default choice, one
   * of the choices is itself, anything else is refused and the prompt asks again (`None`).
   */
  function PromptAnswer(line: string): (choice: Option<string>)
    ensures choice.Some? ==> choice.value in QualityOptions
    ensures line == "" ==> choice == Some(DefaultChoice)
    ensures line != "" ==> (choice.Some? <==> line in QualityOptions) && (choice.Some? ==> choice.value == line)
  {
    if line == "" then Some(DefaultChoice) else if line in Choices then Some(line) else None
  }

  /**
   * `_ask_quality` on the typed lines: the rating of the first line the prompt accepts and the
   * lines after it, or `None` and no lines left when the input runs out first (`EOFError`).
   */
  function Ask(lines: seq<string>): (r: (Option<int>, seq<string>))
    ensures r.0.Some? ==> r.0.value in {0, 3, 4, 5} && |r.1| < |lines|
    ensures r.0.None? ==> r.1 == []
  {
    if lines == [] then (None, [])
    else
      match PromptAnswer(lines[0])
      case Some(choice) => (Some(QualityOptions[choice].1), lines[1..])
      case None => Ask(lines[1..])
  }

  /** `_ask_quality` answers with the first accepted line and leaves exactly the lines after it. */
  lemma {:induction false} AskTakesFirstAnswer(lines: seq<string>, i: int)
    requires 0 <= i < |lines| && PromptAnswer(lines[i]).Some?
    requires forall j :: 0 <= j < i ==> PromptAnswer(lines[j]).None?
    ensures Ask(lines) == (Some(QualityOptions[PromptAnswer(lines[i]).value].1), lines[i + 1..])
  {
    if i > 0 {
      AskTakesFirstAnswer(lines[1..], i - 1);
      assert lines[1..][i - 1] == lines[i];
      assert lines[1..][i..] == lines[i + 1..];
    }
  }

  /** When no line is accepted, `_ask_quality` never returns: the input runs out. */
  lemma {:induction false} AskRunsOut(lines: seq<string>)
    requires forall j :: 0 <= j < |lines| ==> PromptAnswer(lines[j]).None?
    ensures Ask(lines) == (None, [])
  {
    if lines != [] {
      AskRunsOut(lines[1..]);
    }
  }

  /** The menu: "1" resets the word to stage 0 for a day; "2", "3" and an empty line advance it, "4" too. */
  lemma ChoicesSchedule(stage: int, today: int)
    requires stage in Srs.Stages
    ensures Ask(["1"]).0 == Some(0) && Ask(["2"]).0 == Some(3) && Ask(["3"]).0 == Some(4)
    ensures Ask(["4"]).0 == Some(5) && Ask([""]).0 == Some(4)
    ensures Srs.NextReview(Srs.Sm2, stage, 0, None, today) == Some(Srs.Review(today + 1, 0, 1))
    ensures forall q | q in {3, 4, 5} :: Srs.NextReview(Srs.Sm2, stage, q, None, today).value.newStage == if stage < 5 then stage + 1 else 5
  {
    assert "1" in Choices && "2" in Choices && "3" in Choices && "4" in Choices;
    forall q | q in {3, 4, 5}
      ensures Srs.NextReview(Srs.Sm2, stage, q, None, today).value.newStage == if stage < 5 then stage + 1 else 5
    {
      Srs.StageStaysInRange(stage, q, None, today);
    }
  }

  /** The effect of reviewing one word: the new table, the lines left, and whether the session goes on. */
  datatype Step = Step(vocab: map<int, Row<WordData>>, rest: seq<string>, ok: bool)

  /**
   * `_review_word` for the listed row: one line to reveal the meaning, then the quality prompt,
   * then the schedule from the row's stage (the row has no `last_interval`, so it is `None`)
   * written back by id. Running out of input, or a stage the table cannot index, ends the
   * session with the table as it is.
   */
  function ReviewOne(vocab: map<int, Row<WordData>>, row: Row<WordData>, lines: seq<string>, today: int): (s: Step)
    ensures s.vocab.Keys == vocab.Keys
    ensures |s.rest| <= |lines|
    ensures !s.ok ==> s.vocab == vocab
    ensures s.ok ==> lines != [] && Ask(lines[1..]).0.Some? && s.rest == Ask(lines[1..]).1
    ensures s.ok ==>
      var q := Ask(lines[1..]).0.value;
      var r := Srs.NextReview(Srs.Sm2, row.reviewStage, q, None, today);
      && r.Some?
      && (row.id in vocab ==>
            && s.vocab[row.id].reviewStage == r.value.newStage
            && s.vocab[row.id].nextReviewDate == r.value.nextDate
            && s.vocab[row.id].lastQuality == Some(q)
            && s.vocab[row.id].data == vocab[row.id].data)
    ensures forall x | x in vocab && x != row.id :: s.vocab[x] == vocab[x]
  {
    if lines == [] then Step(vocab, lines, false)
    else
      var asked := Ask(lines[1..]);
      match asked.0
      case None => Step(vocab, asked.1, false)
      case Some(q) =>
        match Srs.NextReview(Srs.Sm2, row.reviewStage, q, None, today)
        case None => Step(vocab, asked.1, false)
        case Some(r) => Step(UpdateRow(vocab, row.id, q, r.nextDate, r.newStage), asked.1, true)
  }

  /** How a session ends: the table, the lines left, how many words were reviewed, and whether all were. */
  datatype Outcome = Outcome(vocab: map<int, Row<WordData>>, rest: seq<string>, reviewed: nat, finished: bool)

  /** `run` after listing: every due word reviewed in order until one cannot be. */
  function ReviewAll(vocab: map<int, Row<WordData>>, due: seq<Row<WordData>>, lines: seq<string>, today: int): (o: Outcome)
    ensures o.reviewed <= |due|
    ensures o.finished ==> o.reviewed == |due|
    decreases |due|
  {
    if due == [] then Outcome(vocab, lines, 0, true)
    else
      var s := ReviewOne(vocab, due[0], lines, today);
      if !s.ok then Outcome(s.vocab, s.rest, 0, false)
      else
        var o := ReviewAll(s.vocab, due[1..], s.rest, today);
        o.(reviewed := o.reviewed + 1)
  }

  /** Reviewing the rows from `k` on is reviewing row `k`, then, if that went through, the rest. */
  lemma ReviewAllStep(vocab: map<int, Row<WordData>>, due: seq<Row<WordData>>, k: int, lines: seq<string>, today: int)
    requires 0 <= k < |due|
    ensures var s := ReviewOne(vocab, due[k], lines, today);
      var o := ReviewAll(vocab, due[k..], lines, today);
      if s.ok then
        var later := ReviewAll(s.vocab, due[k + 1..], s.rest, today);
        o == later.(reviewed := later.reviewed + 1)
      else o == Outcome(s.vocab, s.rest, 0, false)
  {
    assert due[k..][0] == due[k];
    assert due[k..][1..] == due[k + 1..];
  }

  /** No row shares its id with another. */
  predicate DistinctIds(rows: seq<Row<WordData>>) {
    forall a, b :: 0 <= a < b < |rows| ==> rows[a].id != rows[b].id
  }

  /**
   * A session adds and removes no word and touches only the words it reviewed: those are now
   * due after `today`; every other word is as it was.
   */
  lemma {:induction false} ReviewAllEffect(vocab: map<int, Row<WordData>>, due: seq<Row<WordData>>, lines: seq<string>, today: int)
    requires DistinctIds(due)
    ensures var o := ReviewAll(vocab, due, lines, today);
      && o.vocab.Keys == vocab.Keys
      && (forall k :: 0 <= k < o.reviewed && due[k].id in vocab ==> o.vocab[due[k].id].nextReviewDate > today)
      && (forall x | x in vocab && (forall k :: 0 <= k < o.reviewed ==> due[k].id != x) :: o.vocab[x] == vocab[x])
    decreases |due|
  {
    if due != [] {
      var s := ReviewOne(vocab, due[0], lines, today);
      if s.ok {
        var tail := due[1..];
        assert DistinctIds(tail);
        ReviewAllEffect(s.vocab, tail, s.rest, today);
        var asked := Ask(lines[1..]);
        Srs.AlwaysAdvances(due[0].reviewStage, asked.0.value, today);
        var o := ReviewAll(vocab, due, lines, today);
        forall k | 0 <= k < o.reviewed && due[k].id in vocab
          ensures o.vocab[due[k].id].nextReviewDate > today
        {
          if k > 0 {
            assert tail[k - 1] == due[k];
            assert due[k].id != due[0].id;
          }
        }
        forall x | x in vocab && (forall k :: 0 <= k < o.reviewed ==> due[k].id != x)
          ensures o.vocab[x] == vocab[x]
        {
          assert due[0].id != x;
          forall k | 0 <= k < o.reviewed - 1
            ensures tail[k].id != x
          {
            assert tail[k] == due[k + 1];
          }
        }
      }
    }
  }

  /** A session that reviewed every listed word leaves nothing due today. */
  lemma CompletedSessionClearsToday(vocab: map<int, Row<WordData>>, due: seq<Row<WordData>>, lines: seq<string>, today: int)
    requires forall x | x in vocab :: vocab[x].id == x
    requires Lists(vocab, DueBy(today), ByDate(), due)
    requires ReviewAll(vocab, due, lines, today).finished
    ensures Selected(ReviewAll(vocab, due, lines, today).vocab, DueBy(today)) == {}
  {
    var o := ReviewAll(vocab, due, lines, today);
    forall a, b | 0 <= a < b < |due|
      ensures due[a].id != due[b].id
    {
      assert Before(ByDate(), due[a], due[b]);
    }
    ReviewAllEffect(vocab, due, lines, today);
    forall x | x in o.vocab
      ensures o.vocab[x].nextReviewDate > today
    {
      if forall k :: 0 <= k < o.reviewed ==> due[k].id != x {
        assert o.vocab[x] == vocab[x];
      } else {
        var k :| 0 <= k < o.reviewed && due[k].id == x;
      }
    }
  }

  /** One line of the statistics table: the item and its number. */
  datatype StatItem = TotalWords | DueToday | AtStage(stage: int)
  datatype StatLine = StatLine(item: StatItem, count: int)

  /** The review session over a store and the lines the learner will type. */
  class ReviewMode {
    const db: VocabDatabase
    var input: seq<string>

    constructor (db: VocabDatabase, input: seq<string>)
      ensures this.db == db && this.input == input
    {
      this.db := db;
      this.input := input;
    }

    /** `_ask_quality`: reads lines until the prompt accepts one and returns its rating; `None` at the end of the input. */
    method AskQuality() returns (quality: Option<int>)
      modifies this
      ensures (quality, input) == Ask(old(input))
    {
      while input != []
        invariant Ask(old(input)) == Ask(input)
        decreases |input|
      {
        var line := input[0];
        input := input[1..];
        var choice := PromptAnswer(line);
        if choice.Some? && choice.value in QualityOptions {
          return Some(QualityOptions[choice.value].1);
        }
      }
      return None;
    }

    /** `_review_word`: see `ReviewOne`; `false` when the session cannot go on. */
    method ReviewWord(row: Row<WordData>, today: int) returns (ok: bool)
      requires db.Valid()
      modifies this, db
      ensures db.Valid()
      ensures var s := ReviewOne(old(db.vocab), row, old(input), today);
        db.vocab == s.vocab && input == s.rest && ok == s.ok
      ensures db.lessons == old(db.lessons) && db.nextVocabId == old(db.nextVocabId) && db.nextLessonId == old(db.nextLessonId)
    {
      if input == [] {
        return false;
      }
      input := input[1..];
      var quality := AskQuality();
      if quality.None? {
        return false;
      }
      var review := Srs.NextReview(Srs.Sm2, row.reviewStage, quality.value, None, today);
      if review.None? {
        return false;
      }
      db.UpdateReview(row.id, quality.value, review.value.nextDate, review.value.newStage);
      return true;
    }

    /**
     * `run`: lists the words due today (returned as `due`) and reviews them in that order; with
     * none due it stops at once.
     */
    method Run(today: int) returns (due: seq<Row<WordData>>, reviewed: nat, finished: bool)
      requires db.Valid()
      modifies this, db
      ensures db.Valid()
      ensures Lists(old(db.vocab), DueBy(today), ByDate(), due)
      ensures var o := ReviewAll(old(db.vocab), due, old(input), today);
        db.vocab == o.vocab && input == o.rest && reviewed == o.reviewed && finished == o.finished
      ensures db.lessons == old(db.lessons) && db.nextVocabId == old(db.nextVocabId) && db.nextLessonId == old(db.nextLessonId)
    {
      due := db.GetDueWords(today);
      reviewed, finished := 0, true;
      if due == [] {
        return;
      }
      ghost var whole := ReviewAll(db.vocab, due, input, today);
      while reviewed < |due|
        invariant reviewed <= |due|
        invariant db.Valid()
        invariant var o := ReviewAll(db.vocab, due[reviewed..], input, today);
          whole == o.(reviewed := o.reviewed + reviewed)
        invariant db.lessons == old(db.lessons) && db.nextVocabId == old(db.nextVocabId) && db.nextLessonId == old(db.nextLessonId)
      {
        ReviewAllStep(db.vocab, due, reviewed, input, today);
        var ok := ReviewWord(due[reviewed], today);
        if !ok {
          finished := false;
          return;
        }
        reviewed := reviewed + 1;
      }
    }

    /**
     * `show_statistics`: the total, the number due today, then one line per stage that has
     * words, in ascending stage order; the stage lines add up to the total.
     */
    method ShowStatistics(today: int) returns (lines: seq<StatLine>)
      requires db.Valid()
      ensures |lines| >= 2
      ensures lines[0] == StatLine(TotalWords, |db.vocab|)
      ensures lines[1] == StatLine(DueToday, |Selected(db.vocab, DueBy(today))|)
      ensures forall k :: 2 <= k < |lines| ==>
        (lines[k].item.AtStage? && lines[k].item.stage in Distribution(db.vocab, db.nextVocabId)
         && lines[k].count == Distribution(db.vocab, db.nextVocabId)[lines[k].item.stage])
      ensures forall s | s in Distribution(db.vocab, db.nextVocabId) :: exists k :: 2 <= k < |lines| && lines[k].item == AtStage(s)
      ensures forall a, b :: 2 <= a < b < |lines| ==> lines[a].item.stage < lines[b].item.stage
      ensures Total(Distribution(db.vocab, db.nextVocabId)) == lines[0].count
    {
      var total, dueToday, stages := db.GetStatistics(today);
      var order := SortedKeys(stages);
      var stageLines := seq(|order|, i requires 0 <= i < |order| => StatLine(AtStage(order[i]), stages[order[i]]));
      lines := [StatLine(TotalWords, total), StatLine(DueToday, dueToday)] + stageLines;
      StageLinesListStages(order, stages, lines);
      StatisticsConsistent(db.vocab, db.nextVocabId, 0);
    }
  }

  /** Lines built from the sorted keys of a distribution list each stage once, in ascending order. */
  lemma StageLinesListStages(order: seq<int>, stages: map<int, nat>, lines: seq<StatLine>)
    requires forall k :: 0 <= k < |order| ==> order[k] in stages
    requires forall x | x in stages :: x in order
    requires forall a, b :: 0 <= a < b < |order| ==> order[a] < order[b]
    requires |lines| >= 2
    requires lines[2..] == seq(|order|, i requires 0 <= i < |order| => StatLine(AtStage(order[i]), stages[order[i]]))
    ensures forall k :: 2 <= k < |lines| ==>
      lines[k].item.AtStage? && lines[k].item.stage in stages && lines[k].count == stages[lines[k].item.stage]
    ensures forall s | s in stages :: exists k :: 2 <= k < |lines| && lines[k].item == AtStage(s)
    ensures forall a, b :: 2 <= a < b < |lines| ==> lines[a].item.stage < lines[b].item.stage
  {
    forall k | 2 <= k < |lines|
      ensures lines[k] == StatLine(AtStage(order[k - 2]), stages[order[k - 2]])
    {
      assert lines[k] == lines[2..][k - 2];
    }
    forall s | s in stages
      ensures exists k :: 2 <= k < |lines| && lines[k].item == AtStage(s)
    {
      var i :| 0 <= i < |order| && order[i] == s;
      assert lines[i + 2].item == AtStage(s);
    }
  }

  /** `sorted(d.items())` by key: the keys of `m` in ascending order, by repeatedly taking the least. */
  method SortedKeys(m: map<int, nat>) returns (keys: seq<int>)
    ensures forall k :: 0 <= k < |keys| ==> keys[k] in m
    ensures forall x | x in m :: x in keys
    ensures forall a, b :: 0 <= a < b < |keys| ==> keys[a] < keys[b]
  {
    keys := [];
    var rest := m.Keys;
    while rest != {}
      invariant rest <= m.Keys
      invariant forall k :: 0 <= k < |keys| ==> keys[k] in m && keys[k] !in rest
      invariant forall x | x in m :: x in keys || x in rest
      invariant forall a, b :: 0 <= a < b < |keys| ==> keys[a] < keys[b]
      invariant forall k, x :: 0 <= k < |keys| && x in rest ==> keys[k] < x
      decreases |rest|
    {
      var least := Least(rest);
      assert forall x | x in rest - {least} :: least < x;
      keys := keys + [least];
      rest := rest - {least};
    }
  }

  /** The least element of a non-empty set. */
  lemma {:induction false} HasLeast(s: set<int>)
    requires s != {}
    ensures exists x :: x in s && forall y | y in s :: x <= y
    decreases |s|
  {
    HasKey(s);
    var x :| x in s;
    var others := s - {x};
    if others != {} {
      HasLeast(others);
      var y :| y in others && forall z | z in others :: y <= z;
      var m := if y < x then y else x;
      forall z | z in s
        ensures m <= z
      {
        if z != x {
          assert z in others;
        }
      }
    } else {
      assert s == {x};
    }
  }

  method Least(s: set<int>) returns (x: int)
    requires s != {}
    ensures x in s && forall y | y in s :: x <= y
  {
    HasLeast(s);
    x :| x in s && forall y | y in s :: x <= y;
  }
}
