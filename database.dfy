/**
 * The review store (`VocabDatabase`): two tables keyed by an auto-increment id, the
 * vocabulary and the YouTube lesson segments, each row carrying its review schedule.
 * The SQLite file is modelled as in-memory maps; `date.today()` is the `today` parameter,
 * a day number, and the `created_at` timestamps are not modelled.
 */
module Database {
  import opened Wrappers

  /** The columns of a `vocab` row other than the id and the schedule. */
  datatype WordData = WordData(word: string, meaning: string, contextSentence: Option<string>)

  /** The columns of a `youtube_lessons` row other than the id and the schedule. */
  datatype LessonData = LessonData(
    videoUrl: string, videoTitle: string, segmentPath: string,
    startTime: real, endTime: real,
    hindiText: string, transliteration: string, englishText: string, chineseText: string)

  /** A row of either table: its id, its own columns and its review schedule. */
  datatype Row<D> = Row(id: int, data: D, reviewStage: int, nextReviewDate: int, lastQuality: Option<int>)

  // ---------------------------------------------------------------------------------------
  // Filtered, ordered reads (`SELECT ... WHERE ... ORDER BY ...`)
  // ---------------------------------------------------------------------------------------

  /** Row `x` comes before row `y`: a smaller sort key, or the same key and a smaller id. */
  predicate Before<D>(key: Row<D> -> real, x: Row<D>, y: Row<D>) {
    key(x) < key(y) || (key(x) == key(y) && x.id < y.id)
  }

  predicate Ordered<D>(key: Row<D> -> real, rows: seq<Row<D>>) {
    forall a, b :: 0 <= a < b < |rows| ==> Before(key, rows[a], rows[b])
  }

  /** The ids of the rows a `WHERE` clause keeps. */
  ghost function Selected<D>(table: map<int, Row<D>>, keep: Row<D> -> bool): set<int> {
    set x | x in table && keep(table[x])
  }

  /**
   * `rows` is the result of the query: exactly the table's rows that `keep` accepts, each
   * once, in ascending order of `key` (rows with equal keys in id order).
   */
  predicate Lists<D(==)>(table: map<int, Row<D>>, keep: Row<D> -> bool, key: Row<D> -> real, rows: seq<Row<D>>) {
    && (forall k :: 0 <= k < |rows| ==> rows[k].id in table && table[rows[k].id] == rows[k] && keep(rows[k]))
    && (forall x | x in table && keep(table[x]) :: table[x] in rows)
    && Ordered(key, rows)
  }

  /** Puts `r` into the ordered `rows` at its place. */
  function Insert<D>(key: Row<D> -> real, rows: seq<Row<D>>, r: Row<D>): (res: seq<Row<D>>)
    ensures |res| == |rows| + 1
    ensures multiset(res) == multiset(rows) + multiset{r}
  {
    if rows == [] || Before(key, r, rows[0]) then [r] + rows
    else
      assert rows == [rows[0]] + rows[1..];
      [rows[0]] + Insert(key, rows[1..], r)
  }

  /** Inserting a row whose id none of the rows has keeps the rows ordered. */
  lemma {:induction false} InsertOrdered<D>(key: Row<D> -> real, rows: seq<Row<D>>, r: Row<D>)
    requires Ordered(key, rows)
    requires forall k :: 0 <= k < |rows| ==> rows[k].id != r.id
    ensures Ordered(key, Insert(key, rows, r))
  {
    if rows != [] && !Before(key, r, rows[0]) {
      var tail := rows[1..];
      assert Ordered(key, tail);
      InsertOrdered(key, tail, r);
      var res := Insert(key, rows, r);
      assert res == [rows[0]] + Insert(key, tail, r);
      assert Before(key, rows[0], r);
      forall b | 0 < b < |res|
        ensures Before(key, rows[0], res[b])
      {
        assert res[b] in multiset(tail) + multiset{r};
        if res[b] != r {
          assert res[b] in tail;
          var k :| 0 <= k < |tail| && tail[k] == res[b];
          assert rows[k + 1] == res[b];
        }
      }
    }
  }

  /**
   * The query: scans the ids below `bound` in ascending order and inserts each kept row at
   * its place in the result.
   */
  method Select<D(==)>(table: map<int, Row<D>>, bound: int, keep: Row<D> -> bool, key: Row<D> -> real)
    returns (rows: seq<Row<D>>)
    requires forall x | x in table :: 0 < x < bound && table[x].id == x
    ensures Lists(table, keep, key, rows)
    ensures |rows| == |Selected(table, keep)|
  {
    rows := [];
    var id := 1;
    while id < bound
      invariant 1 <= id
      invariant Scanned(table, keep, key, rows, id)
    {
      ScanStep(table, keep, key, rows, id);
      if id in table && keep(table[id]) {
        rows := Insert(key, rows, table[id]);
      }
      id := id + 1;
    }
    ListedCount(table, keep, key, rows);
  }

  /** After scanning the ids below `id`: the kept rows among them, ordered. */
  ghost predicate Scanned<D>(table: map<int, Row<D>>, keep: Row<D> -> bool, key: Row<D> -> real, rows: seq<Row<D>>, id: int) {
    && (forall k :: 0 <= k < |rows| ==> rows[k].id in table && table[rows[k].id] == rows[k] && keep(rows[k]) && rows[k].id < id)
    && (forall x | x in table && x < id && keep(table[x]) :: table[x] in rows)
    && Ordered(key, rows)
  }

  /** Scanning one more id inserts its row when it is kept. */
  lemma ScanStep<D>(table: map<int, Row<D>>, keep: Row<D> -> bool, key: Row<D> -> real, rows: seq<Row<D>>, id: int)
    requires forall x | x in table :: table[x].id == x
    requires Scanned(table, keep, key, rows, id)
    ensures Scanned(table, keep, key, if id in table && keep(table[id]) then Insert(key, rows, table[id]) else rows, id + 1)
  {
    if id in table && keep(table[id]) {
      var r := table[id];
      var next := Insert(key, rows, r);
      InsertOrdered(key, rows, r);
      forall k | 0 <= k < |next|
        ensures next[k].id in table && table[next[k].id] == next[k] && keep(next[k]) && next[k].id < id + 1
      {
        assert next[k] in multiset(rows) + multiset{r};
        if next[k] != r {
          var j :| 0 <= j < |rows| && rows[j] == next[k];
        }
      }
      forall x | x in table && x < id + 1 && keep(table[x])
        ensures table[x] in next
      {
        if x < id {
          assert table[x] in multiset(rows);
        }
        assert table[x] in multiset(next);
      }
    }
  }

  /** A listing has one row per selected id. */
  lemma ListedCount<D>(table: map<int, Row<D>>, keep: Row<D> -> bool, key: Row<D> -> real, rows: seq<Row<D>>)
    requires forall x | x in table :: table[x].id == x
    requires Lists(table, keep, key, rows)
    ensures |rows| == |Selected(table, keep)|
  {
    var ids := IdsOf(rows);
    forall x | x in Selected(table, keep)
      ensures x in ids
    {
      var k :| 0 <= k < |rows| && rows[k] == table[x];
      assert ids[k] == x;
    }
    assert Selected(table, keep) == set k | 0 <= k < |ids| :: ids[k];
    forall a, b | 0 <= a < b < |ids|
      ensures ids[a] != ids[b]
    {
      assert Before(key, rows[a], rows[b]);
    }
    DistinctCount(ids);
  }

  function IdsOf<D>(rows: seq<Row<D>>): (ids: seq<int>)
    ensures |ids| == |rows| && forall k :: 0 <= k < |rows| ==> ids[k] == rows[k].id
  {
    seq(|rows|, k requires 0 <= k < |rows| => rows[k].id)
  }

  /** A sequence without repetitions has as many distinct elements as entries. */
  lemma {:induction false} DistinctCount(s: seq<int>)
    requires forall a, b :: 0 <= a < b < |s| ==> s[a] != s[b]
    ensures |set k | 0 <= k < |s| :: s[k]| == |s|
  {
    if s != [] {
      var init := s[..|s| - 1];
      DistinctCount(init);
      var before := set k | 0 <= k < |init| :: init[k];
      assert (set k | 0 <= k < |s| :: s[k]) == before + {s[|s| - 1]};
      assert s[|s| - 1] !in before;
    }
  }

  // ---------------------------------------------------------------------------------------
  // Grouped counts (`SELECT review_stage, COUNT(*) ... GROUP BY review_stage`)
  // ---------------------------------------------------------------------------------------

  /** The ids below `n` whose row is at `stage`. */
  ghost function AtStage<D>(table: map<int, Row<D>>, n: int, stage: int): set<int> {
    set x | x in table && 0 < x < n && table[x].reviewStage == stage
  }

  /** The ids below `n`. */
  ghost function Below<D>(table: map<int, Row<D>>, n: int): set<int> {
    set x | x in table && 0 < x < n
  }

  /** Counts one more row at `stage`. */
  function Bump(counts: map<int, nat>, stage: int): (r: map<int, nat>)
    ensures r.Keys == counts.Keys + {stage}
  {
    counts[stage := (if stage in counts then counts[stage] else 0) + 1]
  }

  /** The per-stage counts of the rows with ids below `n`, as a scan in id order builds them. */
  function Distribution<D>(table: map<int, Row<D>>, n: int): map<int, nat>
    decreases n
  {
    if n <= 1 then map[]
    else
      var d := Distribution(table, n - 1);
      if n - 1 in table then Bump(d, table[n - 1].reviewStage) else d
  }

  /**
   * The counts are sparse and exact: a stage is present only when some row is at it, and
   * its count is the number of rows at it.
   */
  lemma {:induction false} DistributionCounts<D>(table: map<int, Row<D>>, n: int, stage: int)
    ensures stage in Distribution(table, n) <==> AtStage(table, n, stage) != {}
    ensures stage in Distribution(table, n) ==> Distribution(table, n)[stage] == |AtStage(table, n, stage)| > 0
    decreases n
  {
    if n > 1 {
      DistributionCounts(table, n - 1, stage);
      var x := n - 1;
      if x in table && table[x].reviewStage == stage {
        assert AtStage(table, n, stage) == AtStage(table, n - 1, stage) + {x};
      } else {
        assert AtStage(table, n, stage) == AtStage(table, n - 1, stage);
      }
    } else {
      assert AtStage(table, n, stage) == {};
    }
  }

  /** The sum of the counts. */
  ghost function Total(counts: map<int, nat>): nat
    decreases |counts|
  {
    if counts == map[] then 0
    else
      HasKey(counts.Keys);
      var k :| k in counts.Keys;
      counts[k] + Total(counts - {k})
  }

  lemma HasKey(keys: set<int>)
    requires keys != {}
    ensures exists k :: k in keys
  {
    if forall k :: k !in keys {
      assert false;
    }
  }

  /** Any entry can be taken out first. */
  lemma {:induction false} TotalRemove(counts: map<int, nat>, k: int)
    requires k in counts
    ensures Total(counts) == counts[k] + Total(counts - {k})
    decreases |counts|
  {
    var j :| j in counts && Total(counts) == counts[j] + Total(counts - {j});
    if j != k {
      TotalRemove(counts - {j}, k);
      TotalRemove(counts - {k}, j);
      assert counts - {j} - {k} == counts - {k} - {j};
    }
  }

  lemma TotalBump(counts: map<int, nat>, stage: int)
    ensures Total(Bump(counts, stage)) == Total(counts) + 1
  {
    var b := Bump(counts, stage);
    TotalRemove(b, stage);
    if stage in counts {
      TotalRemove(counts, stage);
      assert b - {stage} == counts - {stage};
    } else {
      assert b - {stage} == counts;
    }
  }

  lemma BelowStep<D>(table: map<int, Row<D>>, n: int)
    requires n > 1
    ensures |Below(table, n)| == |Below(table, n - 1)| + if n - 1 in table then 1 else 0
  {
    if n - 1 in table {
      assert Below(table, n) == Below(table, n - 1) + {n - 1};
    } else {
      assert Below(table, n) == Below(table, n - 1);
    }
  }

  /** The counts add up to the number of rows. */
  lemma {:induction false} DistributionTotal<D>(table: map<int, Row<D>>, n: int)
    ensures Total(Distribution(table, n)) == |Below(table, n)|
    decreases n
  {
    if n > 1 {
      DistributionTotal(table, n - 1);
      BelowStep(table, n);
      if n - 1 in table {
        TotalBump(Distribution(table, n - 1), table[n - 1].reviewStage);
      }
    } else {
      assert Below(table, n) == {};
    }
  }

  // ---------------------------------------------------------------------------------------
  // The store
  // ---------------------------------------------------------------------------------------

  /** The `WHERE next_review_date <= today` filter. */
  function DueBy<D>(today: int): Row<D> -> bool {
    (r: Row<D>) => r.nextReviewDate <= today
  }

  /** The `ORDER BY next_review_date` key. */
  function ByDate<D>(): Row<D> -> real {
    (r: Row<D>) => r.nextReviewDate as real
  }

  /** A row as inserted: stage 0 (the column default), due the day after `today`, no quality yet. */
  function NewRow<D>(id: int, data: D, today: int): Row<D> {
    Row(id, data, 0, today + 1, None)
  }

  /** The row with its schedule overwritten by a review, as `UPDATE ... SET` does. */
  function Reviewed<D>(r: Row<D>, quality: int, nextDate: int, newStage: int): Row<D> {
    r.(reviewStage := newStage, nextReviewDate := nextDate, lastQuality := Some(quality))
  }

  /** `UPDATE ... WHERE id = ?`: the row with that id gets the new schedule; without one, nothing changes. */
  function UpdateRow<D>(table: map<int, Row<D>>, id: int, quality: int, nextDate: int, newStage: int): (t: map<int, Row<D>>)
    ensures t.Keys == table.Keys
    ensures forall x | x in table && x != id :: t[x] == table[x]
    ensures id in table ==> t[id] == Reviewed(table[id], quality, nextDate, newStage)
  {
    if id in table then table[id := Reviewed(table[id], quality, nextDate, newStage)] else table
  }

  /** The two tables and their auto-increment counters. */
  class VocabDatabase {
    var vocab: map<int, Row<WordData>>
    var lessons: map<int, Row<LessonData>>
    var nextVocabId: int
    var nextLessonId: int

    /** Every row is stored under its own id, and ids are positive and below the next one issued. */
    predicate Valid()
      reads this
    {
      && 1 <= nextVocabId && 1 <= nextLessonId
      && (forall x | x in vocab :: 0 < x < nextVocabId && vocab[x].id == x)
      && (forall x | x in lessons :: 0 < x < nextLessonId && lessons[x].id == x)
    }

    /** `_init_database` on a new file: both tables empty. */
    constructor ()
      ensures Valid()
      ensures vocab == map[] && lessons == map[]
    {
      vocab := map[];
      lessons := map[];
      nextVocabId := 1;
      nextLessonId := 1;
    }

    /** `add_word`: a new row at stage 0, due tomorrow, under an id larger than any issued before. */
    method AddWord(word: string, meaning: string, contextSentence: Option<string>, today: int) returns (id: int)
      requires Valid()
      modifies this
      ensures Valid()
      ensures id == old(nextVocabId) && nextVocabId == id + 1
      ensures id !in old(vocab) && forall x | x in old(vocab) :: x < id
      ensures vocab == old(vocab)[id := NewRow(id, WordData(word, meaning, contextSentence), today)]
      ensures lessons == old(lessons) && nextLessonId == old(nextLessonId)
    {
      id := nextVocabId;
      vocab := vocab[id := NewRow(id, WordData(word, meaning, contextSentence), today)];
      nextVocabId := nextVocabId + 1;
    }

    /** `get_due_words`: the vocabulary rows due by `today`, earliest date first. */
    method GetDueWords(today: int) returns (rows: seq<Row<WordData>>)
      requires Valid()
      ensures Lists(vocab, DueBy(today), ByDate(), rows)
      ensures |rows| == |Selected(vocab, DueBy(today))|
    {
      rows := Select(vocab, nextVocabId, DueBy(today), ByDate());
    }

    /** `update_review`: overwrites the schedule of the word with that id; an unknown id changes nothing. */
    method UpdateReview(wordId: int, quality: int, nextDate: int, newStage: int)
      requires Valid()
      modifies this
      ensures Valid()
      ensures vocab == UpdateRow(old(vocab), wordId, quality, nextDate, newStage)
      ensures lessons == old(lessons) && nextVocabId == old(nextVocabId) && nextLessonId == old(nextLessonId)
    {
      vocab := UpdateRow(vocab, wordId, quality, nextDate, newStage);
    }

    /**
     * `get_statistics`: the number of words, the number due by `today`, and the per-stage
     * counts of the words, built in one scan of the table.
     */
    method GetStatistics(today: int) returns (total: nat, dueToday: nat, stages: map<int, nat>)
      requires Valid()
      ensures total == |vocab|
      ensures dueToday == |Selected(vocab, DueBy(today))|
      ensures stages == Distribution(vocab, nextVocabId)
    {
      total := |vocab|;
      dueToday := 0;
      stages := map[];
      var id := 1;
      while id < nextVocabId
        invariant 1 <= id <= nextVocabId
        invariant dueToday == |DueBelow(vocab, today, id)|
        invariant stages == Distribution(vocab, id)
      {
        DueBelowStep(vocab, today, id);
        if id in vocab {
          if vocab[id].nextReviewDate <= today {
            dueToday := dueToday + 1;
          }
          stages := Bump(stages, vocab[id].reviewStage);
        }
        id := id + 1;
      }
      DueBelowAll(vocab, today, id);
    }

    /** `delete_word`: removes the row with that id, if there is one. */
    method DeleteWord(wordId: int)
      requires Valid()
      modifies this
      ensures Valid()
      ensures vocab == old(vocab) - {wordId}
      ensures lessons == old(lessons) && nextVocabId == old(nextVocabId) && nextLessonId == old(nextLessonId)
    {
      vocab := vocab - {wordId};
    }

    /** `add_youtube_lesson`: a new segment row at stage 0, due tomorrow, under a fresh id. */
    method AddYoutubeLesson(data: LessonData, today: int) returns (id: int)
      requires Valid()
      modifies this
      ensures Valid()
      ensures id == old(nextLessonId) && nextLessonId == id + 1
      ensures id !in old(lessons) && forall x | x in old(lessons) :: x < id
      ensures lessons == old(lessons)[id := NewRow(id, data, today)]
      ensures vocab == old(vocab) && nextVocabId == old(nextVocabId)
    {
      id := nextLessonId;
      lessons := lessons[id := NewRow(id, data, today)];
      nextLessonId := nextLessonId + 1;
    }

    /** `get_due_youtube_lessons`: the lesson rows due by `today`, earliest date first. */
    method GetDueYoutubeLessons(today: int) returns (rows: seq<Row<LessonData>>)
      requires Valid()
      ensures Lists(lessons, DueBy(today), ByDate(), rows)
      ensures |rows| == |Selected(lessons, DueBy(today))|
    {
      rows := Select(lessons, nextLessonId, DueBy(today), ByDate());
    }

    /** `update_youtube_review`: the same three-column update on the lessons table. */
    method UpdateYoutubeReview(lessonId: int, quality: int, nextDate: int, newStage: int)
      requires Valid()
      modifies this
      ensures Valid()
      ensures lessons == UpdateRow(old(lessons), lessonId, quality, nextDate, newStage)
      ensures vocab == old(vocab) && nextVocabId == old(nextVocabId) && nextLessonId == old(nextLessonId)
    {
      lessons := UpdateRow(lessons, lessonId, quality, nextDate, newStage);
    }

    /** `get_youtube_lessons_by_video`: the segments of one video, by ascending start time. */
    method GetYoutubeLessonsByVideo(videoUrl: string) returns (rows: seq<Row<LessonData>>)
      requires Valid()
      ensures Lists(lessons, OfVideo(videoUrl), ByStart(), rows)
      ensures |rows| == |Selected(lessons, OfVideo(videoUrl))|
    {
      rows := Select(lessons, nextLessonId, OfVideo(videoUrl), ByStart());
    }
  }

  /** The `WHERE video_url = ?` filter. */
  function OfVideo(videoUrl: string): Row<LessonData> -> bool {
    (r: Row<LessonData>) => r.data.videoUrl == videoUrl
  }

  /** The `ORDER BY start_time` key. */
  function ByStart(): Row<LessonData> -> real {
    (r: Row<LessonData>) => r.data.startTime
  }

  /** The ids below `n` whose row is due by `today`. */
  ghost function DueBelow<D>(table: map<int, Row<D>>, today: int, n: int): set<int> {
    set x | x in table && 0 < x < n && table[x].nextReviewDate <= today
  }

  lemma DueBelowStep<D>(table: map<int, Row<D>>, today: int, n: int)
    requires n > 0
    ensures |DueBelow(table, today, n + 1)| == |DueBelow(table, today, n)| + if n in table && table[n].nextReviewDate <= today then 1 else 0
  {
    if n in table && table[n].nextReviewDate <= today {
      assert DueBelow(table, today, n + 1) == DueBelow(table, today, n) + {n};
    } else {
      assert DueBelow(table, today, n + 1) == DueBelow(table, today, n);
    }
  }

  lemma DueBelowAll<D>(table: map<int, Row<D>>, today: int, n: int)
    requires forall x | x in table :: 0 < x < n
    ensures DueBelow(table, today, n) == Selected(table, DueBy(today))
  {
  }

  // ---------------------------------------------------------------------------------------
  // Properties of the store
  // ---------------------------------------------------------------------------------------

  /** A row just added is not due on the day it was added, and the due set is what it was. */
  lemma AddedNotDueToday<D>(table: map<int, Row<D>>, id: int, data: D, today: int)
    requires id !in table
    ensures id !in Selected(table[id := NewRow(id, data, today)], DueBy(today))
    ensures Selected(table[id := NewRow(id, data, today)], DueBy(today)) == Selected(table, DueBy(today))
  {
    var t := table[id := NewRow(id, data, today)];
    assert !DueBy(today)(t[id]);
    forall x | x in table
      ensures (x in Selected(t, DueBy(today))) == (x in Selected(table, DueBy(today)))
    {
      assert t[x] == table[x];
    }
  }

  /** Deleting the same id twice is the same as deleting it once; deleting an absent id changes nothing. */
  lemma DeleteIdempotent<D>(table: map<int, Row<D>>, id: int)
    ensures (table - {id}) - {id} == table - {id}
    ensures id !in table ==> table - {id} == table
  {
  }

  /** The stage counts add up to the number of words, and only stages that have words appear. */
  lemma StatisticsConsistent<D>(table: map<int, Row<D>>, n: int, stage: int)
    requires forall x | x in table :: 0 < x < n
    ensures Total(Distribution(table, n)) == |table|
    ensures stage in Distribution(table, n) <==> exists x | x in table :: table[x].reviewStage == stage
  {
    DistributionTotal(table, n);
    assert Below(table, n) == table.Keys;
    DistributionCounts(table, n, stage);
    if exists x | x in table :: table[x].reviewStage == stage {
      var x :| x in table && table[x].reviewStage == stage;
      assert x in AtStage(table, n, stage);
    }
  }

  /** A review touches only the three schedule columns of the row with that id. */
  lemma UpdateKeepsData<D>(table: map<int, Row<D>>, id: int, quality: int, nextDate: int, newStage: int)
    requires id in table
    ensures var r := UpdateRow(table, id, quality, nextDate, newStage)[id];
      r.id == table[id].id && r.data == table[id].data &&
      r.reviewStage == newStage && r.nextReviewDate == nextDate && r.lastQuality == Some(quality)
  {
  }
}
