/**
 * The application's configuration: the interface strings in two languages with their
 * lookup and placeholder filling, the current-language switch, and the constants the
 * scheduler and the scorer read (review intervals, easiness factor, score thresholds).
 */
module Configuration {
  import opened Wrappers

  /** Review interval in days for each stage 0..5 (`SRS_INTERVALS`). */
  const SrsIntervals: seq<int> := [1, 3, 7, 14, 30, 90]

  /** The easiness factor 1.3 (`SRS_EASINESS_FACTOR`) as the exact fraction 13/10. */
  const EasinessTenths: int := 13

  /** Score thresholds in percent (`SCORE_EXCELLENT`, `SCORE_GOOD`, `SCORE_POOR`). */
  const ScoreExcellent: int := 90
  const ScoreGood: int := 70
  const ScorePoor: int := 50

  /** The `'zh'` table of `I18N_STRINGS`. */
  const ZhStrings: map<string, string> := map[
    "app_title" := "🇮🇳 印地语影子跟读训练器",
    "app_subtitle" := "Hindi Shadow Trainer with SRS",
    "menu_shadowing" := "🎙️  开始跟读训练 (Shadowing)",
    "menu_review" := "📚 生词本复习 (Daily Review)",
    "menu_add_vocab" := "➕ 添加新单词 (Add Vocabulary)",
    "menu_statistics" := "📊 查看学习统计 (Statistics)",
    "menu_settings" := "⚙️  设置 (Settings)",
    "menu_exit" := "👋 退出 (Exit)",
    "recording_ready" := "🎙️ 准备录音...",
    "recording_countdown" := "倒计时: {}",
    "recording_start" := "🔴 开始录音!",
    "recording_stop" := "⏹️  录音结束",
    "transcribing" := "🔍 正在识别语音...",
    "score_result" := "发音得分: {}",
    "standard_text" := "标准文本",
    "your_pronunciation" := "你的发音",
    "add_to_vocab" := "是否加入生词本?",
    "quality_forgot" := "完全忘了 (Forgot)",
    "quality_hard" := "模糊 (Hard)",
    "quality_good" := "记得 (Good)",
    "quality_easy" := "秒杀 (Easy)",
    "next_review" := "下次复习: {}",
    "exit_message" := "再见！Namaste! 🙏",
    "error_microphone" := "无法访问麦克风，请检查权限",
    "error_whisper" := "Whisper模型加载失败",
    "enter_hindi_text" := "请输入印地语文本",
    "enter_meaning" := "请输入中文含义",
    "save_success" := "保存成功!",
    "no_words_due" := "今天没有需要复习的单词",
    "words_due_count" := "今天有 {} 个单词需要复习"
  ]

  /** The `'en'` table of `I18N_STRINGS`. */
  const EnStrings: map<string, string> := map[
    "app_title" := "🇮🇳 Hindi Shadow Trainer",
    "app_subtitle" := "With Spaced Repetition System",
    "menu_shadowing" := "🎙️  Start Shadowing Practice",
    "menu_review" := "📚 Daily Vocabulary Review",
    "menu_add_vocab" := "➕ Add New Word",
    "menu_statistics" := "📊 Learning Statistics",
    "menu_settings" := "⚙️  Settings",
    "menu_exit" := "👋 Exit",
    "recording_ready" := "🎙️ Preparing to record...",
    "recording_countdown" := "Countdown: {}",
    "recording_start" := "🔴 Recording started!",
    "recording_stop" := "⏹️  Recording stopped",
    "transcribing" := "🔍 Transcribing speech...",
    "score_result" := "Pronunciation score: {}",
    "standard_text" := "Standard Text",
    "your_pronunciation" := "Your Pronunciation",
    "add_to_vocab" := "Add to vocabulary?",
    "quality_forgot" := "Forgot (Again)",
    "quality_hard" := "Hard",
    "quality_good" := "Good",
    "quality_easy" := "Easy",
    "next_review" := "Next review: {}",
    "exit_message" := "Goodbye! Namaste! 🙏",
    "error_microphone" := "Cannot access microphone. Please check permissions",
    "error_whisper" := "Failed to load Whisper model",
    "enter_hindi_text" := "Enter Hindi text",
    "enter_meaning" := "Enter Chinese meaning",
    "save_success" := "Saved successfully!",
    "no_words_due" := "No words due for review today",
    "words_due_count" := "{} words due for review today"
  ]

  /** `I18N_STRINGS`: one table per supported language. */
  const I18nStrings: map<string, map<string, string>> := map["zh" := ZhStrings, "en" := EnStrings]

  /** The table `get_text` reads: the language's own, or the Chinese one for an unknown language. */
  function TableFor(language: string): map<string, string> {
    if language in I18nStrings then I18nStrings[language] else I18nStrings["zh"]
  }

  function Prepend(prefix: string, rest: Option<string>): Option<string> {
    match rest
    case Some(s) => Some(prefix + s)
    case None => None
  }

  predicate NoBraces(s: string) {
    forall i :: 0 <= i < |s| ==> s[i] != '{' && s[i] != '}'
  }

  /**
   * `template.format(*args)` for automatically numbered fields: each `{}` takes the next
   * argument, `{{` and `}}` stand for one brace, surplus arguments are ignored. `None` is the
   * exception Python raises: too few arguments, or a brace that starts no `{}` field.
   */
  function Format(template: string, args: seq<string>): Option<string>
    decreases |template|
  {
    if template == [] then Some([])
    else if |template| >= 2 && template[0] == '{' && template[1] == '{' then Prepend("{", Format(template[2..], args))
    else if |template| >= 2 && template[0] == '}' && template[1] == '}' then Prepend("}", Format(template[2..], args))
    else if |template| >= 2 && template[0] == '{' && template[1] == '}' then
      if args == [] then None else Prepend(args[0], Format(template[2..], args[1..]))
    else if template[0] == '{' || template[0] == '}' then None
    else Prepend(template[..1], Format(template[1..], args))
  }

  /**
   * `Config.get_text(key, *args)` with the current language passed in: the language's string
   * for the key (the Chinese table for an unknown language, the key itself for an unknown key),
   * formatted only when arguments are given.
   */
  function Text(language: string, key: string, args: seq<string>): (r: Option<string>)
    ensures args == [] ==> r.Some?
    ensures args == [] && key !in TableFor(language) ==> r == Some(key)
    ensures args == [] && key in TableFor(language) ==> r == Some(TableFor(language)[key])
  {
    var table := TableFor(language);
    var text := if key in table then table[key] else key;
    if args == [] then Some(text) else Format(text, args)
  }

  /** An unknown language reads the Chinese table. */
  lemma UnknownLanguageFallsBack(language: string, key: string, args: seq<string>)
    requires language !in I18nStrings
    ensures Text(language, key, args) == Text("zh", key, args)
  {
  }

  /** A template without braces is returned unchanged, whatever the arguments. */
  lemma {:induction false} FormatPlain(template: string, args: seq<string>)
    requires NoBraces(template)
    ensures Format(template, args) == Some(template)
    decreases |template|
  {
    if template != [] {
      FormatPlain(template[1..], args);
      assert template == template[..1] + template[1..];
    }
  }

  /** The first `{}` after brace-free text takes the first argument, and the rest continues with the others. */
  lemma {:induction false} FormatFillsInOrder(before: string, after: string, arg: string, rest: seq<string>)
    requires NoBraces(before)
    ensures Format(before + "{}" + after, [arg] + rest) == Prepend(before + arg, Format(after, rest))
    decreases |before|
  {
    var t := before + "{}" + after;
    if before == [] {
      assert t[2..] == after && before + arg == arg;
      assert ([arg] + rest)[1..] == rest;
    } else {
      assert t[..1] == before[..1] && t[1..] == before[1..] + "{}" + after;
      FormatFillsInOrder(before[1..], after, arg, rest);
      match Format(after, rest)
      case Some(s) => assert before[..1] + (before[1..] + arg + s) == before + arg + s;
      case None =>
    }
  }

  /** A `{}` field with no argument left is an error. */
  lemma {:induction false} FormatMissingArgument(before: string, after: string)
    requires NoBraces(before)
    ensures Format(before + "{}" + after, []) == None
    decreases |before|
  {
    var t := before + "{}" + after;
    if before != [] {
      assert t[1..] == before[1..] + "{}" + after;
      FormatMissingArgument(before[1..], after);
    } else {
      assert t[..2] == "{}";
    }
  }

  /** A message with one `{}` field and no other brace, given one argument, has it filled in. */
  lemma TextFillsOneField(language: string, key: string, before: string, after: string, arg: string)
    requires key in TableFor(language) && TableFor(language)[key] == before + "{}" + after
    requires NoBraces(before) && NoBraces(after)
    ensures Text(language, key, [arg]) == Some(before + arg + after)
  {
    FormatPlain(after, []);
    FormatFillsInOrder(before, after, arg, []);
    assert [arg] + [] == [arg];
  }

  /** The English count message fills its one field with the count. */
  lemma WordsDueMessage(count: string)
    ensures Text("en", "words_due_count", [count]) == Some(count + " words due for review today")
  {
    var after := " words due for review today";
    EnWordsDue();
    SplitTemplate(after);
    TextFillsOneField("en", "words_due_count", "", after, count);
    assert "" + count == count;
  }

  lemma EnWordsDue()
    ensures "words_due_count" in TableFor("en")
    ensures TableFor("en")["words_due_count"] == "{} words due for review today"
  {
    assert TableFor("en") == EnStrings;
  }

  lemma SplitTemplate(after: string)
    requires after == " words due for review today"
    ensures "{} words due for review today" == "" + "{}" + after
    ensures NoBraces(after) && NoBraces("")
  {
  }

  /** The four rating labels `quality_to_text` looks up. */
  predicate HasQualityLabels(table: map<string, string>) {
    "quality_forgot" in table && "quality_hard" in table && "quality_good" in table && "quality_easy" in table
  }

  /** Every language's table, the fallback included, has the rating labels. */
  lemma QualityLabelsEverywhere(language: string)
    ensures HasQualityLabels(TableFor(language))
  {
    if language == "en" {
      EnHasQualityLabels();
    } else {
      ZhHasQualityLabels();
    }
  }

  lemma EnHasQualityLabels()
    ensures HasQualityLabels(EnStrings)
  {
  }

  lemma ZhHasQualityLabels()
    ensures HasQualityLabels(ZhStrings)
  {
  }

  /**
   * The class-level `Config.LANGUAGE` setting: initialised from the `HINDI_TRAINER_LANG`
   * environment variable (passed in) with `'zh'` as default, switched by `set_language`.
   */
  class Config {
    var language: string

    constructor (environment: Option<string>)
      ensures language == environment.GetOr("zh")
    {
      language := environment.GetOr("zh");
    }

    /** `Config.get_text(key, *args)` under the current language. */
    function GetText(key: string, args: seq<string>): (r: Option<string>)
      reads this
      ensures args == [] ==> r.Some?
      ensures args == [] && key !in TableFor(language) ==> r == Some(key)
      ensures args == [] && key in TableFor(language) ==> r == Some(TableFor(language)[key])
    {
      Text(language, key, args)
    }

    /** `Config.set_language(lang)`: only a language with a table is accepted; anything else changes nothing. */
    method SetLanguage(lang: string)
      modifies this
      ensures lang in I18nStrings ==> language == lang
      ensures lang !in I18nStrings ==> language == old(language)
    {
      if lang in I18nStrings {
        language := lang;
      }
    }
  }

  /** The interval table has one positive entry per stage and grows strictly. */
  lemma IntervalsShape()
    ensures |SrsIntervals| == 6
    ensures forall s :: 0 <= s < 6 ==> SrsIntervals[s] >= 1
    ensures forall s, t :: 0 <= s < t < 6 ==> SrsIntervals[s] < SrsIntervals[t]
  {
  }

  /** The score thresholds are strictly ordered. */
  lemma ThresholdsOrdered()
    ensures 0 < ScorePoor < ScoreGood < ScoreExcellent <= 100
  {
  }

  /** Both languages define the same keys, so the fallback to the key itself happens alike in each. */
  lemma SameKeys()
    ensures ZhStrings.Keys == EnStrings.Keys
  {
  }
}
