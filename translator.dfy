/**
 * The translation helpers: the simplified Devanagari-to-Latin transliteration
 * (`transliterate_hindi` over `HINDI_TO_LATIN`), the four-field record `translate_full`
 * returns, and its four-line display. The machine translations come from an online service;
 * here they are a parameter.
 */
module Translator {
  import opened Wrappers
  import opened PyText
  import opened HindiTable

  // ---------------------------------------------------------------------------------------
  // transliterate_hindi
  // ---------------------------------------------------------------------------------------

  /** One character on its own: its table entry, or itself when it has none. */
  function Single(table: map<string, string>, c: char): string {
    if [c] in table then table[[c]] else [c]
  }

  /**
   * The scan of `transliterate_hindi` before the whitespace clean-up: a space stays a space;
   * otherwise a two-character key wins over a one-character one; any other character is kept.
   * Only one- and two-character slices are looked up.
   */
  function Rewrite(table: map<string, string>, t: string): string
    decreases |t|
  {
    if t == [] then []
    else if t[0] == ' ' then " " + Rewrite(table, t[1..])
    else if |t| >= 2 && t[..2] in table then table[t[..2]] + Rewrite(table, t[2..])
    else Single(table, t[0]) + Rewrite(table, t[1..])
  }

  /** `transliterate_hindi`: strip, scan, then every whitespace run becomes one space and the ends are trimmed. */
  function Transliteration(hindiText: string): (r: string)
    ensures Collapsed(r)
  {
    var scanned := Rewrite(HindiToLatin, Strip(hindiText));
    CollapseIdempotent(scanned);
    Collapse(scanned)
  }

  /**
   * `transliterate_hindi` as the loop it is (see `Scan`), then `re.sub(r'\s+', ' ', ...)` and
   * `strip()` tidy the whitespace: the result has the collapsed shape.
   */
  method TransliterateHindi(hindiText: string) returns (r: string)
    ensures r == Transliteration(hindiText)
    ensures Collapsed(r)
  {
    var result := Scan(HindiToLatin, Strip(hindiText));
    SquashThenStrip(result);
    r := Strip(SquashSpaces(result));
    CollapseIdempotent(result);
  }

  /** The `while i < len(text)` loop: the pieces are appended as the index moves by one or two characters. */
  method Scan(table: map<string, string>, text: string) returns (result: string)
    ensures result == Rewrite(table, text)
  {
    result := "";
    var i := 0;
    ScanStart(table, text);
    while i < |text|
      invariant 0 <= i <= |text|
      invariant result + Rewrite(table, text[i..]) == Rewrite(table, text)
    {
      var c := text[i];
      if c == ' ' {
        RewriteAtSpace(table, text, i);
        ScanAdvance(table, text, i, 1, result, " ");
        result := result + " ";
        i := i + 1;
        continue;
      }
      if i + 1 < |text| {
        var twoChars := text[i..i + 2];
        if twoChars in table {
          RewriteAtPair(table, text, i);
          ScanAdvance(table, text, i, 2, result, table[twoChars]);
          result := result + table[twoChars];
          i := i + 2;
          continue;
        }
      }
      RewriteAtSingle(table, text, i);
      ScanAdvance(table, text, i, 1, result, Single(table, c));
      result := result + Single(table, c);
      i := i + 1;
    }
    ScanEnd(table, text, result);
  }

  lemma ScanStart(table: map<string, string>, text: string)
    ensures "" + Rewrite(table, text[0..]) == Rewrite(table, text)
  {
    assert text[0..] == text;
  }

  lemma ScanAdvance(table: map<string, string>, text: string, i: int, n: int, result: string, piece: string)
    requires 0 <= i && 0 <= n && i + n <= |text|
    requires result + Rewrite(table, text[i..]) == Rewrite(table, text)
    requires Rewrite(table, text[i..]) == piece + Rewrite(table, text[i + n..])
    ensures (result + piece) + Rewrite(table, text[i + n..]) == Rewrite(table, text)
  {
    assert result + (piece + Rewrite(table, text[i + n..])) == (result + piece) + Rewrite(table, text[i + n..]);
  }

  lemma ScanEnd(table: map<string, string>, text: string, result: string)
    requires result + Rewrite(table, text[|text|..]) == Rewrite(table, text)
    ensures result == Rewrite(table, text)
  {
    assert text[|text|..] == [];
    assert result + [] == result;
  }

  lemma RewriteAtSpace(table: map<string, string>, text: string, i: int)
    requires 0 <= i < |text| && text[i] == ' '
    ensures Rewrite(table, text[i..]) == " " + Rewrite(table, text[i + 1..])
  {
    assert text[i..][1..] == text[i + 1..];
  }

  lemma RewriteAtPair(table: map<string, string>, text: string, i: int)
    requires 0 <= i && i + 1 < |text| && text[i] != ' ' && text[i..i + 2] in table
    ensures Rewrite(table, text[i..]) == table[text[i..i + 2]] + Rewrite(table, text[i + 2..])
  {
    assert text[i..][..2] == text[i..i + 2];
    assert text[i..][2..] == text[i + 2..];
  }

  lemma RewriteAtSingle(table: map<string, string>, text: string, i: int)
    requires 0 <= i < |text| && text[i] != ' '
    requires !(i + 1 < |text| && text[i..i + 2] in table)
    ensures Rewrite(table, text[i..]) == Single(table, text[i]) + Rewrite(table, text[i + 1..])
  {
    assert text[i..][1..] == text[i + 1..];
    if i + 1 < |text| {
      assert text[i..][..2] == text[i..i + 2];
    }
  }

  /** Characters that no key starts with: everything outside the Devanagari block. */
  lemma {:induction false} RewriteOutsideTable(table: map<string, string>, t: string)
    requires AllEntries(table)
    requires forall i :: 0 <= i < |t| ==> !Devanagari(t[i])
    ensures Rewrite(table, t) == t
    decreases |t|
  {
    if t != [] {
      NotAKey(table, [t[0]]);
      if |t| >= 2 {
        NotAKey(table, t[..2]);
      }
      RewriteOutsideTable(table, t[1..]);
      assert t == [t[0]] + t[1..];
    }
  }

  /** A string that does not start with a Devanagari character is no key. */
  lemma NotAKey(table: map<string, string>, k: string)
    requires AllEntries(table)
    requires k != [] && !Devanagari(k[0])
    ensures k !in table
  {
  }

  /** Text without Devanagari (Latin, punctuation, other scripts) only has its whitespace tidied. */
  lemma OutsideTableUnchanged(t: string)
    requires forall i :: 0 <= i < |t| ==> !Devanagari(t[i])
    ensures Transliteration(t) == Collapse(t)
  {
    StripChars(t, c => !Devanagari(c));
    TableShape();
    RewriteOutsideTable(HindiToLatin, Strip(t));
    SplitStrip(t);
  }

  // ---------------------------------------------------------------------------------------
  // The conjunct keys
  // ---------------------------------------------------------------------------------------

  /** Every key is free of whitespace, so `strip()` leaves it alone. */
  lemma KeyUnstripped(table: map<string, string>, k: string)
    requires AllEntries(table) && k in table
    ensures Strip(k) == k
  {
    assert Entry(k, table[k]);
    assert k[0] == k[0] && !IsSpace(k[0]) && !IsSpace(k[|k| - 1]);
    StripPadded("", k, "");
    assert "" + k + "" == k;
  }

  /** A value is a single word (or empty), so collapsing whitespace leaves it alone. */
  lemma ValueCollapsed(table: map<string, string>, k: string)
    requires AllEntries(table) && k in table
    ensures Collapse(table[k]) == table[k]
  {
    var v := table[k];
    assert Entry(k, v);
    if v != [] {
      assert NoSpace(v);
      WordOfPrefix(v, []);
      assert v + [] == v;
      SplitAtWord(v);
      assert v[|v|..] == [];
    }
  }

  /** As written, every key of one or two characters on its own gives its value. */
  lemma ShortKeysAsWritten(table: map<string, string>, k: string)
    requires AllEntries(table) && k in table && |k| <= 2
    ensures Collapse(Rewrite(table, Strip(k))) == table[k]
  {
    KeyUnstripped(table, k);
    RewriteShortKey(table, k);
    ValueCollapsed(table, k);
  }

  lemma RewriteShortKey(table: map<string, string>, k: string)
    requires AllEntries(table) && k in table && |k| <= 2
    ensures Rewrite(table, k) == table[k]
  {
    assert Entry(k, table[k]);
    assert k[0] != ' ';
    if |k| == 2 {
      assert k[..2] == k && k[2..] == [];
    } else {
      assert [k[0]] == k && k[1..] == [];
    }
  }

  /** With those lookups and no two-character key ending in the virama or in 'ञ', the scan gives "jny". */
  lemma JnaRewrite(table: map<string, string>)
    requires "ज" in table && table["ज"] == "j" && "्" in table && table["्"] == ""
    requires "ञ" in table && table["ञ"] == "ny"
    requires PairKeys(table)
    ensures Rewrite(table, "ज्ञ") == "jny"
  {
    var t := "ज्ञ";
    assert t[..2] !in table by {
      assert |t[..2]| == 2 && t[..2][1] == '्';
    }
    assert t[1..][..2] !in table by {
      assert |t[1..][..2]| == 2 && t[1..][..2][1] == 'ञ';
    }
    assert Rewrite(table, t[2..]) == "ny" by {
      assert [t[2]] == "ञ" && t[2..][1..] == [];
    }
    assert Rewrite(table, t[1..]) == "" + Rewrite(table, t[2..]) by {
      assert [t[1]] == "्" && t[1..][1..] == t[2..];
    }
    assert Rewrite(table, t) == "j" + Rewrite(table, t[1..]) by {
      assert [t[0]] == "ज";
    }
  }

  lemma ConjunctJnaAsWritten()
    ensures HindiToLatin["ज्ञ"] == "gy"
    ensures Transliteration("ज्ञ") == "jny"
  {
    ConjunctLookups();
    PairKeysOfTable();
    JnaRewrite(HindiToLatin);
    JnyCollapsed();
    StripJna();
  }

  lemma StripJna()
    ensures Strip("ज्ञ") == "ज्ञ"
  {
    StripPadded("", "ज्ञ", "");
    assert "" + "ज्ञ" + "" == "ज्ञ";
  }

  lemma JnyCollapsed()
    ensures Collapse("jny") == "jny"
  {
    WordOfPrefix("jny", []);
    assert "jny" + [] == "jny";
    SplitAtWord("jny");
  }

  /** The scan as evidently intended: the longest key first, up to the three-character conjuncts. */
  function RewriteLongest(table: map<string, string>, t: string): string
    decreases |t|
  {
    if t == [] then []
    else if t[0] == ' ' then " " + RewriteLongest(table, t[1..])
    else if |t| >= 3 && t[..3] in table then table[t[..3]] + RewriteLongest(table, t[3..])
    else if |t| >= 2 && t[..2] in table then table[t[..2]] + RewriteLongest(table, t[2..])
    else Single(table, t[0]) + RewriteLongest(table, t[1..])
  }

  /** `transliterate_hindi` with the conjuncts matched. */
  function TransliterationIntended(hindiText: string): (r: string)
    ensures Collapsed(r)
  {
    var scanned := RewriteLongest(HindiToLatin, Strip(hindiText));
    CollapseIdempotent(scanned);
    Collapse(scanned)
  }

  /** With the longest key first, every key of the table on its own gives its value. */
  lemma EveryKeyIntended(table: map<string, string>, k: string)
    requires AllEntries(table) && k in table
    ensures Collapse(RewriteLongest(table, Strip(k))) == table[k]
  {
    KeyUnstripped(table, k);
    RewriteLongestKey(table, k);
    ValueCollapsed(table, k);
  }

  lemma RewriteLongestKey(table: map<string, string>, k: string)
    requires AllEntries(table) && k in table
    ensures RewriteLongest(table, k) == table[k]
  {
    assert Entry(k, table[k]);
    assert k[0] != ' ';
    if |k| == 3 {
      assert k[..3] == k && k[3..] == [];
    } else if |k| == 2 {
      assert k[..2] == k && k[2..] == [];
    } else {
      assert [k[0]] == k && k[1..] == [];
    }
  }

  /** Both readings agree on the table's keys but for 'ज्ञ', where only the intended one gives "gy". */
  lemma TableKeysRoundTrip(k: string)
    requires k in HindiToLatin
    ensures TransliterationIntended(k) == HindiToLatin[k]
    ensures |k| <= 2 ==> Transliteration(k) == HindiToLatin[k]
  {
    TableShape();
    EveryKeyIntended(HindiToLatin, k);
    if |k| <= 2 {
      ShortKeysAsWritten(HindiToLatin, k);
    }
  }

  // ---------------------------------------------------------------------------------------
  // translate_full and format_four_lines
  // ---------------------------------------------------------------------------------------

  /** The dictionary `translate_full` returns. */
  datatype Translation = Translation(hindi: string, transliteration: string, english: string, chinese: string)

  /**
   * The online translators: not available (library missing or set-up failed), or available
   * with, per language, the translation or `None` when that call raised.
   */
  datatype Service = Unavailable | Available(toEnglish: Option<string>, toChinese: Option<string>)

  /**
   * `translate_full`: the text, its transliteration, and the two translations, each replaced by
   * a failure marker when its call raised, or both by the not-available markers.
   */
  function TranslateFull(hindiText: string, service: Service): (t: Translation)
    ensures t.hindi == hindiText && t.transliteration == Transliteration(hindiText)
    ensures service.Unavailable? ==> t.english == "[Translator not available]" && t.chinese == "[翻译器不可用]"
    ensures service.Available? ==> t.english == service.toEnglish.GetOr("[Translation failed]")
    ensures service.Available? ==> t.chinese == service.toChinese.GetOr("[翻译失败]")
  {
    var transliteration := Transliteration(hindiText);
    match service
    case Unavailable => Translation(hindiText, transliteration, "[Translator not available]", "[翻译器不可用]")
    case Available(en, zh) => Translation(hindiText, transliteration, en.GetOr("[Translation failed]"), zh.GetOr("[翻译失败]"))
  }

  /** The f-string between its leading line break and its trailing line break and indentation. */
  function Body(data: Translation): string {
    data.hindi + "\n" + (data.transliteration + "\n" + (data.english + "\n" + data.chinese))
  }

  /** `format_four_lines`: the four fields on four lines, the whole stripped of outer whitespace. */
  function FormatFourLines(data: Translation): string {
    Strip("\n" + Body(data) + "\n        ")
  }

  /** `s.split('\n')`. */
  function Lines(s: string): (r: seq<string>)
    ensures |r| >= 1
  {
    if s == [] then [""]
    else if s[0] == '\n' then [""] + Lines(s[1..])
    else var rest := Lines(s[1..]); [[s[0]] + rest[0]] + rest[1..]
  }

  predicate OneLine(s: string) {
    forall i :: 0 <= i < |s| ==> s[i] != '\n'
  }

  lemma {:induction false} LinesOfOne(a: string)
    requires OneLine(a)
    ensures Lines(a) == [a]
  {
    if a != [] {
      LinesOfOne(a[1..]);
      assert [a[0]] + a[1..] == a;
    }
  }

  lemma {:induction false} LinesCons(a: string, b: string)
    requires OneLine(a)
    ensures Lines(a + "\n" + b) == [a] + Lines(b)
  {
    if a == [] {
      assert a + "\n" + b == "\n" + b;
      assert ("\n" + b)[1..] == b;
    } else {
      assert (a + "\n" + b)[1..] == a[1..] + "\n" + b;
      LinesCons(a[1..], b);
      assert [a[0]] + a[1..] == a;
    }
  }

  /**
   * The four lines read back: when no field holds a line break, the text does not start with
   * whitespace and the Chinese line does not end with it, splitting the display at line
   * breaks gives back exactly the four fields.
   */
  lemma FourLinesRoundTrip(data: Translation)
    requires OneLine(data.hindi) && OneLine(data.transliteration) && OneLine(data.english) && OneLine(data.chinese)
    requires data.hindi != [] && !IsSpace(data.hindi[0])
    requires data.chinese != [] && !IsSpace(data.chinese[|data.chinese| - 1])
    ensures Lines(FormatFourLines(data)) == [data.hindi, data.transliteration, data.english, data.chinese]
  {
    BodyUnstripped(data);
    LinesOfBody(data);
  }

  lemma BodyUnstripped(data: Translation)
    requires data.hindi != [] && !IsSpace(data.hindi[0])
    requires data.chinese != [] && !IsSpace(data.chinese[|data.chinese| - 1])
    ensures FormatFourLines(data) == Body(data)
  {
    var body := Body(data);
    var rest := data.transliteration + "\n" + (data.english + "\n" + data.chinese);
    assert body == data.hindi + ("\n" + rest);
    assert body[0] == data.hindi[0];
    assert body[|body| - 1] == data.chinese[|data.chinese| - 1];
    assert AllSpace("\n") && AllSpace("\n        ");
    StripPadded("\n", body, "\n        ");
  }

  lemma LinesOfBody(data: Translation)
    requires OneLine(data.hindi) && OneLine(data.transliteration) && OneLine(data.english) && OneLine(data.chinese)
    ensures Lines(Body(data)) == [data.hindi, data.transliteration, data.english, data.chinese]
  {
    LinesCons(data.hindi, data.transliteration + "\n" + (data.english + "\n" + data.chinese));
    LinesCons(data.transliteration, data.english + "\n" + data.chinese);
    LinesCons(data.english, data.chinese);
    LinesOfOne(data.chinese);
  }

  /**
   * Without the online translators, the display of a one-line text that does not start with
   * whitespace is the text, its transliteration and the two not-available markers, one per line.
   */
  lemma UnavailableDisplay(hindiText: string)
    requires OneLine(hindiText) && hindiText != [] && !IsSpace(hindiText[0])
    ensures Lines(FormatFourLines(TranslateFull(hindiText, Unavailable)))
      == [hindiText, Transliteration(hindiText), "[Translator not available]", "[翻译器不可用]"]
  {
    var data := TranslateFull(hindiText, Unavailable);
    CollapsedOneLine(data.transliteration);
    MarkersPrintable();
    FourLinesRoundTrip(data);
  }

  /** Both not-available markers are single lines, and the last one ends in a printing character. */
  lemma MarkersPrintable()
    ensures OneLine("[Translator not available]") && OneLine("[翻译器不可用]")
    ensures !IsSpace("[翻译器不可用]"[|"[翻译器不可用]"| - 1])
  {
  }

  /** A collapsed string holds no line break: its only whitespace is ' '. */
  lemma CollapsedOneLine(s: string)
    requires Collapsed(s)
    ensures OneLine(s)
  {
    forall i | 0 <= i < |s|
      ensures s[i] != '\n'
    {
      assert IsSpace('\n');
    }
  }
}
