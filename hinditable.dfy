/**
 * `HINDI_TO_LATIN`, the dictionary the transliteration looks characters up in, written in the
 * groups of its literal, with the facts about its entries the rest of the model relies on.
 */
module HindiTable {

  /** Independent vowels, and the vowel with anusvara or visarga. */
  const Vowels: map<string, string> := map[
    "अ" := "a", "आ" := "aa", "इ" := "i", "ई" := "ii",
    "उ" := "u", "ऊ" := "uu", "ए" := "e", "ऐ" := "ai",
    "ओ" := "o", "औ" := "au", "अं" := "an", "अः" := "ah"]

  /** The five rows of stops and nasals: velar, palatal, retroflex, dental, labial. */
  const Velars: map<string, string> := map["क" := "k", "ख" := "kh", "ग" := "g", "घ" := "gh", "ङ" := "ng"]
  const Palatals: map<string, string> := map["च" := "ch", "छ" := "chh", "ज" := "j", "झ" := "jh", "ञ" := "ny"]
  const Retroflexes: map<string, string> := map["ट" := "t", "ठ" := "th", "ड" := "d", "ढ" := "dh", "ण" := "n"]
  const Dentals: map<string, string> := map["त" := "t", "थ" := "th", "द" := "d", "ध" := "dh", "न" := "n"]
  const Labials: map<string, string> := map["प" := "p", "फ" := "ph", "ब" := "b", "भ" := "bh", "म" := "m"]
  const Stops: map<string, string> := Velars + Palatals + Retroflexes + Dentals + Labials

  /**
   * Semivowels, sibilants, three conjuncts and the two nukta letters. The literal lists 'व'
   * twice, first as "v" and then as "w"; a Python dict keeps the last, so 'व' is "w".
   */
  const OtherConsonants: map<string, string> := map[
    "य" := "y", "र" := "r", "ल" := "l", "व" := "w",
    "श" := "sh", "ष" := "sh", "स" := "s", "ह" := "h",
    "क्ष" := "ksh", "त्र" := "tr", "ज्ञ" := "gy",
    "ड़" := "r", "ढ़" := "rh"]

  /** Vowel signs, anusvara, visarga and the virama (which is dropped). */
  const Diacritics: map<string, string> := map[
    "ं" := "n", "ः" := "h",
    "ा" := "aa", "ि" := "i", "ी" := "ii",
    "ु" := "u", "ू" := "uu",
    "े" := "e", "ै" := "ai",
    "ो" := "o", "ौ" := "au",
    "्" := ""]

  /** Devanagari digits. */
  const Numerals: map<string, string> := map[
    "०" := "0", "१" := "1", "२" := "2", "३" := "3", "४" := "4",
    "५" := "5", "६" := "6", "७" := "7", "८" := "8", "९" := "9"]

  /** `HINDI_TO_LATIN`. */
  const HindiToLatin: map<string, string> := Vowels + Stops + OtherConsonants + Diacritics + Numerals

  predicate Devanagari(c: char) {
    'ऀ' <= c <= 'ॿ'
  }

  predicate LatinLetterOrDigit(c: char) {
    ('a' <= c <= 'z') || ('0' <= c <= '9')
  }

  /** A key is one to three Devanagari characters; its value is lower-case Latin letters or digits. */
  predicate Entry(k: string, v: string) {
    && 1 <= |k| <= 3
    && (forall i :: 0 <= i < |k| ==> Devanagari(k[i]))
    && (forall i :: 0 <= i < |v| ==> LatinLetterOrDigit(v[i]))
  }

  predicate AllEntries(table: map<string, string>) {
    forall k | k in table :: Entry(k, table[k])
  }

  // The facts below are stated group by group, on each small literal, and combined through
  // lemmas over arbitrary maps (`EntriesUnion`, `SingleUnion`, `LaterRowsMiss`, `UnionLookups`):
  // a fact about one group's literal is checked quickly, while the same fact stated about the
  // whole table at once is beyond what the verifier settles in reasonable time.

  lemma VowelEntries() ensures AllEntries(Vowels) {}
  lemma StopEntries()
    ensures AllEntries(Stops)
  {
    VelarEntries();
    PalatalEntries();
    RetroflexEntries();
    DentalEntries();
    LabialEntries();
    EntriesUnion(Velars, Palatals);
    EntriesUnion(Velars + Palatals, Retroflexes);
    EntriesUnion(Velars + Palatals + Retroflexes, Dentals);
    EntriesUnion(Velars + Palatals + Retroflexes + Dentals, Labials);
  }

  lemma VelarEntries() ensures AllEntries(Velars) {}
  lemma PalatalEntries() ensures AllEntries(Palatals) {}
  lemma RetroflexEntries() ensures AllEntries(Retroflexes) {}
  lemma DentalEntries() ensures AllEntries(Dentals) {}
  lemma LabialEntries() ensures AllEntries(Labials) {}
  lemma OtherConsonantEntries() ensures AllEntries(OtherConsonants) {}
  lemma DiacriticEntries() ensures AllEntries(Diacritics) {}
  lemma NumeralEntries() ensures AllEntries(Numerals) {}

  /** Every entry of the table has the shape of `Entry`. */
  lemma TableShape()
    ensures AllEntries(HindiToLatin)
  {
    VowelEntries();
    StopEntries();
    OtherConsonantEntries();
    DiacriticEntries();
    NumeralEntries();
    EntriesUnion(Vowels, Stops);
    EntriesUnion(Vowels + Stops, OtherConsonants);
    EntriesUnion(Vowels + Stops + OtherConsonants, Diacritics);
    EntriesUnion(Vowels + Stops + OtherConsonants + Diacritics, Numerals);
  }

  lemma EntriesUnion(a: map<string, string>, b: map<string, string>)
    requires AllEntries(a) && AllEntries(b)
    ensures AllEntries(a + b)
  {
  }


  /** The keys of two characters end in anusvara, visarga or nukta. */
  predicate PairKeys(table: map<string, string>) {
    forall k | k in table && |k| == 2 :: k[1] == 'ं' || k[1] == 'ः' || k[1] == '़'
  }

  lemma PairKeysOfTable()
    ensures PairKeys(HindiToLatin)
  {
    VowelPairs();
    OtherConsonantPairs();
    SingleKeys();
  }

  lemma VowelPairs() ensures PairKeys(Vowels) {}
  lemma OtherConsonantPairs() ensures PairKeys(OtherConsonants) {}

  /** Tables whose keys are all single characters. */
  predicate SingleCharKeys(table: map<string, string>) {
    forall k | k in table :: |k| == 1
  }

  lemma SingleKeys()
    ensures SingleCharKeys(Stops) && SingleCharKeys(Diacritics) && SingleCharKeys(Numerals)
  {
    StopSingles();
    DiacriticSingles();
    NumeralSingles();
  }

  lemma StopSingles()
    ensures SingleCharKeys(Stops)
  {
    RowSingles();
    SingleUnion(Velars, Palatals);
    SingleUnion(Velars + Palatals, Retroflexes);
    SingleUnion(Velars + Palatals + Retroflexes, Dentals);
    SingleUnion(Velars + Palatals + Retroflexes + Dentals, Labials);
  }

  lemma RowSingles()
    ensures SingleCharKeys(Velars) && SingleCharKeys(Palatals) && SingleCharKeys(Retroflexes)
    ensures SingleCharKeys(Dentals) && SingleCharKeys(Labials)
  {
    VelarSingles();
    PalatalSingles();
    RetroflexSingles();
    DentalSingles();
    LabialSingles();
  }

  lemma VelarSingles() ensures SingleCharKeys(Velars) {}
  lemma PalatalSingles() ensures SingleCharKeys(Palatals) {}
  lemma RetroflexSingles() ensures SingleCharKeys(Retroflexes) {}
  lemma DentalSingles() ensures SingleCharKeys(Dentals) {}
  lemma LabialSingles() ensures SingleCharKeys(Labials) {}

  lemma SingleUnion(a: map<string, string>, b: map<string, string>)
    requires SingleCharKeys(a) && SingleCharKeys(b)
    ensures SingleCharKeys(a + b)
  {
  }

  lemma DiacriticSingles() ensures SingleCharKeys(Diacritics) {}
  lemma NumeralSingles() ensures SingleCharKeys(Numerals) {}

  lemma StopLookups()
    ensures "ज" in Stops && Stops["ज"] == "j" && "ञ" in Stops && Stops["ञ"] == "ny"
  {
    PalatalLookups();
    LaterRowMisses();
    LaterRowsMiss(Velars, Palatals, Retroflexes, Dentals, Labials, "ज");
    LaterRowsMiss(Velars, Palatals, Retroflexes, Dentals, Labials, "ञ");
  }

  lemma PalatalLookups()
    ensures "ज" in Palatals && Palatals["ज"] == "j" && "ञ" in Palatals && Palatals["ञ"] == "ny"
  {
  }

  lemma LaterRowMisses()
    ensures "ज" !in Retroflexes && "ञ" !in Retroflexes
    ensures "ज" !in Dentals && "ञ" !in Dentals
    ensures "ज" !in Labials && "ञ" !in Labials
  {
  }

  /** A key of the second row that the later rows lack keeps its value in the union of all five. */
  lemma LaterRowsMiss(a: map<string, string>, b: map<string, string>, c: map<string, string>,
                      d: map<string, string>, e: map<string, string>, k: string)
    requires k in b && k !in c && k !in d && k !in e
    ensures k in a + b + c + d + e && (a + b + c + d + e)[k] == b[k]
  {
  }

  lemma OtherConsonantSingles()
    ensures "ज" !in OtherConsonants && "ञ" !in OtherConsonants
    ensures "ज्ञ" in OtherConsonants && OtherConsonants["ज्ञ"] == "gy"
  {
  }

  lemma ViramaLookup()
    ensures "्" in Diacritics && Diacritics["्"] == ""
    ensures "्" !in Numerals
  {
  }

  lemma DiacriticMisses()
    ensures "ज" !in Diacritics && "ञ" !in Diacritics && "ज्ञ" !in Diacritics
  {
  }

  lemma NumeralMisses()
    ensures "ज" !in Numerals && "ञ" !in Numerals && "ज्ञ" !in Numerals
  {
  }

  /** The four lookups the conjunct needs, through the groups of a five-part union. */
  lemma UnionLookups(v: map<string, string>, s: map<string, string>, o: map<string, string>,
                     d: map<string, string>, n: map<string, string>)
    requires "ज" in s && s["ज"] == "j" && "ञ" in s && s["ञ"] == "ny"
    requires "ज्ञ" in o && o["ज्ञ"] == "gy" && "ज" !in o && "ञ" !in o
    requires "्" in d && d["्"] == "" && "ज" !in d && "ञ" !in d && "ज्ञ" !in d
    requires "्" !in n && "ज" !in n && "ञ" !in n && "ज्ञ" !in n
    ensures var t := v + s + o + d + n;
      && "ज" in t && t["ज"] == "j" && "्" in t && t["्"] == ""
      && "ञ" in t && t["ञ"] == "ny" && "ज्ञ" in t && t["ज्ञ"] == "gy"
  {
  }

  lemma ConjunctLookups()
    ensures "ज" in HindiToLatin && HindiToLatin["ज"] == "j"
    ensures "्" in HindiToLatin && HindiToLatin["्"] == ""
    ensures "ञ" in HindiToLatin && HindiToLatin["ञ"] == "ny"
    ensures "ज्ञ" in HindiToLatin && HindiToLatin["ज्ञ"] == "gy"
  {
    StopLookups();
    OtherConsonantSingles();
    ViramaLookup();
    DiacriticMisses();
    NumeralMisses();
    UnionLookups(Vowels, Stops, OtherConsonants, Diacritics, Numerals);
  }

}
