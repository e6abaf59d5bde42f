/**
 * The Python `str` built-ins that the application's text processing relies on:
 * `str.isspace`, `str.split()` and `str.strip()` without arguments, `' '.join`,
 * ASCII `str.lower` and `string.punctuation`.
 */
module PyText {

  /** `str.isspace()` for one code point: the characters `str.split()` and `str.strip()` treat as whitespace. */
  predicate IsSpace(c: char) {
    || ('\t' <= c <= '\r')
    || ('\U{1C}' <= c <= '\U{1F}')
    || c == ' ' || c == '\U{85}' || c == '\U{A0}' || c == '\U{1680}'
    || ('\U{2000}' <= c <= '\U{200A}')
    || c == '\U{2028}' || c == '\U{2029}' || c == '\U{202F}' || c == '\U{205F}' || c == '\U{3000}'
  }

  /** Membership in `string.punctuation`, the 32 ASCII characters !"#$%&'()*+,-./:;<=>?@[\]^_`{|}~ */
  predicate IsPunct(c: char) {
    ('!' <= c <= '/') || (':' <= c <= '@') || ('[' <= c <= '`') || ('{' <= c <= '~')
  }

  predicate NoSpace(w: string) {
    forall i :: 0 <= i < |w| ==> !IsSpace(w[i])
  }

  /** `str.lower()` on one character; only the ASCII letters A-Z are folded. */
  function LowerChar(c: char): char {
    if 'A' <= c <= 'Z' then (c as int + 32) as char else c
  }

  function Lower(s: string): (r: string)
    ensures |r| == |s| && forall i :: 0 <= i < |s| ==> r[i] == LowerChar(s[i])
  {
    seq(|s|, i requires 0 <= i < |s| => LowerChar(s[i]))
  }

  /** `str.lstrip()`: drops the leading whitespace and nothing else. */
  function LStrip(s: string): (r: string)
    ensures |r| <= |s| && r == s[|s| - |r|..]
    ensures r == [] || !IsSpace(r[0])
    ensures forall i :: 0 <= i < |s| - |r| ==> IsSpace(s[i])
  {
    if s != [] && IsSpace(s[0]) then LStrip(s[1..]) else s
  }

  /** `str.rstrip()`: drops the trailing whitespace and nothing else. */
  function RStrip(s: string): (r: string)
    ensures |r| <= |s| && r == s[..|r|]
    ensures r == [] || !IsSpace(r[|r| - 1])
    ensures forall i :: |r| <= i < |s| ==> IsSpace(s[i])
  {
    if s != [] && IsSpace(s[|s| - 1]) then RStrip(s[..|s| - 1]) else s
  }

  /** `str.strip()`. */
  function Strip(s: string): string {
    RStrip(LStrip(s))
  }

  /** The longest prefix of `s` that holds no whitespace. */
  function Word(s: string): (w: string)
    ensures |w| <= |s| && w == s[..|w|] && NoSpace(w)
    ensures |w| < |s| ==> IsSpace(s[|w|])
  {
    if s == [] || IsSpace(s[0]) then [] else [s[0]] + Word(s[1..])
  }

  /** `str.split()` without an argument: the maximal runs of non-whitespace characters, in order. */
  function Split(s: string): (ws: seq<string>)
    ensures forall w | w in ws :: w != [] && NoSpace(w)
    decreases |s|
  {
    if s == [] then []
    else if IsSpace(s[0]) then Split(s[1..])
    else var w := Word(s); [w] + Split(s[|w|..])
  }

  /** `' '.join(ws)`. */
  function Join(ws: seq<string>): string {
    if ws == [] then "" else if |ws| == 1 then ws[0] else ws[0] + " " + Join(ws[1..])
  }

  /** `' '.join(s.split())`: every run of whitespace becomes one space and the ends are trimmed. */
  function Collapse(s: string): string {
    Join(Split(s))
  }

  /** `re.sub(r'\s+', ' ', s)`: each maximal run of whitespace is replaced by one space. */
  function SquashSpaces(s: string): string
    decreases |s|
  {
    if s == [] then []
    else if IsSpace(s[0]) then " " + SquashSpaces(LStrip(s))
    else [s[0]] + SquashSpaces(s[1..])
  }

  /** The shape `Collapse` produces: no whitespace at either end, no whitespace but ' ', no two spaces in a row. */
  predicate Collapsed(s: string) {
    && (s != [] ==> !IsSpace(s[0]) && !IsSpace(s[|s| - 1]))
    && (forall i :: 0 <= i < |s| && IsSpace(s[i]) ==> s[i] == ' ')
    && (forall i :: 0 < i < |s| && IsSpace(s[i]) ==> !IsSpace(s[i - 1]))
  }

  predicate WellFormedWords(ws: seq<string>) {
    forall w | w in ws :: w != [] && NoSpace(w)
  }

  lemma {:induction false} WordOfPrefix(w: string, t: string)
    requires NoSpace(w) && (t == [] || IsSpace(t[0]))
    ensures Word(w + t) == w
  {
    if w != [] {
      assert (w + t)[1..] == w[1..] + t;
      WordOfPrefix(w[1..], t);
    }
  }

  lemma {:induction false} SplitSpacePrefix(t: string)
    requires t != [] && IsSpace(t[0])
    ensures Split(t) == Split(t[1..])
  {
  }

  /** Splitting a space-joined list of words gives the words back. */
  lemma {:induction false} SplitJoin(ws: seq<string>)
    requires WellFormedWords(ws)
    ensures Split(Join(ws)) == ws
  {
    if ws == [] {
    } else if |ws| == 1 {
      WordOfPrefix(ws[0], []);
      assert ws[0] + [] == ws[0];
      assert ws[0][|ws[0]|..] == [];
    } else {
      var w, rest := ws[0], Join(ws[1..]);
      assert ws[0] in ws;
      assert Join(ws) == w + (" " + rest);
      WordOfPrefix(w, " " + rest);
      assert (w + (" " + rest))[|w|..] == " " + rest;
      SplitSpacePrefix(" " + rest);
      assert (" " + rest)[1..] == rest;
      SplitJoin(ws[1..]);
    }
  }

  /** A space-joined list of words has the collapsed shape. */
  lemma {:induction false} JoinCollapsed(ws: seq<string>)
    requires WellFormedWords(ws)
    ensures Collapsed(Join(ws))
    ensures ws != [] ==> Join(ws) != [] && Join(ws)[0] == ws[0][0]
  {
    if |ws| == 1 {
      assert ws[0] in ws;
    } else if |ws| > 1 {
      assert ws[0] in ws;
      var w, rest := ws[0], Join(ws[1..]);
      JoinCollapsed(ws[1..]);
      var s := w + " " + rest;
      assert Join(ws) == s;
      assert ws[1] in ws;
      forall i | 0 <= i < |s| && IsSpace(s[i])
        ensures s[i] == ' '
      {
        if i > |w| { assert s[i] == rest[i - |w| - 1]; }
      }
      forall i | 0 < i < |s| && IsSpace(s[i])
        ensures !IsSpace(s[i - 1])
      {
        if i > |w| + 1 { assert s[i] == rest[i - |w| - 1] && s[i - 1] == rest[i - |w| - 2]; }
      }
    }
  }

  /** `' '.join(s.split())` is a fixed point of itself and has the collapsed shape. */
  lemma CollapseIdempotent(s: string)
    ensures Collapsed(Collapse(s))
    ensures Collapse(Collapse(s)) == Collapse(s)
  {
    JoinCollapsed(Split(s));
    SplitJoin(Split(s));
  }

  /** A string made only of whitespace splits into no words at all. */
  lemma {:induction false} SplitAllSpace(s: string)
    ensures Split(s) == [] <==> forall i :: 0 <= i < |s| ==> IsSpace(s[i])
    decreases |s|
  {
    if s != [] {
      if IsSpace(s[0]) {
        SplitAllSpace(s[1..]);
        assert forall i :: 1 <= i < |s| ==> s[i] == s[1..][i - 1];
      }
    }
  }

  /** A string of the collapsed shape is unchanged by `strip()`. */
  lemma StripCollapsed(s: string)
    requires Collapsed(s)
    ensures Strip(s) == s
  {
  }

  predicate AllSpace(s: string) {
    forall i :: 0 <= i < |s| ==> IsSpace(s[i])
  }

  lemma {:induction false} LStripSpaces(p: string, x: string)
    requires AllSpace(p) && (x == [] || !IsSpace(x[0]))
    ensures LStrip(p + x) == x
  {
    if p != [] {
      assert (p + x)[1..] == p[1..] + x;
      LStripSpaces(p[1..], x);
    }
  }

  lemma {:induction false} RStripSpaces(x: string, q: string)
    requires AllSpace(q) && (x == [] || !IsSpace(x[|x| - 1]))
    ensures RStrip(x + q) == x
  {
    if q != [] {
      var q' := q[..|q| - 1];
      assert (x + q)[..|x + q| - 1] == x + q';
      RStripSpaces(x, q');
    } else {
      assert x + q == x;
    }
  }

  /** Whitespace around a string with non-space ends is exactly what `strip()` removes. */
  lemma StripPadded(p: string, x: string, q: string)
    requires AllSpace(p) && AllSpace(q)
    requires x == [] || (!IsSpace(x[0]) && !IsSpace(x[|x| - 1]))
    ensures Strip(p + x + q) == x
  {
    if x == [] {
      assert p + x + q == (p + q) + [];
      LStripSpaces(p + q, []);
    } else {
      assert p + x + q == p + (x + q);
      LStripSpaces(p, x + q);
      RStripSpaces(x, q);
    }
  }

  lemma StripTrailing(x: string, q: string)
    requires AllSpace(q)
    requires x == [] || (!IsSpace(x[0]) && !IsSpace(x[|x| - 1]))
    ensures Strip(x + q) == x
  {
    assert "" + x + q == x + q;
    StripPadded("", x, q);
  }

  lemma {:induction false} SquashWord(w: string, r: string)
    requires NoSpace(w)
    ensures SquashSpaces(w + r) == w + SquashSpaces(r)
    decreases |w|
  {
    if w == [] {
      assert w + r == r;
    } else {
      var c, u := w[0], w[1..];
      assert NoSpace(u) && !IsSpace(c);
      assert w == [c] + u;
      calc {
        SquashSpaces(w + r);
        { assert w + r == [c] + (u + r); }
        SquashSpaces([c] + (u + r));
        { SquashCons(c, u + r); }
        [c] + SquashSpaces(u + r);
        { SquashWord(u, r); }
        [c] + (u + SquashSpaces(r));
        w + SquashSpaces(r);
      }
    }
  }

  lemma SquashCons(c: char, t: string)
    requires !IsSpace(c)
    ensures SquashSpaces([c] + t) == [c] + SquashSpaces(t)
  {
    assert ([c] + t)[1..] == t;
  }

  lemma {:induction false} SplitLStrip(r: string)
    ensures Split(r) == Split(LStrip(r))
    decreases |r|
  {
    if r != [] && IsSpace(r[0]) {
      SplitLStrip(r[1..]);
    }
  }

  lemma JoinCons(w: string, ws: seq<string>)
    requires ws != []
    ensures Join([w] + ws) == w + " " + Join(ws)
  {
    assert ([w] + ws)[1..] == ws;
  }

  /** Splitting a string that starts with a word: that word, then the words of the rest. */
  lemma SplitAtWord(t: string)
    requires t != [] && !IsSpace(t[0])
    ensures Word(t) != [] && t == Word(t) + t[|Word(t)|..]
    ensures Split(t) == [Word(t)] + Split(t[|Word(t)|..])
  {
    WordAtStart(t);
    SplitUnfold(t);
  }

  lemma WordAtStart(t: string)
    requires t != [] && !IsSpace(t[0])
    ensures Word(t) != [] && t == Word(t) + t[|Word(t)|..]
  {
  }

  lemma SplitUnfold(t: string)
    requires t != [] && !IsSpace(t[0])
    ensures Split(t) == [Word(t)] + Split(t[|Word(t)|..])
  {
  }

  lemma Assoc4(a: string, b: string, c: string, d: string)
    ensures a + (b + (c + d)) == (a + b + c) + d
  {
  }

  /** On a string that does not start with whitespace, `re.sub(r'\s+', ' ', ...)` is the collapsed
      form followed by one space exactly when the string ends in whitespace. */
  lemma {:induction false} SquashFromWord(t: string)
    requires t == [] || !IsSpace(t[0])
    ensures SquashSpaces(t) == Collapse(t) + (if t != [] && IsSpace(t[|t| - 1]) then " " else "")
    decreases |t|
  {
    if t != [] {
      SplitAtWord(t);
      var w := Word(t);
      var r := t[|w|..];
      SquashWord(w, r);
      if r == [] {
        assert Split(t) == [w];
        assert t == w;
      } else {
        SquashRest(t, w, r);
      }
    }
  }

  lemma {:induction false} SquashRest(t: string, w: string, r: string)
    requires t != [] && w == Word(t) && w != [] && t == w + r && r != []
    requires Split(t) == [w] + Split(r)
    requires SquashSpaces(t) == w + SquashSpaces(r)
    ensures SquashSpaces(t) == Collapse(t) + (if IsSpace(t[|t| - 1]) then " " else "")
    decreases |t|, 0
  {
    assert IsSpace(r[0]) by { assert r[0] == t[|w|]; }
    var u := LStrip(r);
    SplitLStrip(r);
    assert SquashSpaces(r) == " " + SquashSpaces(u);
    assert t[|t| - 1] == r[|r| - 1];
    if u == [] {
      assert AllSpace(r);
      SplitAllSpace(r);
      assert Split(t) == [w];
      assert Collapse(t) == w;
      assert SquashSpaces(u) == [];
      assert IsSpace(t[|t| - 1]);
      calc {
        SquashSpaces(t);
        w + (" " + []);
        Collapse(t) + " ";
      }
    } else {
      assert !IsSpace(u[0]) && r[|r| - 1] == u[|u| - 1];
      SquashFromWord(u);
      SplitAtWord(u);
      JoinCons(w, Split(u));
      assert Collapse(t) == w + " " + Collapse(u);
      var tail := if IsSpace(t[|t| - 1]) then " " else "";
      var cu := Collapse(u);
      assert SquashSpaces(u) == cu + tail;
      Assoc4(w, " ", cu, tail);
    }
  }

  lemma SquashNoLead(u: string)
    requires u == [] || !IsSpace(u[0])
    ensures Strip(SquashSpaces(u)) == Collapse(u)
  {
    SquashFromWord(u);
    JoinCollapsed(Split(u));
    var tail := if u != [] && IsSpace(u[|u| - 1]) then " " else "";
    StripTrailing(Collapse(u), tail);
  }

  lemma StripLeadSpace(x: string)
    ensures Strip(" " + x) == Strip(x)
  {
    assert (" " + x)[1..] == x;
  }

  /** Trailing whitespace adds no word. */
  lemma {:induction false} SplitTrailing(y: string, q: string)
    requires AllSpace(q)
    ensures Split(y + q) == Split(y)
    decreases |y|
  {
    if y == [] {
      assert y + q == q;
      SplitAllSpace(q);
    } else if IsSpace(y[0]) {
      assert (y + q)[1..] == y[1..] + q;
      SplitTrailing(y[1..], q);
    } else {
      var w := Word(y);
      var t := y[|w|..] + q;
      assert y + q == w + t;
      WordOfPrefix(w, t);
      SplitAtWord(y + q);
      assert (y + q)[|w|..] == t;
      SplitTrailing(y[|w|..], q);
    }
  }

  /** `strip()` first does not change the words `split()` finds. */
  lemma SplitStrip(t: string)
    ensures Split(Strip(t)) == Split(t)
    ensures Collapse(Strip(t)) == Collapse(t)
  {
    SplitLStrip(t);
    SplitRStrip(LStrip(t));
  }

  lemma SplitRStrip(l: string)
    ensures Split(RStrip(l)) == Split(l)
  {
    var r := RStrip(l);
    var q := l[|r|..];
    assert l == r + q;
    assert AllSpace(q) by {
      forall i | 0 <= i < |q|
        ensures IsSpace(q[i])
      {
        assert q[i] == l[|r| + i];
      }
    }
    SplitTrailing(r, q);
  }

  /** `re.sub(r'\s+', ' ', s).strip()` is the same as `' '.join(s.split())`. */
  lemma {:induction false} SquashThenStrip(s: string)
    ensures Strip(SquashSpaces(s)) == Collapse(s)
  {
    if s != [] && IsSpace(s[0]) {
      var u := LStrip(s);
      SplitLStrip(s);
      assert SquashSpaces(s) == " " + SquashSpaces(u);
      StripLeadSpace(SquashSpaces(u));
      SquashNoLead(u);
    } else {
      SquashNoLead(s);
    }
  }

  /** Every character of every word `split()` returns comes from the input. */
  lemma {:induction false} SplitChars(s: string, P: char -> bool)
    requires forall i :: 0 <= i < |s| ==> P(s[i])
    ensures forall w | w in Split(s) :: forall i | 0 <= i < |w| :: P(w[i])
    decreases |s|
  {
    if s != [] {
      if IsSpace(s[0]) {
        assert forall i :: 0 <= i < |s| - 1 ==> s[1..][i] == s[i + 1];
        SplitChars(s[1..], P);
      } else {
        var w := Word(s);
        var rest := s[|w|..];
        assert forall i :: 0 <= i < |rest| ==> rest[i] == s[|w| + i];
        SplitChars(rest, P);
        assert forall i :: 0 <= i < |w| ==> w[i] == s[i];
      }
    }
  }

  /** Joining words adds no character but the space. */
  lemma {:induction false} JoinChars(ws: seq<string>, P: char -> bool)
    requires P(' ')
    requires forall w | w in ws :: forall i | 0 <= i < |w| :: P(w[i])
    ensures forall i :: 0 <= i < |Join(ws)| ==> P(Join(ws)[i])
  {
    if |ws| == 1 {
      assert ws[0] in ws;
    } else if |ws| > 1 {
      assert ws[0] in ws;
      JoinChars(ws[1..], P);
      var w, rest := ws[0], Join(ws[1..]);
      assert Join(ws) == w + " " + rest;
      forall i | 0 <= i < |Join(ws)|
        ensures P(Join(ws)[i])
      {
        if i > |w| { assert Join(ws)[i] == rest[i - |w| - 1]; }
      }
    }
  }

  /** Collapsing whitespace keeps any property shared by the input's characters and the space. */
  lemma CollapseChars(s: string, P: char -> bool)
    requires P(' ')
    requires forall i :: 0 <= i < |s| ==> P(s[i])
    ensures forall i :: 0 <= i < |Collapse(s)| ==> P(Collapse(s)[i])
  {
    SplitChars(s, P);
    JoinChars(Split(s), P);
  }

  /** Stripping keeps a property of all characters. */
  lemma StripChars(s: string, P: char -> bool)
    requires forall i :: 0 <= i < |s| ==> P(s[i])
    ensures forall i :: 0 <= i < |Strip(s)| ==> P(Strip(s)[i])
  {
    var l := LStrip(s);
    forall i | 0 <= i < |l|
      ensures P(l[i])
    {
      assert l[i] == s[|s| - |l| + i];
    }
    var r := RStrip(l);
    forall i | 0 <= i < |r|
      ensures P(r[i])
    {
      assert r[i] == l[i];
    }
  }
}
