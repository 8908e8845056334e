/**
 * String helpers that stand for the Python built-ins the core uses:
 * `str.isspace`, `str.strip`, `str.split()`, `" ".join`, `str.isdigit`,
 * `int(...)` on digit strings and `str(...)` on integers.
 */
module Text {
  import opened Wrappers

  /** Python's `str.isspace()` for one character: the ASCII and Unicode whitespace set. */
  predicate IsSpace(c: char) {
    || ('\t' <= c <= '\r')
    || ('\U{1C}' <= c <= ' ')
    || c == '\U{85}' || c == '\U{A0}' || c == '\U{1680}'
    || ('\U{2000}' <= c <= '\U{200A}')
    || c == '\U{2028}' || c == '\U{2029}' || c == '\U{202F}' || c == '\U{205F}' || c == '\U{3000}'
  }

  ghost predicate AllSpace(s: string) {
    forall i :: 0 <= i < |s| ==> IsSpace(s[i])
  }

  ghost predicate NoSpace(s: string) {
    forall i :: 0 <= i < |s| ==> !IsSpace(s[i])
  }

  /** Number of whitespace characters at the front of `s`. */
  function LeadingSpaces(s: string): (k: nat)
    ensures k <= |s|
    ensures AllSpace(s[..k])
    ensures k < |s| ==> !IsSpace(s[k])
  {
    if s != [] && IsSpace(s[0]) then
      var k := 1 + LeadingSpaces(s[1..]);
      assert s[..k] == [s[0]] + s[1..][..k - 1];
      k
    else 0
  }

  /** Number of whitespace characters at the end of `s`. */
  function TrailingSpaces(s: string): (k: nat)
    ensures k <= |s|
    ensures AllSpace(s[|s| - k..])
    ensures k < |s| ==> !IsSpace(s[|s| - 1 - k])
  {
    if s != [] && IsSpace(s[|s| - 1]) then
      var k := 1 + TrailingSpaces(s[..|s| - 1]);
      assert s[|s| - k..] == s[..|s| - 1][|s| - k..] + [s[|s| - 1]];
      k
    else 0
  }

  /**
   * Python's `s.strip()`: `s` without its leading and trailing whitespace.
   * The result is the middle of `s`, flanked by whitespace only, and it
   * neither starts nor ends with whitespace.
   */
  function Strip(s: string): (r: string)
    ensures exists i, j :: 0 <= i <= j <= |s| && r == s[i..j] && AllSpace(s[..i]) && AllSpace(s[j..])
    ensures r != [] ==> !IsSpace(r[0]) && !IsSpace(r[|r| - 1])
  {
    var i := LeadingSpaces(s);
    var t := s[i..];
    var k := TrailingSpaces(t);
    var j := |s| - k;
    assert t[..|t| - k] == s[i..j];
    assert t[|t| - k..] == s[j..];
    assert k < |t| ==> t[|t| - 1 - k] == s[i..j][j - i - 1];
    s[i..j]
  }

  /** `not s.strip()`: the string is empty or whitespace only. */
  lemma {:induction false} LeadingSpacesOfAllSpace(s: string)
    requires AllSpace(s)
    ensures LeadingSpaces(s) == |s|
  {
    if s != [] {
      assert IsSpace(s[0]);
      LeadingSpacesOfAllSpace(s[1..]);
    }
  }

  lemma {:induction false} TrailingSpacesBelowWord(t: string)
    requires t != [] && !IsSpace(t[0])
    ensures TrailingSpaces(t) < |t|
  {
    if |t| > 1 && IsSpace(t[|t| - 1]) {
      TrailingSpacesBelowWord(t[..|t| - 1]);
    }
  }

  /** `not s.strip()` holds exactly when `s` is empty or whitespace only. */
  lemma StripEmptyIffAllSpace(s: string)
    ensures Strip(s) == [] <==> AllSpace(s)
  {
    if AllSpace(s) {
      LeadingSpacesOfAllSpace(s);
    } else {
      var i := LeadingSpaces(s);
      assert i != |s|;
      TrailingSpacesBelowWord(s[i..]);
    }
  }

  /** Length of the run of non-whitespace characters at the front of `s`. */
  function WordLength(s: string): (k: nat)
    ensures k <= |s|
    ensures NoSpace(s[..k])
    ensures k < |s| ==> IsSpace(s[k])
  {
    if s != [] && !IsSpace(s[0]) then
      var k := 1 + WordLength(s[1..]);
      assert s[..k] == [s[0]] + s[1..][..k - 1];
      k
    else 0
  }

  /** Python's `s.split()`: the maximal runs of non-whitespace characters, in order. */
  function Tokens(s: string): (ts: seq<string>)
    ensures Words(ts)
    decreases |s|
  {
    if s == [] then []
    else if IsSpace(s[0]) then Tokens(s[1..])
    else
      var k := WordLength(s);
      [s[..k]] + Tokens(s[k..])
  }

  /** Each element is a non-empty run of non-whitespace characters. */
  ghost predicate Words(ws: seq<string>) {
    forall i :: 0 <= i < |ws| ==> ws[i] != [] && NoSpace(ws[i])
  }

  /** Python's `" ".join(ws)`. */
  function JoinWords(ws: seq<string>): string {
    if ws == [] then ""
    else if |ws| == 1 then ws[0]
    else ws[0] + " " + JoinWords(ws[1..])
  }

  lemma {:induction false} WordLengthOfWord(w: string, rest: string)
    requires NoSpace(w)
    requires rest == [] || IsSpace(rest[0])
    ensures WordLength(w + rest) == |w|
  {
    if w != [] {
      assert (w + rest)[1..] == w[1..] + rest;
      WordLengthOfWord(w[1..], rest);
    } else {
      assert w + rest == rest;
    }
  }

  lemma TokensOfWord(w: string, rest: string)
    requires w != [] && NoSpace(w)
    requires rest == [] || IsSpace(rest[0])
    ensures Tokens(w + rest) == [w] + Tokens(rest)
  {
    var s := w + rest;
    WordLengthOfWord(w, rest);
    assert s[..|w|] == w;
    assert s[|w|..] == rest;
  }

  /**
   * Joining words that are non-empty and free of whitespace with single
   * spaces and splitting the result again gives the words back.
   */
  lemma {:induction false} TokensOfJoin(ws: seq<string>)
    requires Words(ws)
    ensures Tokens(JoinWords(ws)) == ws
  {
    if |ws| == 1 {
      TokensOfWord(ws[0], "");
      assert ws[0] + "" == ws[0];
    } else if |ws| > 1 {
      var rest := JoinWords(ws[1..]);
      assert Words(ws[1..]) by {
        forall i | 0 <= i < |ws| - 1 ensures ws[1..][i] == ws[i + 1] { }
      }
      TokensOfJoin(ws[1..]);
      var spaced := " " + rest;
      assert spaced[1..] == rest;
      assert Tokens(spaced) == Tokens(rest);
      TokensOfWord(ws[0], spaced);
      assert JoinWords(ws) == ws[0] + spaced;
      assert [ws[0]] + ws[1..] == ws;
    }
  }

  /** Joined words that are non-empty and free of whitespace have nothing to strip. */
  lemma {:induction false} JoinHasNoOuterSpace(ws: seq<string>)
    requires Words(ws)
    ensures JoinWords(ws) != [] ==> !IsSpace(JoinWords(ws)[0]) && !IsSpace(JoinWords(ws)[|JoinWords(ws)| - 1])
    ensures ws != [] ==> JoinWords(ws) != []
  {
    if |ws| > 1 {
      assert Words(ws[1..]) by {
        forall i | 0 <= i < |ws| - 1 ensures ws[1..][i] == ws[i + 1] { }
      }
      JoinHasNoOuterSpace(ws[1..]);
      var j := JoinWords(ws);
      assert ws[0] != [];
      assert j == ws[0] + " " + JoinWords(ws[1..]);
      assert j[0] == ws[0][0];
      assert j[|j| - 1] == JoinWords(ws[1..])[|JoinWords(ws[1..])| - 1];
    }
  }

  lemma StripUnchanged(s: string)
    requires s != [] ==> !IsSpace(s[0]) && !IsSpace(s[|s| - 1])
    ensures Strip(s) == s
  {
    assert LeadingSpaces(s) == 0;
    assert TrailingSpaces(s) == 0;
  }

  // ----- decimal digits and integers -----

  /** An ASCII decimal digit (the model of `str.isdigit` on the code field). */
  predicate IsDigit(c: char) {
    '0' <= c <= '9'
  }

  predicate AllDigits(s: string) {
    forall i :: 0 <= i < |s| ==> IsDigit(s[i])
  }

  function DigitValue(c: char): (d: nat)
    requires IsDigit(c)
    ensures d < 10
  {
    (c as int) - ('0' as int)
  }

  function DigitChar(d: nat): (c: char)
    requires d < 10
    ensures IsDigit(c) && DigitValue(c) == d
  {
    ('0' as int + d) as char
  }

  /** `int(s)` for a string of ASCII digits. */
  function DigitsValue(s: string): (n: nat)
    requires AllDigits(s)
  {
    if s == [] then 0
    else 10 * DigitsValue(s[..|s| - 1]) + DigitValue(s[|s| - 1])
  }

  /** `str(n)` for a natural number: its decimal digits, most significant first. */
  function NatToString(n: nat): (s: string)
    ensures s != [] && AllDigits(s)
  {
    if n < 10 then [DigitChar(n)]
    else NatToString(n / 10) + [DigitChar(n % 10)]
  }

  /** `str(i)` for any integer. */
  function IntToString(i: int): (s: string)
    ensures s != []
    ensures forall k :: 0 <= k < |s| ==> IsDigit(s[k]) || s[k] == '-'
  {
    if i < 0 then "-" + NatToString(-i) else NatToString(i)
  }

  /** Reads back an optional minus sign followed by one or more ASCII digits. */
  function ParseInt(s: string): Option<int> {
    if s != [] && s[0] == '-' then
      if |s| > 1 && AllDigits(s[1..]) then Some(0 - DigitsValue(s[1..]) as int) else None
    else if s != [] && AllDigits(s) then Some(DigitsValue(s))
    else None
  }

  lemma {:induction false} NatToStringValue(n: nat)
    ensures DigitsValue(NatToString(n)) == n
  {
    var s := NatToString(n);
    if n >= 10 {
      NatToStringValue(n / 10);
      assert s[..|s| - 1] == NatToString(n / 10);
    }
  }

  /** Rendering an integer in decimal and reading it back gives the integer. */
  lemma IntToStringRoundTrip(i: int)
    ensures ParseInt(IntToString(i)) == Some(i)
  {
    if i < 0 {
      NatToStringValue(-i);
      assert IntToString(i)[1..] == NatToString(-i);
    } else {
      NatToStringValue(i);
    }
  }
}
