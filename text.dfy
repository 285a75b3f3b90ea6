/**
 * Character and string helpers with the semantics of the Python built-ins the
 * service uses (`str.isspace`, `str.strip`, `str.lower`, `str.title`, `int(str)`),
 * restricted to ASCII.
 */
module Text {
  import opened Wrappers

  /** Python's `str.isspace` on ASCII: \t \n \v \f \r, the separators 0x1C-0x1F and ' '. */
  predicate IsSpace(c: char) {
    c == ' ' || (9 <= c as int <= 13) || (28 <= c as int <= 31)
  }

  predicate IsDigit(c: char) { '0' <= c <= '9' }

  predicate IsUpper(c: char) { 'A' <= c <= 'Z' }

  predicate IsLower(c: char) { 'a' <= c <= 'z' }

  /** An ASCII cased character: a letter. */
  predicate IsLetter(c: char) { IsUpper(c) || IsLower(c) }

  predicate AllDigits(s: string) {
    forall k :: 0 <= k < |s| ==> IsDigit(s[k])
  }

  function Lower(c: char): (r: char)
    ensures IsLetter(c) ==> IsLower(r) && Upper(r) == Upper(c)
    ensures !IsLetter(c) ==> r == c
  {
    if IsUpper(c) then (c as int + 32) as char else c
  }

  function Upper(c: char): (r: char)
    ensures IsLetter(c) ==> IsUpper(r)
    ensures !IsLetter(c) ==> r == c
  {
    if IsLower(c) then (c as int - 32) as char else c
  }

  /** Drops the leading whitespace of `s`. */
  function StripLeft(s: string): (r: string)
    ensures |r| <= |s| && r == s[|s| - |r|..]
    ensures forall k :: 0 <= k < |s| - |r| ==> IsSpace(s[k])
    ensures r != [] ==> !IsSpace(r[0])
  {
    if s != [] && IsSpace(s[0]) then StripLeft(s[1..]) else s
  }

  /** Drops the trailing whitespace of `s`. */
  function StripRight(s: string): (r: string)
    ensures |r| <= |s| && r == s[..|r|]
    ensures forall k :: |r| <= k < |s| ==> IsSpace(s[k])
    ensures r != [] ==> !IsSpace(r[|r| - 1])
  {
    if s != [] && IsSpace(s[|s| - 1]) then StripRight(s[..|s| - 1]) else s
  }

  /** Python's `str.strip()`. */
  function Strip(s: string): string {
    StripRight(StripLeft(s))
  }

  /** A string that starts and ends with a non-blank is its own strip. */
  lemma StripUnchanged(s: string)
    requires s == [] || (!IsSpace(s[0]) && !IsSpace(s[|s| - 1]))
    ensures Strip(s) == s
  {
  }

  predicate StartsWith(s: string, prefix: string) {
    |prefix| <= |s| && s[..|prefix|] == prefix
  }

  /** The text after the first `c` of `s` (empty when there is none). */
  function DropThrough(s: string, c: char): string {
    if s == [] then [] else if s[0] == c then s[1..] else DropThrough(s[1..], c)
  }

  /** The text before the first `c` of `s` (all of it when there is none). */
  function TakeUntil(s: string, c: char): string {
    if s == [] || s[0] == c then [] else [s[0]] + TakeUntil(s[1..], c)
  }

  /** Python's `s.split(c)[1]` for an `s` that contains `c`. */
  function SecondField(s: string, c: char): string {
    TakeUntil(DropThrough(s, c), c)
  }

  lemma {:induction false} DropThroughPrefix(p: string, rest: string, c: char)
    requires p != [] && p[|p| - 1] == c
    requires forall k :: 0 <= k < |p| - 1 ==> p[k] != c
    ensures DropThrough(p + rest, c) == rest
  {
    if |p| > 1 {
      assert (p + rest)[1..] == p[1..] + rest;
      DropThroughPrefix(p[1..], rest, c);
    }
  }

  lemma {:induction false} TakeUntilAbsent(s: string, c: char)
    requires forall k :: 0 <= k < |s| ==> s[k] != c
    ensures TakeUntil(s, c) == s
  {
    if s != [] {
      TakeUntilAbsent(s[1..], c);
    }
  }

  function DigitValue(c: char): nat
    requires IsDigit(c)
  {
    c as int - '0' as int
  }

  function DigitChar(d: nat): (c: char)
    requires d < 10
    ensures IsDigit(c) && DigitValue(c) == d
  {
    ('0' as int + d) as char
  }

  /** The number a string of decimal digits denotes (leading zeros allowed). */
  function DigitsValue(s: string): nat
    requires AllDigits(s)
  {
    if s == [] then 0 else DigitsValue(s[..|s| - 1]) * 10 + DigitValue(s[|s| - 1])
  }

  /** Python's `str(n)` for a natural number. */
  function NatToString(n: nat): (r: string)
    ensures r != [] && AllDigits(r)
    ensures DigitsValue(r) == n
    ensures r[0] != '0' || n == 0
  {
    if n < 10 then [DigitChar(n)]
    else
      var r := NatToString(n / 10) + [DigitChar(n % 10)];
      assert r[..|r| - 1] == NatToString(n / 10);
      r
  }

  /** The digits of `s` with the `_` separators removed. */
  function RemoveUnderscores(s: string): (r: string)
    ensures |r| <= |s|
    ensures (forall k :: 0 <= k < |s| ==> IsDigit(s[k]) || s[k] == '_') ==> AllDigits(r)
  {
    if s == [] then []
    else if s[|s| - 1] == '_' then RemoveUnderscores(s[..|s| - 1])
    else RemoveUnderscores(s[..|s| - 1]) + [s[|s| - 1]]
  }

  lemma {:induction false} RemoveUnderscoresOfDigits(s: string)
    requires AllDigits(s)
    ensures RemoveUnderscores(s) == s
  {
    if s != [] {
      RemoveUnderscoresOfDigits(s[..|s| - 1]);
      assert s[..|s| - 1] + [s[|s| - 1]] == s;
    }
  }

  /**
   * The digit part Python's `int()` accepts: decimal digits, with single
   * underscores allowed between two digits.
   */
  predicate WellGrouped(s: string) {
    && s != []
    && IsDigit(s[0])
    && IsDigit(s[|s| - 1])
    && (forall k :: 0 <= k < |s| ==> IsDigit(s[k]) || s[k] == '_')
    && (forall k :: 0 <= k < |s| - 1 ==> s[k] == '_' ==> s[k + 1] != '_')
  }

  /** Python's `int(s)` for a `str` argument: `None` where Python raises `ValueError`. */
  function ParseInt(s: string): (r: Option<int>)
    ensures r.Some? ==> Strip(s) != []
  {
    var t := Strip(s);
    if t != [] && (t[0] == '+' || t[0] == '-') then
      var digits := t[1..];
      if WellGrouped(digits) then
        var v: int := DigitsValue(RemoveUnderscores(digits));
        Some(if t[0] == '-' then -v else v)
      else None
    else if WellGrouped(t) then Some(DigitsValue(RemoveUnderscores(t)))
    else None
  }

  /** `int(str(n)) == n`. */
  lemma ParseIntOfNatToString(n: nat)
    ensures ParseInt(NatToString(n)) == Some(n)
  {
    var s := NatToString(n);
    StripUnchanged(s);
    RemoveUnderscoresOfDigits(s);
  }

  /**
   * Python's `s.replace(from, to)` for single characters: the length is kept, no
   * `from` is left, `to` stands exactly where `from` or `to` stood, and every
   * other character is kept.
   */
  function ReplaceChar(s: string, from: char, to: char): (r: string)
    ensures |r| == |s|
    ensures from != to ==> from !in r
    ensures forall k :: 0 <= k < |s| ==> (r[k] == to <==> s[k] == from || s[k] == to)
    ensures forall k :: 0 <= k < |s| && r[k] != to ==> r[k] == s[k]
  {
    seq(|s|, k requires 0 <= k < |s| => if s[k] == from then to else s[k])
  }

  /** `str.title()` continued from a position whose predecessor is (or is not) a letter. */
  function TitleFrom(s: string, afterLetter: bool): string
    decreases |s|
  {
    if s == [] then []
    else
      var c := s[0];
      [if !IsLetter(c) then c else if afterLetter then Lower(c) else Upper(c)]
        + TitleFrom(s[1..], IsLetter(c))
  }

  /** Python's `str.title()` on ASCII text. */
  function Title(s: string): string {
    TitleFrom(s, false)
  }

  /**
   * What `title()` puts at position `i`: a letter is upper-cased when it starts a
   * run of letters and lower-cased otherwise; any other character is kept.
   */
  function TitleChar(s: string, i: nat): char
    requires i < |s|
  {
    if !IsLetter(s[i]) then s[i]
    else if i > 0 && IsLetter(s[i - 1]) then Lower(s[i])
    else Upper(s[i])
  }

  lemma {:induction false} TitleFromAt(s: string, afterLetter: bool, i: nat)
    requires i < |s|
    ensures |TitleFrom(s, afterLetter)| == |s|
    ensures TitleFrom(s, afterLetter)[i] ==
      if !IsLetter(s[i]) then s[i]
      else if (if i == 0 then afterLetter else IsLetter(s[i - 1])) then Lower(s[i])
      else Upper(s[i])
  {
    if i == 0 {
      TitleFromLength(s[1..], IsLetter(s[0]));
    } else {
      TitleFromAt(s[1..], IsLetter(s[0]), i - 1);
    }
  }

  lemma {:induction false} TitleFromLength(s: string, afterLetter: bool)
    ensures |TitleFrom(s, afterLetter)| == |s|
    decreases |s|
  {
    if s != [] {
      TitleFromLength(s[1..], IsLetter(s[0]));
    }
  }

  /** `title()` keeps the length and works character by character as `TitleChar` says. */
  lemma TitleAt(s: string, i: nat)
    requires i < |s|
    ensures |Title(s)| == |s|
    ensures Title(s)[i] == TitleChar(s, i)
  {
    TitleFromAt(s, false, i);
  }
}
