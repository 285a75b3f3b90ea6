/**
 * The config extractors of ProjectService: `_extract_port_from_script`,
 * `_get_port_from_package`, `_is_valid_port`, and the line scan of
 * `_get_redis_db_from_env`. They work on already-read data.
 */
module Extractor {
  import opened Wrappers
  import opened Text
  import opened Find

  // ---------------------------------------------------------------------------
  // The five port patterns of `_extract_port_from_script`, each written out as a
  // matcher that says what `re.search(pattern, s, re.IGNORECASE)` captures when
  // the match starts at position i.
  // ---------------------------------------------------------------------------

  datatype ScriptPattern =
    | NextDevSpaceP   // next\s+dev\s+-p\s*(\d+)
    | NextDevThenP    // next\s+dev.*?-p\s*(\d+)
    | DashP           // -p\s*(\d+)
    | DashDashPort    // --port\s*(\d+)
    | PortEquals      // PORT=(\d+)

  /** `lit` (written in lower case) occurs at position i of `s`, ignoring ASCII case. */
  predicate LitAt(s: string, i: nat, lit: string)
    decreases |lit|
  {
    lit == [] || (i < |s| && Lower(s[i]) == lit[0] && LitAt(s, i + 1, lit[1..]))
  }

  /** `LitAt` character by character. */
  lemma {:induction false} LitAtChars(s: string, i: nat, lit: string)
    requires i + |lit| <= |s|
    requires forall k :: 0 <= k < |lit| ==> Lower(s[i + k]) == lit[k]
    ensures LitAt(s, i, lit)
    decreases |lit|
  {
    if lit != [] {
      assert Lower(s[i + 0]) == lit[0];
      forall k | 0 <= k < |lit| - 1 ensures Lower(s[i + 1 + k]) == lit[1..][k] {
        assert Lower(s[i + (k + 1)]) == lit[k + 1];
      }
      LitAtChars(s, i + 1, lit[1..]);
    }
  }

  /** A literal that occurs verbatim (already lower case) is found. */
  lemma LitAtVerbatim(s: string, i: nat, lit: string)
    requires i + |lit| <= |s| && s[i..i + |lit|] == lit
    requires forall k :: 0 <= k < |lit| ==> !IsUpper(lit[k])
    ensures LitAt(s, i, lit)
  {
    forall k | 0 <= k < |lit| ensures Lower(s[i + k]) == lit[k] {
      assert s[i + k] == s[i..i + |lit|][k];
    }
    LitAtChars(s, i, lit);
  }

  /** End of the longest run of whitespace starting at i (`\s*`, greedy). */
  function SpanSpaces(s: string, i: nat): (j: nat)
    requires i <= |s|
    decreases |s| - i
    ensures i <= j <= |s|
    ensures forall k :: i <= k < j ==> IsSpace(s[k])
    ensures j < |s| ==> !IsSpace(s[j])
  {
    if i < |s| && IsSpace(s[i]) then SpanSpaces(s, i + 1) else i
  }

  /** End of the longest run of digits starting at i (`\d+`, greedy). */
  function SpanDigits(s: string, i: nat): (j: nat)
    requires i <= |s|
    decreases |s| - i
    ensures i <= j <= |s|
    ensures AllDigits(s[i..j])
    ensures j < |s| ==> !IsDigit(s[j])
  {
    if i < |s| && IsDigit(s[i]) then SpanDigits(s, i + 1) else i
  }

  /** `(\d+)` at i: the value of the digit run, if there is at least one digit. */
  function DigitsAt(s: string, i: nat): (r: Option<nat>)
    requires i <= |s|
  {
    var e := SpanDigits(s, i);
    if e > i then Some(DigitsValue(s[i..e])) else None
  }

  /** `\s*(\d+)` at i. */
  function SpacesDigitsAt(s: string, i: nat): Option<nat>
    requires i <= |s|
  {
    DigitsAt(s, SpanSpaces(s, i))
  }

  /** `-p\s*(\d+)` at i. */
  function DashPAt(s: string, i: nat): Option<nat>
    requires i <= |s|
  {
    if LitAt(s, i, "-p") then SpacesDigitsAt(s, i + 2) else None
  }

  /** End of `next\s+dev` at i, if it matches there. */
  function NextDevEnd(s: string, i: nat): (r: Option<nat>)
    requires i <= |s|
    ensures r.Some? ==> i + 8 <= r.value <= |s|
  {
    if LitAt(s, i, "next") then
      var a := SpanSpaces(s, i + 4);
      if a > i + 4 && LitAt(s, a, "dev") then Some(a + 3) else None
    else None
  }

  /** `.*?-p\s*(\d+)` from k: the nearest `-p` match not preceded by a newline. */
  function LazyDashP(s: string, k: nat): Option<nat>
    requires k <= |s|
    decreases |s| - k
  {
    if DashPAt(s, k).Some? then DashPAt(s, k)
    else if k < |s| && s[k] != '\n' then LazyDashP(s, k + 1)
    else None
  }

  /** What `pattern` captures when its match starts at position i (`None` past the end). */
  function MatchAt(pattern: ScriptPattern, s: string, i: nat): Option<nat> {
    if i > |s| then None
    else match pattern
    case NextDevSpaceP =>
      (match NextDevEnd(s, i)
       case None => None
       case Some(e) =>
         var b := SpanSpaces(s, e);
         if b > e then DashPAt(s, b) else None)
    case NextDevThenP =>
      (match NextDevEnd(s, i)
       case None => None
       case Some(e) => LazyDashP(s, e))
    case DashP => DashPAt(s, i)
    case DashDashPort => if LitAt(s, i, "--port") then SpacesDigitsAt(s, i + 6) else None
    case PortEquals => if LitAt(s, i, "port=") then DigitsAt(s, i + 5) else None
  }

  /**
   * `re.search(pattern, s, re.IGNORECASE)` followed by `int(match.group(1))`:
   * the capture of the leftmost position (0..|s|) where `pattern` matches.
   */
  function Search(pattern: ScriptPattern, s: string): Option<nat> {
    FirstValue((j: nat) => MatchAt(pattern, s, j), |s| + 1)
  }

  /** `Search` reports no match exactly when no position matches, else the leftmost match. */
  lemma SearchSpec(pattern: ScriptPattern, s: string)
    ensures Search(pattern, s).None? <==> forall j :: 0 <= j <= |s| ==> MatchAt(pattern, s, j).None?
    ensures Search(pattern, s).Some? ==>
              exists j :: 0 <= j <= |s| && MatchAt(pattern, s, j) == Search(pattern, s) &&
                (forall j' :: 0 <= j' < j ==> MatchAt(pattern, s, j').None?)
  {
    var f := (j: nat) => MatchAt(pattern, s, j);
    assert forall j :: 0 <= j <= |s| ==> f(j) == MatchAt(pattern, s, j);
  }

  /** A match at j with no match before it is what `Search` reports. */
  lemma SearchFindsLeftmost(pattern: ScriptPattern, s: string, j: nat)
    requires j <= |s| && MatchAt(pattern, s, j).Some?
    requires forall j' :: 0 <= j' < j ==> MatchAt(pattern, s, j').None?
    ensures Search(pattern, s) == MatchAt(pattern, s, j)
  {
    FirstSomeIsLeast((j: nat) => MatchAt(pattern, s, j), |s| + 1, j);
  }

  /**
   * `_extract_port_from_script`: the number captured by the first pattern, in
   * order, that matches anywhere in `script`; `None` when none matches.
   */
  function ExtractPortFromScript(script: string): Option<nat> {
    if Search(NextDevSpaceP, script).Some? then Search(NextDevSpaceP, script)
    else if Search(NextDevThenP, script).Some? then Search(NextDevThenP, script)
    else if Search(DashP, script).Some? then Search(DashP, script)
    else if Search(DashDashPort, script).Some? then Search(DashDashPort, script)
    else Search(PortEquals, script)
  }

  /** Position of a pattern in the order the patterns are tried. */
  function Rank(pattern: ScriptPattern): nat {
    match pattern
    case NextDevSpaceP => 0
    case NextDevThenP => 1
    case DashP => 2
    case DashDashPort => 3
    case PortEquals => 4
  }

  /** No pattern before `p` matches `script`. */
  predicate NoneBefore(script: string, p: ScriptPattern) {
    forall q: ScriptPattern :: Rank(q) < Rank(p) ==> Search(q, script).None?
  }

  /** `NoneBefore` from the individual searches. */
  lemma NoneBeforeFromSearches(script: string, p: ScriptPattern)
    requires Rank(p) > 0 ==> Search(NextDevSpaceP, script).None?
    requires Rank(p) > 1 ==> Search(NextDevThenP, script).None?
    requires Rank(p) > 2 ==> Search(DashP, script).None?
    requires Rank(p) > 3 ==> Search(DashDashPort, script).None?
    ensures NoneBefore(script, p)
  {
    forall q: ScriptPattern | Rank(q) < Rank(p) ensures Search(q, script).None? {
      match q
      case NextDevSpaceP =>
      case NextDevThenP =>
      case DashP =>
      case DashDashPort =>
      case PortEquals =>
    }
  }

  /** The first pattern, in order, that matches decides the result. */
  lemma ExtractByPattern(script: string, p: ScriptPattern)
    requires Search(p, script).Some? && NoneBefore(script, p)
    ensures ExtractPortFromScript(script) == Search(p, script)
  {
    match p
    case NextDevSpaceP =>
    case NextDevThenP =>
      assert Rank(NextDevSpaceP) < Rank(p);
    case DashP =>
      assert Rank(NextDevSpaceP) < Rank(p) && Rank(NextDevThenP) < Rank(p);
    case DashDashPort =>
      assert Rank(NextDevSpaceP) < Rank(p) && Rank(NextDevThenP) < Rank(p) && Rank(DashP) < Rank(p);
    case PortEquals =>
      assert Rank(NextDevSpaceP) < Rank(p) && Rank(NextDevThenP) < Rank(p) && Rank(DashP) < Rank(p);
      assert Rank(DashDashPort) < Rank(p);
  }

  /** No port exactly when no pattern matches anywhere. */
  lemma ExtractNone(script: string)
    ensures ExtractPortFromScript(script).None? <==> forall p: ScriptPattern :: Search(p, script).None?
  {
    if ExtractPortFromScript(script).None? {
      forall p: ScriptPattern ensures Search(p, script).None? {
        match p
        case NextDevSpaceP =>
        case NextDevThenP =>
        case DashP =>
        case DashDashPort =>
        case PortEquals =>
      }
    }
  }

  /** A port is the capture of a pattern that matches, with no earlier pattern matching. */
  lemma ExtractFirst(script: string)
    requires ExtractPortFromScript(script).Some?
    ensures exists p: ScriptPattern :: Search(p, script) == ExtractPortFromScript(script) && NoneBefore(script, p)
  {
    var p := if Search(NextDevSpaceP, script).Some? then NextDevSpaceP
      else if Search(NextDevThenP, script).Some? then NextDevThenP
      else if Search(DashP, script).Some? then DashP
      else if Search(DashDashPort, script).Some? then DashDashPort
      else PortEquals;
    NoneBeforeFromSearches(script, p);
  }

  /** The first character every match of `pattern` starts with (in lower case). */
  function LeadChar(pattern: ScriptPattern): char {
    match pattern
    case NextDevSpaceP => 'n'
    case NextDevThenP => 'n'
    case DashP => '-'
    case DashDashPort => '-'
    case PortEquals => 'p'
  }

  /** A pattern does not match where its first character is missing. */
  lemma NoMatchAtWithoutLeadChar(pattern: ScriptPattern, s: string, j: nat)
    requires j < |s| ==> Lower(s[j]) != LeadChar(pattern)
    ensures MatchAt(pattern, s, j).None?
  {
    if j <= |s| {
      match pattern
      case NextDevSpaceP => assert NextDevEnd(s, j).None?;
      case NextDevThenP => assert NextDevEnd(s, j).None?;
      case DashP => assert !LitAt(s, j, "-p");
      case DashDashPort => assert !LitAt(s, j, "--port");
      case PortEquals => assert !LitAt(s, j, "port=");
    }
  }

  /** A pattern cannot match a script that lacks its first character in either case. */
  lemma NoMatchWithoutLeadChar(pattern: ScriptPattern, s: string)
    requires forall k :: 0 <= k < |s| ==> Lower(s[k]) != LeadChar(pattern)
    ensures Search(pattern, s).None?
  {
    forall j | 0 <= j <= |s| ensures MatchAt(pattern, s, j).None? {
      NoMatchAtWithoutLeadChar(pattern, s, j);
    }
    SearchSpec(pattern, s);
  }

  /** At a position followed only by digits, `(\d+)` captures their value. */
  lemma DigitsAtTail(s: string, i: nat, digits: string)
    requires i <= |s| && s[i..] == digits && digits != [] && AllDigits(digits)
    ensures SpanSpaces(s, i) == i
    ensures DigitsAt(s, i) == Some(DigitsValue(digits))
  {
    forall k | i <= k < |s| ensures IsDigit(s[k]) {
      assert s[k] == digits[k - i];
    }
    assert IsDigit(s[i]);
    assert SpanDigits(s, i) == |s|;
    assert s[i..|s|] == digits;
  }

  /** `-p` followed only by digits. */
  lemma DashPAtTail(s: string, i: nat, digits: string)
    requires i + 2 <= |s| && s[i] == '-' && s[i + 1] == 'p'
    requires s[i + 2..] == digits && digits != [] && AllDigits(digits)
    ensures DashPAt(s, i) == Some(DigitsValue(digits))
  {
    assert LitAt(s, i + 2, "");
    assert LitAt(s, i, "-p");
    DigitsAtTail(s, i + 2, digits);
  }

  /** `-p3000`: the digits right after `-p` are the port. */
  lemma DashPRecognised(n: nat)
    ensures ExtractPortFromScript("-p" + NatToString(n)) == Some(n)
  {
    var d := NatToString(n);
    var s := "-p" + d;
    forall k | 0 <= k < |s| ensures Lower(s[k]) != 'n' {
      if k >= 2 { assert s[k] == d[k - 2]; }
    }
    NoMatchWithoutLeadChar(NextDevSpaceP, s);
    NoMatchWithoutLeadChar(NextDevThenP, s);
    DashPAtTail(s, 0, d);
    SearchFindsLeftmost(DashP, s, 0);
    NoneBeforeFromSearches(s, DashP);
    ExtractByPattern(s, DashP);
  }

  /** `PORT=3000` and `port=3000`: the case-insensitive `PORT=` pattern. */
  lemma PortAssignmentRecognised(key: string, n: nat)
    requires key == "PORT=" || key == "port="
    ensures ExtractPortFromScript(key + NatToString(n)) == Some(n)
  {
    var d := NatToString(n);
    var s := key + d;
    forall k | 0 <= k < |s| ensures Lower(s[k]) != 'n' && Lower(s[k]) != '-' {
      if k >= 5 { assert s[k] == d[k - 5]; } else { assert s[k] == key[k]; }
    }
    NoMatchWithoutLeadChar(NextDevSpaceP, s);
    NoMatchWithoutLeadChar(NextDevThenP, s);
    NoMatchWithoutLeadChar(DashP, s);
    NoMatchWithoutLeadChar(DashDashPort, s);
    forall k | 0 <= k < 5 ensures Lower(s[0 + k]) == "port="[k] {
      assert s[k] == key[k];
    }
    LitAtChars(s, 0, "port=");
    assert s[5..] == d;
    DigitsAtTail(s, 5, d);
    SearchFindsLeftmost(PortEquals, s, 0);
    NoneBeforeFromSearches(s, PortEquals);
    ExtractByPattern(s, PortEquals);
  }

  /** The characters of `--port=` followed by digits. */
  predicate LongPortScript(s: string, d: string) {
    s == "--port=" + d && d != [] && AllDigits(d)
  }

  /** Facts about the characters of a `LongPortScript`. */
  lemma LongPortChars(s: string, d: string)
    requires LongPortScript(s, d)
    ensures s[..7] == "--port=" && s[7..] == d
    ensures forall k :: 7 <= k < |s| ==> IsDigit(s[k])
  {
    forall k | 7 <= k < |s| ensures IsDigit(s[k]) {
      assert s[k] == d[k - 7];
    }
  }

  /** `-p\s*(\d+)` does not match `--port=` followed by digits. */
  lemma LongPortNoDashP(s: string, d: string)
    requires LongPortScript(s, d)
    ensures Search(DashP, s).None?
  {
    LongPortChars(s, d);
    forall j | 0 <= j <= |s| ensures MatchAt(DashP, s, j).None? {
      if j == 0 {
        assert s[1] == '-';
      } else if j == 1 {
        assert s[3] == 'o';
        assert SpanSpaces(s, 3) == 3;
      } else {
        if j < 7 { assert s[j] == s[..7][j]; }
        NoMatchAtWithoutLeadChar(DashP, s, j);
      }
    }
    SearchSpec(DashP, s);
  }

  /** `--port\s*(\d+)` does not match `--port=` followed by digits. */
  lemma LongPortNoDashDashPort(s: string, d: string)
    requires LongPortScript(s, d)
    ensures Search(DashDashPort, s).None?
  {
    LongPortChars(s, d);
    forall j | 0 <= j <= |s| ensures MatchAt(DashDashPort, s, j).None? {
      if j == 0 {
        assert s[6] == '=';
        assert SpanSpaces(s, 6) == 6;
      } else if j == 1 {
        assert s[2] == 'p';
      } else {
        if j < 7 { assert s[j] == s[..7][j]; }
        NoMatchAtWithoutLeadChar(DashDashPort, s, j);
      }
    }
    SearchSpec(DashDashPort, s);
  }

  /** `PORT=(\d+)` matches `--port=` followed by digits at the `p`. */
  lemma LongPortEquals(s: string, d: string)
    requires LongPortScript(s, d)
    ensures Search(PortEquals, s) == Some(DigitsValue(d))
  {
    LongPortChars(s, d);
    assert s[2..7] == "port=";
    LitAtVerbatim(s, 2, "port=");
    DigitsAtTail(s, 7, d);
    NoMatchAtWithoutLeadChar(PortEquals, s, 0);
    NoMatchAtWithoutLeadChar(PortEquals, s, 1);
    SearchFindsLeftmost(PortEquals, s, 2);
  }

  /**
   * `--port=3000`: `--port\s*(\d+)` does not accept the `=`, so the port comes
   * from the case-insensitive `PORT=` pattern.
   */
  lemma LongPortWithEqualsRecognised(n: nat)
    ensures Search(DashDashPort, "--port=" + NatToString(n)).None?
    ensures ExtractPortFromScript("--port=" + NatToString(n)) == Some(n)
  {
    var d := NatToString(n);
    var s := "--port=" + d;
    LongPortChars(s, d);
    forall k | 0 <= k < |s| ensures Lower(s[k]) != 'n' {
      if k < 7 { assert s[k] == s[..7][k]; }
    }
    NoMatchWithoutLeadChar(NextDevSpaceP, s);
    NoMatchWithoutLeadChar(NextDevThenP, s);
    LongPortNoDashP(s, d);
    LongPortNoDashDashPort(s, d);
    LongPortEquals(s, d);
    NoneBeforeFromSearches(s, PortEquals);
    ExtractByPattern(s, PortEquals);
  }

  /** `next dev` at i ends at i + 8. */
  lemma NextDevAt(s: string, i: nat)
    requires i + 8 <= |s|
    requires s[i] == 'n' && s[i + 1] == 'e' && s[i + 2] == 'x' && s[i + 3] == 't' && s[i + 4] == ' '
    requires s[i + 5] == 'd' && s[i + 6] == 'e' && s[i + 7] == 'v'
    ensures NextDevEnd(s, i) == Some(i + 8)
  {
    forall k | 0 <= k < 4 ensures Lower(s[i + k]) == "next"[k] {
      if k == 0 {} else if k == 1 {} else if k == 2 {} else {}
    }
    LitAtChars(s, i, "next");
    assert SpanSpaces(s, i + 5) == i + 5;
    forall k | 0 <= k < 3 ensures Lower(s[i + 5 + k]) == "dev"[k] {
      if k == 0 {} else if k == 1 {} else {}
    }
    LitAtChars(s, i + 5, "dev");
  }

  /** `next dev -p ` followed only by digits matches the first pattern. */
  lemma NextDevSpacePAt(s: string, i: nat, d: string)
    requires i + 12 <= |s|
    requires s[i] == 'n' && s[i + 1] == 'e' && s[i + 2] == 'x' && s[i + 3] == 't' && s[i + 4] == ' '
    requires s[i + 5] == 'd' && s[i + 6] == 'e' && s[i + 7] == 'v' && s[i + 8] == ' '
    requires s[i + 9] == '-' && s[i + 10] == 'p' && s[i + 11] == ' '
    requires s[i + 12..] == d && d != [] && AllDigits(d)
    ensures MatchAt(NextDevSpaceP, s, i) == Some(DigitsValue(d))
  {
    NextDevAt(s, i);
    assert SpanSpaces(s, i + 9) == i + 9;
    assert LitAt(s, i + 11, "");
    assert LitAt(s, i + 9, "-p");
    DigitsAtTail(s, i + 12, d);
    assert SpanSpaces(s, i + 12) == i + 12;
  }

  /**
   * `next dev -p N` wins over any `-p` before it, as in `foo -p 1 && next dev -p 2`:
   * the first pattern is tried first, and it matches only at `next`.
   */
  lemma NextDevBeatsEarlierDashP(prefix: string, n: nat)
    requires forall k :: 0 <= k < |prefix| ==> Lower(prefix[k]) != 'n'
    ensures ExtractPortFromScript(prefix + "next dev -p " + NatToString(n)) == Some(n)
  {
    var d := NatToString(n);
    var s := prefix + "next dev -p " + d;
    var i := |prefix|;
    forall j | 0 <= j < i ensures MatchAt(NextDevSpaceP, s, j).None? {
      assert s[j] == prefix[j];
      NoMatchAtWithoutLeadChar(NextDevSpaceP, s, j);
    }
    var t := s[i..i + 12];
    assert t == "next dev -p ";
    assert s[i] == t[0] && s[i + 1] == t[1] && s[i + 2] == t[2] && s[i + 3] == t[3];
    assert s[i + 4] == t[4] && s[i + 5] == t[5] && s[i + 6] == t[6] && s[i + 7] == t[7];
    assert s[i + 8] == t[8] && s[i + 9] == t[9] && s[i + 10] == t[10] && s[i + 11] == t[11];
    assert s[i + 12..] == d;
    NextDevSpacePAt(s, i, d);
    SearchFindsLeftmost(NextDevSpaceP, s, i);
    NoneBeforeFromSearches(s, NextDevSpaceP);
    ExtractByPattern(s, NextDevSpaceP);
  }

  // ---------------------------------------------------------------------------
  // package.json
  // ---------------------------------------------------------------------------

  /** A JSON scalar, or `Absent` where the key is missing. */
  datatype JsonScalar = Absent | JNull | JBool(b: bool) | JInt(i: int) | JString(s: string)

  /** Python truthiness of the value `dict.get` returns. */
  predicate Truthy(v: JsonScalar) {
    match v
    case Absent => false
    case JNull => false
    case JBool(b) => b
    case JInt(i) => i != 0
    case JString(s) => s != ""
  }

  /** Python's `int(v)`; `None` where it raises `ValueError`. */
  function IntOf(v: JsonScalar): Option<int> {
    match v
    case JBool(b) => Some(if b then 1 else 0)
    case JInt(i) => Some(i)
    case JString(s) => ParseInt(s)
    case _ => None
  }

  /**
   * A parsed package.json: its `scripts` object, the keys of its `dependencies`
   * object, and the value at `config.port`.
   */
  datatype PackageJson = PackageJson(scripts: map<string, string>, dependencies: set<string>, configPort: JsonScalar)

  /** `{}`, what `_read_package_json` returns when no candidate can be read. */
  const EmptyPackage := PackageJson(map[], {}, Absent)

  /** `_is_valid_port` */
  predicate IsValidPort(port: int) { 1 <= port <= 65535 }

  /** The port of script `name`, when it is present and non-empty and yields a non-zero port. */
  function ScriptPort(pkg: PackageJson, name: string): (r: Option<nat>)
    ensures r.Some? ==> name in pkg.scripts && r.value != 0 && r == ExtractPortFromScript(pkg.scripts[name])
    ensures r.None? && name in pkg.scripts ==> ExtractPortFromScript(pkg.scripts[name]) in {None, Some(0)}
  {
    if name in pkg.scripts && pkg.scripts[name] != "" then
      match ExtractPortFromScript(pkg.scripts[name])
      case Some(p) => if p != 0 then Some(p) else None
      case None => None
    else None
  }

  /** `config.port`, consulted only for a package that depends on `next`. */
  function ConfigPort(pkg: PackageJson): Option<int> {
    if "next" in pkg.dependencies && Truthy(pkg.configPort) then IntOf(pkg.configPort) else None
  }

  /**
   * `_get_port_from_package`: the port of the `dev` script, else of `start`, else
   * of `serve`, else `config.port` of a Next.js package.
   */
  function GetPortFromPackage(pkg: PackageJson): (r: Option<int>)
    ensures pkg == EmptyPackage ==> r.None?
    ensures pkg != EmptyPackage && ScriptPort(pkg, "dev").Some? ==> r == Some(ScriptPort(pkg, "dev").value as int)
    ensures ScriptPort(pkg, "dev").None? && ScriptPort(pkg, "start").Some? ==>
              r == Some(ScriptPort(pkg, "start").value as int)
    ensures ScriptPort(pkg, "dev").None? && ScriptPort(pkg, "start").None? && ScriptPort(pkg, "serve").Some? ==>
              r == Some(ScriptPort(pkg, "serve").value as int)
    ensures ScriptPort(pkg, "dev").None? && ScriptPort(pkg, "start").None? && ScriptPort(pkg, "serve").None? ==>
              r == ConfigPort(pkg)
    ensures "next" !in pkg.dependencies && r.Some? ==> r.value > 0
  {
    if pkg == EmptyPackage then None
    else if ScriptPort(pkg, "dev").Some? then Some(ScriptPort(pkg, "dev").value as int)
    else if ScriptPort(pkg, "start").Some? then Some(ScriptPort(pkg, "start").value as int)
    else if ScriptPort(pkg, "serve").Some? then Some(ScriptPort(pkg, "serve").value as int)
    else ConfigPort(pkg)
  }

  /** `next dev -p N` on its own gives N. */
  lemma NextDevScriptPort(n: nat)
    ensures ExtractPortFromScript("next dev -p " + NatToString(n)) == Some(n)
  {
    assert "" + "next dev -p " == "next dev -p ";
    NextDevBeatsEarlierDashP("", n);
  }

  /** A `dev` script that yields a non-zero port decides the result. */
  lemma DevPortDecides(pkg: PackageJson, n: nat)
    requires "dev" in pkg.scripts && ExtractPortFromScript(pkg.scripts["dev"]) == Some(n) && n != 0
    ensures GetPortFromPackage(pkg) == Some(n)
  {
  }

  /**
   * A `dev` script `next dev -p N` with N != 0 decides the port, whatever
   * `start`, `serve` and `config.port` say.
   */
  lemma DevScriptDecides(pkg: PackageJson, n: nat)
    requires "dev" in pkg.scripts && pkg.scripts["dev"] == "next dev -p " + NatToString(n) && n != 0
    ensures GetPortFromPackage(pkg) == Some(n)
  {
    NextDevScriptPort(n);
    DevPortDecides(pkg, n);
  }

  /** Port 0 in the `dev` script falls through to `start`. */
  lemma ZeroDevPortFallsThrough(pkg: PackageJson, n: nat)
    requires "dev" in pkg.scripts && pkg.scripts["dev"] == "-p" + NatToString(0)
    requires "start" in pkg.scripts && pkg.scripts["start"] == "-p" + NatToString(n) && n != 0
    ensures GetPortFromPackage(pkg) == Some(n)
  {
    DashPRecognised(0);
    DashPRecognised(n);
  }

  // ---------------------------------------------------------------------------
  // .env lines
  // ---------------------------------------------------------------------------

  /**
   * The value text of one .env line: after stripping, a line starting with
   * `REDIS_DB=` or `REDIS_CACHE_DB=` gives the stripped text between its first
   * and second `=`, when that text is non-empty.
   */
  function LineValue(line: string): Option<string> {
    var t := Strip(line);
    if StartsWith(t, "REDIS_DB=") || StartsWith(t, "REDIS_CACHE_DB=") then
      var value := Strip(SecondField(t, '='));
      if value != "" then Some(value) else None
    else None
  }

  /** The database number of one .env line: its value, when `int()` accepts it. */
  function LineRedisDb(line: string): Option<int> {
    match LineValue(line)
    case Some(value) => ParseInt(value)
    case None => None
  }

  /** The value of the first line, top to bottom, that yields one. */
  function LinesRedisDb(lines: seq<string>): Option<int> {
    FirstMapped(lines, LineRedisDb)
  }

  /** Nothing exactly when no line yields a value; otherwise the value of the first line that does. */
  lemma LinesRedisDbSpec(lines: seq<string>)
    ensures LinesRedisDb(lines).None? <==> forall j :: 0 <= j < |lines| ==> LineRedisDb(lines[j]).None?
    ensures LinesRedisDb(lines).Some? ==>
              exists j :: 0 <= j < |lines| && LineRedisDb(lines[j]) == LinesRedisDb(lines) &&
                (forall j' :: 0 <= j' < j ==> LineRedisDb(lines[j']).None?)
  {
    FirstMappedSpec(lines, LineRedisDb);
  }

  /** A usable line with none before it gives the value. */
  lemma LinesRedisDbPicks(lines: seq<string>, j: nat)
    requires j < |lines| && LineRedisDb(lines[j]).Some?
    requires forall j' :: 0 <= j' < j ==> LineRedisDb(lines[j']).None?
    ensures LinesRedisDb(lines) == LineRedisDb(lines[j])
  {
    FirstMappedPicks(lines, LineRedisDb, j);
  }

  /** The value after a key ending in `=`, when the value holds no `=`. */
  lemma SecondFieldAfterKey(key: string, v: string)
    requires key != [] && key[|key| - 1] == '='
    requires forall k :: 0 <= k < |key| - 1 ==> key[k] != '='
    requires forall k :: 0 <= k < |v| ==> v[k] != '='
    ensures SecondField(key + v, '=') == v
  {
    DropThroughPrefix(key, v, '=');
    TakeUntilAbsent(v, '=');
  }

  /** The two keys a .env line is scanned for. */
  predicate RedisDbKey(key: string) {
    key == "REDIS_DB=" || key == "REDIS_CACHE_DB="
  }

  /** A key holds its one `=` at its end. */
  lemma RedisDbKeyShape(key: string)
    requires RedisDbKey(key)
    ensures key != [] && key[|key| - 1] == '=' && !IsSpace(key[0])
    ensures forall k :: 0 <= k < |key| - 1 ==> key[k] != '='
  {
    forall k | 0 <= k < |key| - 1 ensures key[k] != '=' {
      if key == "REDIS_DB=" { assert key[k] == "REDIS_DB"[k]; } else { assert key[k] == "REDIS_CACHE_DB"[k]; }
    }
  }

  /** A key followed by an unpadded value needs no stripping. */
  lemma KeyValueUnpadded(key: string, v: string)
    requires RedisDbKey(key)
    requires v != [] && !IsSpace(v[0]) && !IsSpace(v[|v| - 1])
    ensures Strip(key + v) == key + v && StartsWith(key + v, key)
  {
    var line := key + v;
    RedisDbKeyShape(key);
    assert line[0] == key[0];
    assert line[|line| - 1] == v[|v| - 1];
    StripUnchanged(line);
    assert line[..|key|] == key;
  }

  /** A recognised key followed by an unpadded value gives that value. */
  lemma LineValueOfKey(key: string, v: string)
    requires RedisDbKey(key)
    requires v != [] && !IsSpace(v[0]) && !IsSpace(v[|v| - 1])
    requires forall k :: 0 <= k < |v| ==> v[k] != '='
    ensures LineValue(key + v) == Some(v)
  {
    RedisDbKeyShape(key);
    KeyValueUnpadded(key, v);
    SecondFieldAfterKey(key, v);
    StripUnchanged(v);
  }

  /** `REDIS_DB=N` and `REDIS_CACHE_DB=N` give N. */
  lemma LineRedisDbOfAssignment(key: string, n: nat)
    requires RedisDbKey(key)
    ensures LineRedisDb(key + NatToString(n)) == Some(n)
  {
    var d := NatToString(n);
    forall k | 0 <= k < |d| ensures d[k] != '=' {
      assert IsDigit(d[k]);
    }
    assert IsDigit(d[0]) && IsDigit(d[|d| - 1]);
    LineValueOfKey(key, d);
    ParseIntOfNatToString(n);
  }

  /** A line whose value is empty, as in `REDIS_DB=`, gives nothing, so the scan goes on. */
  lemma LineRedisDbEmptyValue(key: string)
    requires RedisDbKey(key)
    ensures LineValue(key).None? && LineRedisDb(key).None?
  {
    RedisDbKeyShape(key);
    StripUnchanged(key);
    assert key == key + [];
    SecondFieldAfterKey(key, []);
  }
}
