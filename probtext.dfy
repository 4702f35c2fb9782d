/** MaxQuant phospho-probability strings such as `S(0.326)S(0.185)S(0.489)PPPRK`
    and the two regular expressions `transfer.py` uses on them:
    `\((\d(?:\.\d+)?)\)` to compare their sequences and `\((\d(?:\.?\d+)?)\)`
    to take them apart. Each expression is matched at a position as Python's
    backtracking matcher does; since a digit run is always followed by a
    character that must be `)`, the greedy run is the only one that can match. */
module ProbText {
  import opened Wrappers
  import opened Strings

  /** Length of the run of decimal digits at the start of `s`. */
  function DigitRun(s: string): (n: nat)
    ensures n <= |s|
    ensures forall i :: 0 <= i < n ==> IsDigit(s[i])
    ensures n < |s| ==> !IsDigit(s[n])
    decreases |s|
  {
    if s != [] && IsDigit(s[0]) then 1 + DigitRun(s[1..]) else 0
  }

  lemma {:induction false} DigitRunAppend(d: string, s: string)
    requires forall i :: 0 <= i < |d| ==> IsDigit(d[i])
    requires s != [] && !IsDigit(s[0])
    ensures DigitRun(d + s) == |d|
    decreases |d|
  {
    if d == [] {
      assert d + s == s;
    } else {
      assert (d + s)[0] == d[0];
      assert (d + s)[1..] == d[1..] + s;
      DigitRunAppend(d[1..], s);
    }
  }

  predicate AllDigits(s: string) {
    forall i :: 0 <= i < |s| ==> IsDigit(s[i])
  }

  /** The text the first expression's group can take: one digit, or a digit,
      a point and one or more digits. */
  predicate IsShortNumber(g: string) {
    (|g| == 1 && IsDigit(g[0])) ||
    (|g| >= 3 && IsDigit(g[0]) && g[1] == '.' && AllDigits(g[2..]))
  }

  /** The text the second expression's group can take: one or more digits, or a
      digit, a point and one or more digits. */
  predicate IsNumber(g: string) {
    (|g| >= 1 && AllDigits(g)) ||
    (|g| >= 3 && IsDigit(g[0]) && g[1] == '.' && AllDigits(g[2..]))
  }

  /** Length of a match of `\((\d(?:\.\d+)?)\)` at the start of `s`. */
  function MatchShort(s: string): (m: Option<nat>)
    ensures m.Some? ==>
      3 <= m.value <= |s| && s[0] == '(' && s[m.value - 1] == ')' && IsShortNumber(s[1..m.value - 1])
  {
    if |s| >= 3 && s[0] == '(' && IsDigit(s[1]) then
      if s[2] == ')' then Some(3)
      else if s[2] == '.' then
        var k := DigitRun(s[3..]);
        if k >= 1 && 3 + k < |s| && s[3 + k] == ')' then
          assert s[1..3 + k][2..] == s[3..][..k];
          Some(4 + k)
        else None
      else None
    else None
  }

  /** Length of a match of `\((\d(?:\.?\d+)?)\)` at the start of `s`. */
  function MatchLong(s: string): (m: Option<nat>)
    ensures m.Some? ==>
      3 <= m.value <= |s| && s[0] == '(' && s[m.value - 1] == ')' && IsNumber(s[1..m.value - 1])
  {
    if |s| >= 3 && s[0] == '(' && IsDigit(s[1]) then
      if s[2] == '.' then
        var k := DigitRun(s[3..]);
        if k >= 1 && 3 + k < |s| && s[3 + k] == ')' then
          assert s[1..3 + k][2..] == s[3..][..k];
          Some(4 + k)
        else None
      else
        var k := DigitRun(s[1..]);
        if 1 + k < |s| && s[1 + k] == ')' then
          assert s[1..1 + k] == s[1..][..k];
          Some(2 + k)
        else None
    else None
  }

  datatype Pattern = Short | Long

  function MatchAt(s: string, p: Pattern): (m: Option<nat>)
    ensures m.Some? ==> 3 <= m.value <= |s| && s[0] == '('
  {
    match p
    case Short => MatchShort(s)
    case Long => MatchLong(s)
  }

  /** `re.sub(pattern, '', s)`. */
  function Strip(s: string, p: Pattern): string
    decreases |s|
  {
    if s == [] then []
    else match MatchAt(s, p)
      case Some(n) => Strip(s[n..], p)
      case None => [s[0]] + Strip(s[1..], p)
  }

  /** `re.split(r'\((\d(?:\.?\d+)?)\)', s)` from the point where `cur` has been
      read since the last match: texts at even indices, groups at odd ones. */
  function SplitFrom(s: string, cur: string): (parts: seq<string>)
    ensures |parts| % 2 == 1
    ensures forall i :: 0 <= i < |parts| && i % 2 == 1 ==> IsNumber(parts[i])
    decreases |s|
  {
    if s == [] then [cur]
    else match MatchLong(s)
      case Some(n) =>
        var rest := SplitFrom(s[n..], "");
        var r := [cur, s[1..n - 1]] + rest;
        assert forall i :: 2 <= i < |r| ==> r[i] == rest[i - 2];
        r
      case None => SplitFrom(s[1..], cur + [s[0]])
  }

  function SplitProbabilities(s: string): (parts: seq<string>)
    ensures |parts| % 2 == 1
    ensures forall i :: 0 <= i < |parts| && i % 2 == 1 ==> IsNumber(parts[i])
  {
    SplitFrom(s, "")
  }

  /** `float(g)` for the text of a number. */
  function NumberValue(g: string): (v: real)
    requires IsNumber(g)
    ensures v >= 0.0
  {
    if |g| >= 1 && AllDigits(g) then ParseNat(g) as real
    else
      var frac := g[2..];
      ((g[0] as int - '0' as int) as real) + (ParseNat(frac) as real) / (Pow10(|frac|) as real)
  }

  function Pow10(n: nat): (p: nat)
    ensures p >= 1
  {
    if n == 0 then 1 else 10 * Pow10(n - 1)
  }

  // ---------------------------------------------------------------------------
  // Probability strings as token lists

  /** A plain character, or a parenthesised number. */
  datatype PToken = Plain(c: char) | Number(text: string)

  predicate GoodToken(t: PToken, p: Pattern) {
    match t
    case Plain(c) => c != '('
    case Number(g) => if p == Short then IsShortNumber(g) else IsNumber(g)
  }

  ghost predicate GoodTokens(ts: seq<PToken>, p: Pattern) {
    forall i :: 0 <= i < |ts| ==> GoodToken(ts[i], p)
  }

  function PText(t: PToken): string {
    match t
    case Plain(c) => [c]
    case Number(g) => "(" + g + ")"
  }

  function PRender(ts: seq<PToken>): string
    decreases |ts|
  {
    if ts == [] then [] else PText(ts[0]) + PRender(ts[1..])
  }

  /** The characters of the plain tokens: the sequence without its numbers. */
  function Plains(ts: seq<PToken>): string
    decreases |ts|
  {
    if ts == [] then []
    else (if ts[0].Plain? then [ts[0].c] else []) + Plains(ts[1..])
  }

  lemma PRenderCons(t: PToken, ts: seq<PToken>)
    ensures PRender([t] + ts) == PText(t) + PRender(ts)
  {
    assert ([t] + ts)[1..] == ts;
  }

  lemma {:induction false} PRenderAppend(a: seq<PToken>, b: seq<PToken>)
    ensures PRender(a + b) == PRender(a) + PRender(b)
    decreases |a|
  {
    if a == [] {
      assert a + b == b;
    } else {
      assert (a + b)[1..] == a[1..] + b;
      PRenderAppend(a[1..], b);
    }
  }

  lemma {:induction false} PlainsAppend(a: seq<PToken>, b: seq<PToken>)
    ensures Plains(a + b) == Plains(a) + Plains(b)
    decreases |a|
  {
    if a == [] {
      assert a + b == b;
    } else {
      assert (a + b)[1..] == a[1..] + b;
      assert (a + b)[0] == a[0];
      PlainsAppend(a[1..], b);
    }
  }

  /** A number token is matched whole, whatever follows it. */
  lemma MatchNumber(g: string, rest: string, p: Pattern)
    requires GoodToken(Number(g), p)
    ensures MatchAt("(" + g + ")" + rest, p) == Some(|g| + 2)
  {
    var s := "(" + g + ")" + rest;
    assert s[0] == '(' && s[1] == g[0];
    assert s[1..|g| + 1] == g;
    assert s[|g| + 1] == ')';
    if |g| >= 3 && IsDigit(g[0]) && g[1] == '.' && AllDigits(g[2..]) {
      assert s[2] == '.';
      DigitRunAppend(g[2..], ")" + rest);
      assert s[3..] == g[2..] + (")" + rest);
    } else if p == Short {
      assert s[2] == ')';
    } else {
      assert AllDigits(g);
      assert !IsDigit('.');
      if |g| >= 2 {
        assert s[2] == g[1];
      }
      DigitRunAppend(g, ")" + rest);
      assert s[1..] == g + (")" + rest);
    }
  }

  lemma StripPlain(c: char, rest: string, p: Pattern)
    requires c != '('
    ensures Strip([c] + rest, p) == [c] + Strip(rest, p)
  {
    assert ([c] + rest)[1..] == rest;
  }

  lemma StripNumber(g: string, rest: string, p: Pattern)
    requires GoodToken(Number(g), p)
    ensures Strip("(" + g + ")" + rest, p) == Strip(rest, p)
  {
    MatchNumber(g, rest, p);
    assert ("(" + g + ")" + rest)[|g| + 2..] == rest;
  }

  /** Removing the numbers with either expression leaves the plain characters. */
  lemma {:induction false} StripRender(ts: seq<PToken>, p: Pattern)
    requires GoodTokens(ts, p)
    ensures Strip(PRender(ts), p) == Plains(ts)
    decreases |ts|
  {
    if ts != [] {
      assert GoodToken(ts[0], p);
      assert GoodTokens(ts[1..], p) by {
        forall i | 0 <= i < |ts[1..]| ensures GoodToken(ts[1..][i], p) {
          assert ts[1..][i] == ts[i + 1];
        }
      }
      StripRender(ts[1..], p);
      match ts[0]
      case Plain(c) =>
        StripPlain(c, PRender(ts[1..]), p);
      case Number(g) =>
        StripNumber(g, PRender(ts[1..]), p);
    }
  }
}
