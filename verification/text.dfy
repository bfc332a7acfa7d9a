/** Python string operations the trial-matching code relies on, written out
    over `string` (`seq<char>`): lower-casing, `replace`, substring tests,
    `endswith`, `' '.join`, `<` on strings, `str()` of an integer and reading it back. */
module Text {
  import opened Wrappers

  /** `c.lower()` on the ASCII range. */
  function LowerChar(c: char): char {
    if 'A' <= c <= 'Z' then (c as int - 'A' as int + 'a' as int) as char else c
  }

  /** `s.lower()`: every upper-case letter becomes lower case, nothing else moves. */
  function Lower(s: string): (r: string)
    ensures |r| == |s|
    ensures forall i :: 0 <= i < |s| ==> r[i] == LowerChar(s[i])
    ensures forall i :: 0 <= i < |r| ==> !('A' <= r[i] <= 'Z')
  {
    if |s| == 0 then "" else [LowerChar(s[0])] + Lower(s[1..])
  }

  predicate StartsWith(s: string, prefix: string) {
    |prefix| <= |s| && s[..|prefix|] == prefix
  }

  /** `sub in s`. */
  predicate Contains(s: string, sub: string)
    decreases |s|
  {
    StartsWith(s, sub) || (|s| > 0 && Contains(s[1..], sub))
  }

  /** `s.endswith(suffix)`. */
  predicate EndsWith(s: string, suffix: string) {
    |suffix| <= |s| && s[|s| - |suffix|..] == suffix
  }

  /** An occurrence of `sub` at a definite offset is what `in` finds. */
  lemma {:induction false} ContainsAt(s: string, sub: string, i: nat)
    requires i + |sub| <= |s| && s[i..i + |sub|] == sub
    ensures Contains(s, sub)
    decreases i
  {
    if i == 0 {
      assert s[..|sub|] == sub;
    } else {
      assert s[1..][i - 1..i - 1 + |sub|] == s[i..i + |sub|];
      ContainsAt(s[1..], sub, i - 1);
    }
  }

  /** A string that contains a non-empty text is itself non-empty. */
  lemma {:induction false} ContainsNonEmpty(s: string, sub: string)
    requires Contains(s, sub) && |sub| > 0
    ensures |s| >= |sub|
    decreases |s|
  {
    if !StartsWith(s, sub) {
      ContainsNonEmpty(s[1..], sub);
    }
  }

  /** `rchop` (patient.py): drop `ending` from the end of `s` when `s` ends
      with it. Python's `s[:-0]` is the empty string, so an empty `ending`
      chops everything. */
  function Rchop(s: string, ending: string): (r: string)
    ensures |ending| > 0 && EndsWith(s, ending) ==> r + ending == s
    ensures !EndsWith(s, ending) ==> r == s
    ensures |ending| == 0 ==> r == ""
  {
    if EndsWith(s, ending) then
      (if |ending| == 0 then "" else s[..|s| - |ending|])
    else s
  }

  /** The first character of `s` once a leading CR LF has been replaced by a space. */
  function HeadAfterCrlf(s: string): char
    requires |s| > 0
  {
    if |s| >= 2 && s[0] == '\r' && s[1] == '\n' then ' ' else s[0]
  }

  /** `s.replace('\r\n', ' ')`: non-overlapping occurrences, left to right. */
  function ReplaceCrlf(s: string): (r: string)
    ensures |r| <= |s|
    ensures |s| > 0 <==> |r| > 0
    ensures |s| > 0 ==> r[0] == HeadAfterCrlf(s)
    ensures !Contains(r, "\r\n")
    decreases |s|
  {
    if |s| == 0 then ""
    else if |s| >= 2 && s[0] == '\r' && s[1] == '\n' then
      var rest := ReplaceCrlf(s[2..]);
      assert ([' '] + rest)[1..] == rest;
      [' '] + rest
    else
      var rest := ReplaceCrlf(s[1..]);
      assert ([s[0]] + rest)[1..] == rest;
      assert s[0] == '\r' && |rest| > 0 ==> rest[0] != '\n';
      [s[0]] + rest
  }

  /** How many CR LF pairs `s.replace('\r\n', ' ')` replaces. */
  function CrlfCount(s: string): nat
    decreases |s|
  {
    if |s| == 0 then 0
    else if |s| >= 2 && s[0] == '\r' && s[1] == '\n' then 1 + CrlfCount(s[2..])
    else CrlfCount(s[1..])
  }

  /** Each replaced pair takes one CR and one LF away and brings one space;
      every other character keeps its count. */
  predicate CrlfBalance(s: string, c: char) {
    multiset(ReplaceCrlf(s))[c] + (if c == '\r' || c == '\n' then CrlfCount(s) else 0)
    == multiset(s)[c] + (if c == ' ' then CrlfCount(s) else 0)
  }

  lemma {:induction false} ReplaceCrlfCounts(s: string, c: char)
    ensures CrlfBalance(s, c)
    decreases |s|
  {
    if |s| >= 2 && s[0] == '\r' && s[1] == '\n' {
      ReplaceCrlfCounts(s[2..], c);
      BalancePair(s, c);
    } else if |s| > 0 {
      ReplaceCrlfCounts(s[1..], c);
      BalanceOther(s, c);
    }
  }

  lemma BalancePair(s: string, c: char)
    requires |s| >= 2 && s[0] == '\r' && s[1] == '\n' && CrlfBalance(s[2..], c)
    ensures CrlfBalance(s, c)
  {
    var r := ReplaceCrlf(s);
    assert r == [' '] + ReplaceCrlf(s[2..]);
    CountSplit(s, 2, c);
    CountSplit(r, 1, c);
    assert s[..2] == ['\r', '\n'] && r[..1] == [' '] && r[1..] == ReplaceCrlf(s[2..]);
  }

  lemma BalanceOther(s: string, c: char)
    requires |s| > 0 && !(|s| >= 2 && s[0] == '\r' && s[1] == '\n') && CrlfBalance(s[1..], c)
    ensures CrlfBalance(s, c)
  {
    var r := ReplaceCrlf(s);
    assert r == [s[0]] + ReplaceCrlf(s[1..]);
    CountSplit(s, 1, c);
    CountSplit(r, 1, c);
    assert s[..1] == [s[0]] && r[..1] == [s[0]] && r[1..] == ReplaceCrlf(s[1..]);
  }

  lemma CountSplit(s: string, k: nat, c: char)
    requires k <= |s|
    ensures multiset(s)[c] == multiset(s[..k])[c] + multiset(s[k..])[c]
  {
    assert s == s[..k] + s[k..];
  }

  /** Text without a CR LF pair is left as it is. */
  lemma {:induction false} ReplaceCrlfNoCrlf(s: string)
    requires !Contains(s, "\r\n")
    ensures ReplaceCrlf(s) == s
    decreases |s|
  {
    if |s| > 0 {
      ReplaceCrlfNoCrlf(s[1..]);
    }
  }

  /** `s.replace(c, '')`: every occurrence of `c` is removed and nothing else. */
  function RemoveChar(s: string, c: char): (r: string)
    ensures multiset(r) == multiset(s)[c := 0]
    ensures c !in r
    ensures |r| <= |s|
  {
    if |s| == 0 then ""
    else
      assert s == [s[0]] + s[1..];
      if s[0] == c then RemoveChar(s[1..], c) else [s[0]] + RemoveChar(s[1..], c)
  }

  /** Removing a character the text does not hold changes nothing. */
  lemma {:induction false} RemoveCharAbsent(s: string, c: char)
    requires c !in s
    ensures RemoveChar(s, c) == s
  {
    if |s| > 0 {
      assert c !in s[1..];
      RemoveCharAbsent(s[1..], c);
      assert s == [s[0]] + s[1..];
    }
  }

  /** `sep.join(parts)`. */
  function Join(sep: string, parts: seq<string>): string {
    if |parts| == 0 then ""
    else if |parts| == 1 then parts[0]
    else parts[0] + sep + Join(sep, parts[1..])
  }

  /** A join is empty exactly when every part is empty and there is no separator
      between them. */
  lemma {:induction false} JoinEmpty(sep: string, parts: seq<string>)
    requires |sep| > 0
    ensures Join(sep, parts) == "" <==> |parts| == 0 || (|parts| == 1 && parts[0] == "")
  {
    if |parts| > 1 {
      assert |Join(sep, parts)| >= |sep|;
    }
  }

  /** Python's `<` on `str`: lexicographic by code point, a proper prefix first. */
  predicate StrLess(a: string, b: string)
    decreases |a|
  {
    if |a| == 0 then |b| > 0
    else if |b| == 0 then false
    else if a[0] != b[0] then a[0] < b[0]
    else StrLess(a[1..], b[1..])
  }

  lemma {:induction false} StrLessTransitive(a: string, b: string, c: string)
    requires StrLess(a, b) && StrLess(b, c)
    ensures StrLess(a, c)
    decreases |a|
  {
    if |a| > 0 && a[0] == b[0] && b[0] == c[0] {
      StrLessTransitive(a[1..], b[1..], c[1..]);
    }
  }

  /** Two different strings are always ordered one way or the other. */
  lemma {:induction false} StrLessTotal(a: string, b: string)
    requires a != b
    ensures StrLess(a, b) || StrLess(b, a)
    decreases |a|
  {
    if |a| > 0 && |b| > 0 && a[0] == b[0] {
      assert a == [a[0]] + a[1..] && b == [b[0]] + b[1..];
      StrLessTotal(a[1..], b[1..]);
    }
  }

  predicate IsDigit(c: char) {
    '0' <= c <= '9'
  }

  predicate AllDigits(s: string) {
    forall i :: 0 <= i < |s| ==> IsDigit(s[i])
  }

  function DigitChar(d: nat): (c: char)
    requires d < 10
    ensures IsDigit(c)
  {
    ('0' as int + d) as char
  }

  /** The value of a run of decimal digits (`int()` of it). */
  function DigitsValue(s: string): nat
    requires AllDigits(s)
  {
    if |s| == 0 then 0
    else 10 * DigitsValue(s[..|s| - 1]) + (s[|s| - 1] as int - '0' as int)
  }

  /** `str(n)` for a non-negative integer. */
  function NatToString(n: nat): (r: string)
    ensures |r| > 0 && AllDigits(r)
    ensures r[0] == '0' ==> n == 0
  {
    if n < 10 then [DigitChar(n)] else NatToString(n / 10) + [DigitChar(n % 10)]
  }

  /** `str(i)` for an integer: a minus sign, then the digits of the magnitude. */
  function IntToString(i: int): string {
    if i < 0 then "-" + NatToString(-i) else NatToString(i)
  }

  /** `str` of a natural number reads back as that number. */
  lemma {:induction false} NatToStringRoundTrip(n: nat)
    ensures DigitsValue(NatToString(n)) == n
  {
    if n >= 10 {
      var s := NatToString(n);
      assert s[..|s| - 1] == NatToString(n / 10);
      NatToStringRoundTrip(n / 10);
    }
  }

  /** `int(str(i)) == i`: the decimal rendering of an integer is faithful. */
  lemma IntToStringRoundTrip(i: int)
    ensures var s := IntToString(i);
      if i < 0 then s[0] == '-' && AllDigits(s[1..]) && -(DigitsValue(s[1..]) as int) == i
      else AllDigits(s) && DigitsValue(s) == i
  {
    if i < 0 {
      NatToStringRoundTrip(-i);
      assert IntToString(i)[1..] == NatToString(-i);
    } else {
      NatToStringRoundTrip(i);
    }
  }

  /** The integer a canonical decimal rendering denotes: an optional minus
      sign and at least one digit. */
  function DecimalValue(s: string): Option<int> {
    if |s| > 0 && s[0] == '-' then
      if |s| > 1 && AllDigits(s[1..]) then Some(-(DigitsValue(s[1..]) as int)) else None
    else if |s| > 0 && AllDigits(s) then Some(DigitsValue(s) as int)
    else None
  }

  /** `str` of an integer reads back as that integer. */
  lemma DecimalValueOfIntToString(i: int)
    ensures DecimalValue(IntToString(i)) == Some(i)
  {
    IntToStringRoundTrip(i);
    if i < 0 {
      assert IntToString(i)[1..] == NatToString(-i);
    }
  }
}
