/** `convert_expressions` and the `eval` that follows it (patient.py).

    The source pulls the first fragment matching
    `\s?[><=]+\s?\d+[,.]?\d*` out of a condition text, deletes its commas and
    hands `str(lab) + fragment` to Python's `eval`. Here the regular expression
    is a hand-written scanner with the same leftmost-greedy result, and `eval`
    is replaced by a typed reading of the fragment: an enumerated operator, a
    decimal threshold and a comparison over reals. Fragments that Python would
    refuse to evaluate become an `Err`. */
module Expressions {
  import opened Wrappers
  import opened Text

  /** A JSON number as Python loads it: `int` or `float`. */
  datatype Quantity = IntValue(i: int) | FloatValue(r: real) {
    function Real(): real {
      match this
      case IntValue(i) => i as real
      case FloatValue(r) => r
    }

    /** `str(value) == "0"`: only the integer zero prints as `0`
        (the float zero prints as `0.0`). */
    predicate ShowsZero() {
      IntValue? && i == 0
    }
  }

  /** A lab result as stored by the observation fold: `(str(value), unit)`. */
  datatype LabValue = LabValue(quantity: Quantity, unit: string)

  /** `\s` as under `re.ASCII`: space, tab, line feed, carriage return, vertical tab, form feed. */
  predicate IsRegexSpace(c: char) {
    c == ' ' || c == '\t' || c == '\n' || c == '\r' || c as int == 11 || c as int == 12
  }

  predicate IsOpChar(c: char) {
    c == '>' || c == '=' || c == '<'
  }

  /** One match of the `convert_expressions` pattern, cut into its parts. */
  datatype Fragment = Fragment(
    lead: string,    // `\s?`
    op: string,      // `[><=]+`
    gap: string,     // `\s?`
    intPart: string, // `\d+`
    sep: string,     // `[,.]?`
    fracPart: string // `\d*`
  ) {
    function Text(): string {
      lead + op + gap + intPart + sep + fracPart
    }

    /** What the pattern can match: every part drawn from its character class. */
    predicate WellFormed() {
      && |lead| <= 1 && (forall t :: 0 <= t < |lead| ==> IsRegexSpace(lead[t]))
      && |op| >= 1 && (forall t :: 0 <= t < |op| ==> IsOpChar(op[t]))
      && |gap| <= 1 && (forall t :: 0 <= t < |gap| ==> IsRegexSpace(gap[t]))
      && |intPart| >= 1 && AllDigits(intPart)
      && (sep == "" || sep == "," || sep == ".")
      && AllDigits(fracPart)
    }

    /** `fragment.replace(',', '')`: the only comma a fragment can hold is its separator. */
    function Stripped(): (r: string)
      requires WellFormed()
      ensures r == RemoveChar(Text(), ',')
    {
      var r := lead + op + gap + intPart + (if sep == "," then "" else sep) + fracPart;
      assert ',' !in lead + op + gap + intPart && ',' !in fracPart;
      assert Text() == (lead + op + gap + intPart) + sep + fracPart;
      RemoveCharConcat(lead + op + gap + intPart, sep, fracPart);
      r
    }
  }

  lemma {:induction false} RemoveCharAppend(a: string, b: string, c: char)
    ensures RemoveChar(a + b, c) == RemoveChar(a, c) + RemoveChar(b, c)
  {
    if |a| > 0 {
      assert (a + b)[0] == a[0] && (a + b)[1..] == a[1..] + b;
      RemoveCharAppend(a[1..], b, c);
    } else {
      assert a + b == b;
    }
  }

  lemma RemoveCharConcat(a: string, sep: string, b: string)
    requires ',' !in a && ',' !in b && (sep == "" || sep == "," || sep == ".")
    ensures RemoveChar(a + sep + b, ',') == a + (if sep == "," then "" else sep) + b
  {
    RemoveCharAppend(a + sep, b, ',');
    RemoveCharAppend(a, sep, ',');
    RemoveCharAbsent(a, ',');
    RemoveCharAbsent(b, ',');
    if sep != "," {
      RemoveCharAbsent(sep, ',');
    }
  }

  /** End of the longest run of operator characters starting at `j`. */
  function OpRunEnd(s: string, j: nat): (k: nat)
    requires j <= |s|
    ensures j <= k <= |s|
    ensures forall t :: j <= t < k ==> IsOpChar(s[t])
    ensures k == |s| || !IsOpChar(s[k])
    decreases |s| - j
  {
    if j < |s| && IsOpChar(s[j]) then OpRunEnd(s, j + 1) else j
  }

  /** End of the longest run of decimal digits starting at `j`. */
  function DigitRunEnd(s: string, j: nat): (k: nat)
    requires j <= |s|
    ensures j <= k <= |s|
    ensures forall t :: j <= t < k ==> IsDigit(s[t])
    ensures k == |s| || !IsDigit(s[k])
    decreases |s| - j
  {
    if j < |s| && IsDigit(s[j]) then DigitRunEnd(s, j + 1) else j
  }

  /** Where the parts of a match that starts at `i` end: the optional blank
      (`j`), the operator run (`k`), the optional blank (`m`), the integer
      digits (`e`), the separator (`f`) and the fraction digits (`g`). */
  datatype Cut = Cut(j: nat, k: nat, m: nat, e: nat, f: nat, g: nat)

  /** The ends are in order within `s`. */
  predicate CutInside(s: string, i: nat, c: Cut) {
    i <= c.j <= c.k <= c.m <= c.e <= c.f <= c.g <= |s|
  }

  /** The ends are in order and every part is drawn from its character class. */
  predicate CutFits(s: string, i: nat, c: Cut) {
    && CutInside(s, i, c)
    && c.j <= i + 1 && (c.j == i + 1 ==> IsRegexSpace(s[i]))
    && c.k > c.j && (forall t :: c.j <= t < c.k ==> IsOpChar(s[t]))
    && c.m <= c.k + 1 && (c.m == c.k + 1 ==> IsRegexSpace(s[c.k]))
    && c.e > c.m && (forall t :: c.m <= t < c.e ==> IsDigit(s[t]))
    && c.f <= c.e + 1 && (c.f == c.e + 1 ==> s[c.e] == ',' || s[c.e] == '.')
    && (forall t :: c.f <= t < c.g ==> IsDigit(s[t]))
  }

  /** Every part of the cut took all it could: an optional part is present
      exactly when its character is there, and every run ends where its
      character class ends. */
  predicate CutGreedy(s: string, i: nat, c: Cut) {
    && (c.j == i + 1 <==> i < |s| && IsRegexSpace(s[i]))
    && (c.k < |s| ==> !IsOpChar(s[c.k]))
    && (c.m == c.k + 1 <==> c.k < |s| && IsRegexSpace(s[c.k]))
    && (c.e < |s| ==> !IsDigit(s[c.e]))
    && (c.f == c.e + 1 <==> c.e < |s| && (s[c.e] == ',' || s[c.e] == '.'))
    && (c.g < |s| ==> !IsDigit(s[c.g]))
  }

  /** Where the match that starts exactly at `i` ends its parts, if there is
      one. Every quantifier of the pattern is greedy and backing off never
      helps: a shorter operator run is followed by an operator character, a
      shorter digit run by a digit, and the optional parts after the digits
      always succeed. */
  function CutAt(s: string, i: nat): Option<Cut>
    requires i <= |s|
  {
    var j := if i < |s| && IsRegexSpace(s[i]) then i + 1 else i;
    if !(j < |s| && IsOpChar(s[j])) then None
    else
      var k := OpRunEnd(s, j);
      var m := if k < |s| && IsRegexSpace(s[k]) then k + 1 else k;
      if !(m < |s| && IsDigit(s[m])) then None
      else Some(NumberCut(s, j, k, m))
  }

  /** The cut once the number starts at `m`: the integer digits, the
      optional separator and the fraction digits. */
  function NumberCut(s: string, j: nat, k: nat, m: nat): Cut
    requires m <= |s|
  {
    var e := DigitRunEnd(s, m);
    var f := if e < |s| && (s[e] == ',' || s[e] == '.') then e + 1 else e;
    Cut(j, k, m, e, f, DigitRunEnd(s, f))
  }

  /** The scanner's steps up to the first digit, spelled out. */
  lemma CutAtFront(s: string, i: nat, j: nat, k: nat, m: nat)
    requires i <= |s| && j == (if i < |s| && IsRegexSpace(s[i]) then i + 1 else i)
    requires j < |s| && IsOpChar(s[j]) && k == OpRunEnd(s, j)
    requires m == (if k < |s| && IsRegexSpace(s[k]) then k + 1 else k)
    requires m < |s| && IsDigit(s[m])
    ensures CutAt(s, i) == Some(NumberCut(s, j, k, m))
  {
  }

  /** Whatever the scanner cuts fits the pattern and is greedy. */
  lemma CutAtFitsGreedy(s: string, i: nat)
    requires i <= |s| && CutAt(s, i).Some?
    ensures CutFits(s, i, CutAt(s, i).value) && CutGreedy(s, i, CutAt(s, i).value)
  {
  }

  /** The parts of `s` between the ends of a cut. */
  function Sliced(s: string, i: nat, c: Cut): Fragment
    requires CutInside(s, i, c)
  {
    Fragment(s[i..c.j], s[c.j..c.k], s[c.k..c.m], s[c.m..c.e], s[c.e..c.f], s[c.f..c.g])
  }

  /** Where the parts of a fragment placed at `i` end. */
  function CutOf(i: nat, f: Fragment): Cut {
    var j := i + |f.lead|;
    var k := j + |f.op|;
    var m := k + |f.gap|;
    var e := m + |f.intPart|;
    var g := e + |f.sep|;
    Cut(j, k, m, e, g, g + |f.fracPart|)
  }

  /** The fragment's text occurs in `s` starting at `i`. */
  predicate OccursAt(s: string, i: nat, f: Fragment) {
    i + |f.Text()| <= |s| && s[i..i + |f.Text()|] == f.Text()
  }

  /** The fragment placed at `i` is what the greedy quantifiers of the
      pattern take: each optional blank and the separator are present exactly
      when the character is there to take, and the operator run and both
      digit runs end where their character class ends. */
  predicate Greedy(s: string, i: nat, f: Fragment) {
    CutGreedy(s, i, CutOf(i, f))
  }

  /** The match of the pattern that starts exactly at `i`, if any: a
      well-formed fragment, found verbatim at `i`, every part taken greedily. */
  function MatchAt(s: string, i: nat): (r: Option<Fragment>)
    requires i <= |s|
    ensures r.Some? ==> r.value.WellFormed() && OccursAt(s, i, r.value) && Greedy(s, i, r.value)
  {
    match CutAt(s, i)
    case None => None
    case Some(c) =>
      CutAtFitsGreedy(s, i);
      SlicedFragment(s, i, c);
      Some(Sliced(s, i, c))
  }

  /** The parts of a cut form a well-formed fragment that sits in `s` at `i`,
      and placing it at `i` gives back the cut. */
  lemma SlicedFragment(s: string, i: nat, c: Cut)
    requires CutFits(s, i, c) && CutGreedy(s, i, c)
    ensures Sliced(s, i, c).WellFormed() && OccursAt(s, i, Sliced(s, i, c)) && Greedy(s, i, Sliced(s, i, c))
  {
    SlicedWellFormed(s, i, c);
    SlicesGlue(s, i, c.j, c.k, c.m, c.e, c.f, c.g);
    assert CutOf(i, Sliced(s, i, c)) == c;
  }

  /** A fragment found at `i` is the parts of `s` between its own ends. */
  lemma PartsAt(s: string, i: nat, f: Fragment)
    requires OccursAt(s, i, f)
    ensures CutInside(s, i, CutOf(i, f)) && Sliced(s, i, CutOf(i, f)) == f
  {
    var c := CutOf(i, f);
    assert |f.Text()| == c.g - i;
    SlicesGlue(s, i, c.j, c.k, c.m, c.e, c.f, c.g);
    EqualParts(s[i..c.j] + s[c.j..c.k] + s[c.k..c.m] + s[c.m..c.e] + s[c.e..c.f], s[c.f..c.g],
               f.lead + f.op + f.gap + f.intPart + f.sep, f.fracPart);
    EqualParts(s[i..c.j] + s[c.j..c.k] + s[c.k..c.m] + s[c.m..c.e], s[c.e..c.f],
               f.lead + f.op + f.gap + f.intPart, f.sep);
    EqualParts(s[i..c.j] + s[c.j..c.k] + s[c.k..c.m], s[c.m..c.e], f.lead + f.op + f.gap, f.intPart);
    EqualParts(s[i..c.j] + s[c.j..c.k], s[c.k..c.m], f.lead + f.op, f.gap);
    EqualParts(s[i..c.j], s[c.j..c.k], f.lead, f.op);
  }

  lemma EqualParts(a: string, b: string, x: string, y: string)
    requires a + b == x + y && |a| == |x|
    ensures a == x && b == y
  {
    assert a == (a + b)[..|a|] && x == (x + y)[..|x|];
    assert b == (a + b)[|a|..] && y == (x + y)[|x|..];
  }

  /** The scan misses nothing: wherever some well-formed fragment of the
      pattern occurs, a match starts. */
  lemma MatchAtComplete(s: string, i: nat, f: Fragment)
    requires f.WellFormed() && OccursAt(s, i, f)
    ensures MatchAt(s, i).Some?
  {
    FitsOfOccurrence(s, i, f);
    CutAtOfFits(s, i, CutOf(i, f));
  }

  /** Conversely, the greedy reading is the only one: a well-formed fragment
      found at `i` whose parts are all taken greedily is the match at `i`. */
  lemma MatchAtUnique(s: string, i: nat, f: Fragment)
    requires f.WellFormed() && OccursAt(s, i, f) && Greedy(s, i, f)
    ensures MatchAt(s, i) == Some(f)
  {
    FitsOfOccurrence(s, i, f);
    CutAtOfGreedy(s, i, CutOf(i, f));
    PartsAt(s, i, f);
  }

  /** A well-formed fragment found at `i` cuts `s` into parts of the right
      character classes. */
  lemma FitsOfOccurrence(s: string, i: nat, f: Fragment)
    requires f.WellFormed() && OccursAt(s, i, f)
    ensures CutFits(s, i, CutOf(i, f))
  {
    var c := CutOf(i, f);
    PartsAt(s, i, f);
    SliceChars(s, i, c.j, f.lead, IsRegexSpace);
    SliceChars(s, c.j, c.k, f.op, IsOpChar);
    SliceChars(s, c.k, c.m, f.gap, IsRegexSpace);
    SliceChars(s, c.m, c.e, f.intPart, IsDigit);
    SliceChars(s, c.e, c.f, f.sep, IsSeparator);
    SliceChars(s, c.f, c.g, f.fracPart, IsDigit);
  }

  predicate IsSeparator(c: char) {
    c == ',' || c == '.'
  }

  /** Every character of a part found in `s` keeps the part's class. */
  lemma SliceChars(s: string, a: nat, b: nat, part: string, inClass: char -> bool)
    requires a <= b <= |s| && s[a..b] == part && forall t :: 0 <= t < |part| ==> inClass(part[t])
    ensures forall u :: a <= u < b ==> inClass(s[u])
  {
    forall u | a <= u < b ensures inClass(s[u]) {
      assert s[a..b][u - a] == s[u];
    }
  }

  /** The scanner succeeds at `i` whenever some cut fits there: it agrees
      with that cut up to the first digit. */
  lemma CutAtOfFits(s: string, i: nat, c: Cut)
    requires CutFits(s, i, c)
    ensures CutAt(s, i) == Some(NumberCut(s, c.j, c.k, c.m))
  {
    assert IsOpChar(s[c.j]) && IsDigit(s[c.m]);
    OpRunEndPast(s, c.j, c.k - 1);
    CutAtFront(s, i, c.j, c.k, c.m);
  }

  /** ... and returns that very cut when it is greedy. */
  lemma CutAtOfGreedy(s: string, i: nat, c: Cut)
    requires CutFits(s, i, c) && CutGreedy(s, i, c)
    ensures CutAt(s, i) == Some(c)
  {
    CutAtOfFits(s, i, c);
    DigitRunEndAt(s, c.m, c.e);
    DigitRunEndAt(s, c.f, c.g);
  }

  /** A digit run that reaches `t`, where the digits stop, ends at `t`. */
  lemma {:induction false} DigitRunEndAt(s: string, j: nat, t: nat)
    requires j <= t <= |s| && (forall u :: j <= u < t ==> IsDigit(s[u]))
    requires t == |s| || !IsDigit(s[t])
    ensures DigitRunEnd(s, j) == t
    decreases t - j
  {
    if j < t {
      DigitRunEndAt(s, j + 1, t);
    }
  }

  lemma SlicedWellFormed(s: string, i: nat, c: Cut)
    requires CutFits(s, i, c)
    ensures Sliced(s, i, c).WellFormed()
  {
    SliceBlank(s, i, c.j);
    SliceOps(s, c.j, c.k);
    SliceBlank(s, c.k, c.m);
    SliceDigits(s, c.m, c.e);
    SliceSeparator(s, c.e, c.f);
    SliceDigits(s, c.f, c.g);
  }

  lemma SliceBlank(s: string, a: nat, b: nat)
    requires a <= b <= |s| && b <= a + 1 && (b == a + 1 ==> IsRegexSpace(s[a]))
    ensures |s[a..b]| <= 1 && forall t :: 0 <= t < |s[a..b]| ==> IsRegexSpace(s[a..b][t])
  {
  }

  lemma SliceOps(s: string, a: nat, b: nat)
    requires a < b <= |s| && forall t :: a <= t < b ==> IsOpChar(s[t])
    ensures |s[a..b]| >= 1 && forall t :: 0 <= t < |s[a..b]| ==> IsOpChar(s[a..b][t])
  {
    forall t | 0 <= t < b - a ensures IsOpChar(s[a..b][t]) {
      assert s[a..b][t] == s[a + t];
    }
  }

  lemma SliceSeparator(s: string, a: nat, b: nat)
    requires a <= b <= |s| && b <= a + 1 && (b == a + 1 ==> s[a] == ',' || s[a] == '.')
    ensures s[a..b] == "" || s[a..b] == "," || s[a..b] == "."
  {
    if b == a + 1 {
      assert s[a..b] == [s[a]];
    }
  }

  lemma SliceDigits(s: string, a: nat, b: nat)
    requires a <= b <= |s| && forall t :: a <= t < b ==> IsDigit(s[t])
    ensures AllDigits(s[a..b])
  {
    forall t | 0 <= t < b - a ensures IsDigit(s[a..b][t]) {
      assert s[a..b][t] == s[a + t];
    }
  }

  lemma SlicesGlue(s: string, i: nat, j: nat, k: nat, m: nat, e: nat, f: nat, g: nat)
    requires i <= j <= k <= m <= e <= f <= g <= |s|
    ensures s[i..g] == s[i..j] + s[j..k] + s[k..m] + s[m..e] + s[e..f] + s[f..g]
  {
    SliceSplit(s, i, j, k);
    SliceSplit(s, i, k, m);
    SliceSplit(s, i, m, e);
    SliceSplit(s, i, e, f);
    SliceSplit(s, i, f, g);
  }

  lemma SliceSplit(s: string, a: nat, b: nat, c: nat)
    requires a <= b <= c <= |s|
    ensures s[a..c] == s[a..b] + s[b..c]
  {
  }

  /** `pattern.findall(condition)[0]`: the leftmost match at or after `i`. */
  function FirstFragment(s: string, i: nat): (r: Option<Fragment>)
    requires i <= |s|
    ensures r.Some? ==> r.value.WellFormed() && Contains(s, r.value.Text())
    ensures r.Some? ==> exists p: nat :: LeftmostAt(s, i, p, r.value)
    ensures r.None? <==> NoMatchFrom(s, i)
    decreases |s| - i
  {
    match MatchAt(s, i)
    case Some(frag) =>
      ContainsAt(s, frag.Text(), i);
      assert LeftmostAt(s, i, i, frag);
      Some(frag)
    case None =>
      if i == |s| then None
      else
        NoMatchFromStep(s, i);
        var r := FirstFragment(s, i + 1);
        LeftmostStep(s, i, r);
        r
  }

  /** `f` is the match at `p`, and no match starts between `i` and `p`. */
  predicate LeftmostAt(s: string, i: nat, p: nat, f: Fragment) {
    i <= p <= |s| && MatchAt(s, p) == Some(f) && forall q :: i <= q < p ==> MatchAt(s, q).None?
  }

  lemma LeftmostStep(s: string, i: nat, r: Option<Fragment>)
    requires i < |s| && MatchAt(s, i).None?
    requires r.Some? ==> FoundFrom(s, i + 1, r.value)
    ensures r.Some? ==> FoundFrom(s, i, r.value)
  {
    if r.Some? {
      var p: nat :| LeftmostAt(s, i + 1, p, r.value);
      assert LeftmostAt(s, i, p, r.value);
    }
  }

  ghost predicate FoundFrom(s: string, i: nat, f: Fragment) {
    exists p: nat :: LeftmostAt(s, i, p, f)
  }

  /** The first match of the pattern, described without the scanner: a
      well-formed fragment found at `p` with every part taken greedily, and
      no well-formed fragment at all found at any earlier position. */
  ghost predicate FirstMatchAt(s: string, p: nat, f: Fragment) {
    && f.WellFormed() && OccursAt(s, p, f) && Greedy(s, p, f)
    && forall q: nat, g: Fragment :: q < p && g.WellFormed() ==> !OccursAt(s, q, g)
  }

  /** What the scan returns is the first match in that sense, and the first
      match in that sense is what the scan returns. */
  lemma FirstFragmentIsFirstMatch(s: string, f: Fragment)
    ensures FirstFragment(s, 0) == Some(f) <==> exists p: nat :: FirstMatchAt(s, p, f)
  {
    if FirstFragment(s, 0) == Some(f) {
      FirstMatchOfScan(s, f);
    }
    if p: nat :| FirstMatchAt(s, p, f) {
      MatchAtUnique(s, p, f);
      FirstAtOrBefore(s, p, f);
    }
  }

  lemma FirstMatchOfScan(s: string, f: Fragment)
    requires FirstFragment(s, 0) == Some(f)
    ensures exists p: nat :: FirstMatchAt(s, p, f)
  {
    var p: nat :| LeftmostAt(s, 0, p, f);
    forall q: nat, g: Fragment | q < p && g.WellFormed() ensures !OccursAt(s, q, g) {
      if OccursAt(s, q, g) {
        MatchAtComplete(s, q, g);
      }
    }
    assert FirstMatchAt(s, p, f);
  }

  lemma FirstAtOrBefore(s: string, p: nat, f: Fragment)
    requires FirstMatchAt(s, p, f) && MatchAt(s, p) == Some(f)
    ensures FirstFragment(s, 0) == Some(f)
  {
    var first := FirstFragment(s, 0);
    assert p <= |s|;
    assert !NoMatchFrom(s, 0);
    var p': nat :| LeftmostAt(s, 0, p', first.value);
  }

  /** No match of the pattern starts at `i` or later. */
  predicate NoMatchFrom(s: string, i: nat)
    requires i <= |s|
  {
    forall t :: i <= t <= |s| ==> MatchAt(s, t).None?
  }

  lemma NoMatchFromStep(s: string, i: nat)
    requires i < |s| && MatchAt(s, i).None?
    ensures NoMatchFrom(s, i) <==> NoMatchFrom(s, i + 1)
  {
  }

  /** Where a match can begin: an operator character followed directly, or
      after one blank, by a digit. */
  predicate OperatorBeforeNumber(s: string, t: nat) {
    t < |s| && IsOpChar(s[t]) &&
    ((t + 1 < |s| && IsDigit(s[t + 1])) ||
     (t + 2 < |s| && IsRegexSpace(s[t + 1]) && IsDigit(s[t + 2])))
  }

  /** Start of the operator run that contains position `t`. */
  function OpRunStart(s: string, t: nat): (j: nat)
    requires t < |s| && IsOpChar(s[t])
    ensures j <= t && IsOpChar(s[j]) && (j == 0 || !IsOpChar(s[j - 1]))
    ensures forall u :: j <= u <= t ==> IsOpChar(s[u])
  {
    if t > 0 && IsOpChar(s[t - 1]) then OpRunStart(s, t - 1) else t
  }

  /** An operator character followed by a number makes the scan succeed. */
  lemma FragmentFromOperator(s: string, t: nat)
    requires OperatorBeforeNumber(s, t)
    ensures FirstFragment(s, 0).Some?
  {
    var j := OpRunStart(s, t);
    OpRunEndPast(s, j, t);
    if j > 0 {
      assert !IsRegexSpace(s[j]);
    }
    assert MatchAt(s, j).Some?;
  }

  /** A successful scan starts at an operator character followed by a number. */
  lemma OperatorFromFragment(s: string, t: nat)
    requires t <= |s| && MatchAt(s, t).Some?
    ensures exists u :: 0 <= u < |s| && OperatorBeforeNumber(s, u)
  {
    var c := CutAt(s, t).value;
    CutAtFitsGreedy(s, t);
    assert OperatorBeforeNumber(s, c.k - 1);
  }

  /** The condition text has an operator-and-number fragment exactly when some
      operator character is followed, directly or after one blank, by a digit. */
  lemma NoFragmentIff(s: string)
    ensures FirstFragment(s, 0).None? <==> forall t :: 0 <= t < |s| ==> !OperatorBeforeNumber(s, t)
  {
    if FirstFragment(s, 0).None? {
      forall t | 0 <= t < |s| ensures !OperatorBeforeNumber(s, t) {
        if OperatorBeforeNumber(s, t) {
          FragmentFromOperator(s, t);
        }
      }
    } else {
      var t :| 0 <= t <= |s| && MatchAt(s, t).Some?;
      OperatorFromFragment(s, t);
    }
  }

  /** An operator run that reaches `t` ends right after `t` when `s[t + 1]` is
      not an operator character. */
  lemma {:induction false} OpRunEndPast(s: string, j: nat, t: nat)
    requires j <= t < |s| && (forall u :: j <= u <= t ==> IsOpChar(s[u]))
    requires t + 1 == |s| || !IsOpChar(s[t + 1])
    ensures OpRunEnd(s, j) == t + 1
    decreases t - j
  {
    if j < t {
      OpRunEndPast(s, j + 1, t);
    }
  }

  /** The five comparisons Python evaluates for these fragments. */
  datatype Comparison = Gt | Ge | Lt | Le | Eq {
    function Holds(a: real, b: real): bool {
      match this
      case Gt => a > b
      case Ge => a >= b
      case Lt => a < b
      case Le => a <= b
      case Eq => a == b
    }
  }

  /** How Python's tokenizer reads an operator run between two numbers. */
  datatype Operator = Compare(c: Comparison) | ShiftLeft | ShiftRight | NotAnExpression

  function ParseOperator(op: string): Operator {
    if op == ">" then Compare(Gt)
    else if op == ">=" then Compare(Ge)
    else if op == "<" then Compare(Lt)
    else if op == "<=" then Compare(Le)
    else if op == "==" then Compare(Eq)
    else if op == "<<" then ShiftLeft
    else if op == ">>" then ShiftRight
    else NotAnExpression
  }

  function Pow10(n: nat): (r: nat)
    ensures r >= 1
  {
    if n == 0 then 1 else 10 * Pow10(n - 1)
  }

  function Pow2(n: nat): (r: nat)
    ensures r >= 1
  {
    if n == 0 then 1 else 2 * Pow2(n - 1)
  }

  /** Blanks `eval` accepts between tokens; a line break (or vertical tab)
      in the middle of an expression is a syntax error. */
  predicate IsEvalBlank(c: char) {
    c == ' ' || c == '\t' || c as int == 12
  }

  /** The threshold after comma removal is a float literal when the separator
      is a dot and an integer literal otherwise. */
  predicate IsFloatThreshold(f: Fragment) {
    f.sep == "."
  }

  /** Python 3 refuses integer literals with a leading zero (`0100`), except
      all-zero ones (`00`). */
  predicate IntLiteralAccepted(digits: string) {
    |digits| == 0 || digits[0] != '0' || forall c | c in digits :: c == '0'
  }

  /** The number literal `eval` reads after the comma is removed: the digits
      around a `.`, or the two digit runs run together. */
  function ThresholdLiteral(f: Fragment): string {
    f.intPart + (if IsFloatThreshold(f) then "." else "") + f.fracPart
  }

  /** `condition[0].replace(',', '')` is the fragment's blanks and operator
      followed by the literal `Threshold` and `ShiftCount` read: removing
      commas touches only the separator. */
  lemma StrippedIsEvalText(f: Fragment)
    requires f.WellFormed()
    ensures f.Stripped() == f.lead + f.op + f.gap + ThresholdLiteral(f)
    ensures ',' !in f.Stripped()
    ensures RemoveChar(f.Text(), ',') == f.lead + f.op + f.gap + ThresholdLiteral(f)
  {
    var front := f.lead + f.op + f.gap;
    var kept := if f.sep == "," then "" else f.sep;
    assert kept == (if IsFloatThreshold(f) then "." else "");
    calc {
      f.Stripped();
      front + f.intPart + kept + f.fracPart;
      { SeqAssoc3(front, f.intPart, kept, f.fracPart); }
      front + (f.intPart + kept + f.fracPart);
    }
  }

  lemma SeqAssoc3(a: string, b: string, c: string, d: string)
    ensures a + b + c + d == a + (b + c + d)
  {
  }

  /** The threshold's value, commas removed. */
  function Threshold(f: Fragment): real
    requires f.WellFormed()
  {
    if IsFloatThreshold(f) then
      DigitsValue(f.intPart) as real + DigitsValue(f.fracPart) as real / Pow10(|f.fracPart|) as real
    else
      assert AllDigits(f.intPart + f.fracPart);
      DigitsValue(f.intPart + f.fracPart) as real
  }

  /** What `eval` accepts as a fragment's text: only eval blanks around the
      operator, and a threshold that is a float literal or an integer literal
      Python 3 allows. */
  predicate EvalAccepts(f: Fragment) {
    (forall c | c in f.lead + f.gap :: IsEvalBlank(c))
    && (IsFloatThreshold(f) || IntLiteralAccepted(f.intPart + f.fracPart))
  }

  /** The shift count of an integer threshold, commas removed. */
  function ShiftCount(f: Fragment): nat
    requires f.WellFormed()
  {
    assert AllDigits(f.intPart + f.fracPart);
    DigitsValue(f.intPart + f.fracPart)
  }

  /** `eval(str(lab) + fragment.replace(',', ''))`, read as a typed comparison.
      Python's truth value of a shift result is "non-zero"; `a >> n` is
      `a // 2**n` (floor division) and `a << n` is `a * 2**n`. */
  function Evaluate(lab: Quantity, f: Fragment): (r: Result<bool>)
    requires f.WellFormed()
    ensures !EvalAccepts(f) || ParseOperator(f.op).NotAnExpression? ==> r == Err(EvalSyntaxError)
    ensures ParseOperator(f.op).Compare? ==>
              (r.Ok? <==> EvalAccepts(f))
              && (r.Ok? ==> r.value == ParseOperator(f.op).c.Holds(lab.Real(), Threshold(f)))
    ensures ParseOperator(f.op).ShiftLeft? || ParseOperator(f.op).ShiftRight? ==>
              (r.Ok? <==> EvalAccepts(f) && lab.IntValue? && !IsFloatThreshold(f))
              && (EvalAccepts(f) && !r.Ok? ==> r == Err(EvalTypeError))
    ensures r.Ok? && ParseOperator(f.op).ShiftLeft? ==> r.value == (lab.i * Pow2(ShiftCount(f)) != 0)
    ensures r.Ok? && ParseOperator(f.op).ShiftRight? ==> r.value == (lab.i / Pow2(ShiftCount(f)) != 0)
  {
    if !(forall c | c in f.lead + f.gap :: IsEvalBlank(c)) then Err(EvalSyntaxError)
    else if !IsFloatThreshold(f) && !IntLiteralAccepted(f.intPart + f.fracPart) then Err(EvalSyntaxError)
    else
      match ParseOperator(f.op)
      case NotAnExpression => Err(EvalSyntaxError)
      case Compare(c) => Ok(c.Holds(lab.Real(), Threshold(f)))
      case ShiftLeft =>
        if lab.FloatValue? || IsFloatThreshold(f) then Err(EvalTypeError)
        else
          ShiftLeftNonZero(lab.i, ShiftCount(f));
          Ok(lab.i != 0)
      case ShiftRight =>
        if lab.FloatValue? || IsFloatThreshold(f) then Err(EvalTypeError)
        else
          ShiftRightNonZero(lab.i, ShiftCount(f));
          Ok(lab.i < 0 || lab.i >= Pow2(ShiftCount(f)))
  }

  /** `a << n` is non-zero exactly when `a` is. */
  lemma ShiftLeftNonZero(a: int, n: nat)
    ensures (a * Pow2(n) != 0) == (a != 0)
  {
    ProductNonZero(a, Pow2(n));
  }

  lemma ProductNonZero(a: int, p: int)
    requires p >= 1
    ensures (a * p != 0) == (a != 0)
  {
    if a > 0 {
      ProductAtLeast(a, p);
    } else if a < 0 {
      ProductAtLeast(-a, p);
      assert a * p == -((-a) * p);
    }
  }

  lemma {:induction false} ProductAtLeast(a: nat, p: int)
    requires a >= 1 && p >= 1
    ensures a * p >= p
  {
    if a > 1 {
      ProductAtLeast(a - 1, p);
      assert a * p == (a - 1) * p + p;
    }
  }

  /** `a >> n` (floor division by `2**n`) is non-zero exactly when `a` is
      negative or at least `2**n`. */
  lemma ShiftRightNonZero(a: int, n: nat)
    ensures (a / Pow2(n) != 0) == (a < 0 || a >= Pow2(n))
  {
    QuotientNonZero(a, Pow2(n));
  }

  lemma QuotientNonZero(a: int, p: int)
    requires p >= 1
    ensures (a / p != 0) == (a < 0 || a >= p)
  {
    var q := a / p;
    var m := a % p;
    assert a == q * p + m && 0 <= m < p;
    if q == 0 {
      assert a == m;
    } else {
      if q > 0 {
        ProductAtLeast(q, p);
      } else {
        ProductAtLeast(-q, p);
        assert q * p == -((-q) * p);
      }
    }
  }

  /** Result of `convert_expressions(lab_value, condition)`: either the
      sentinel `("0", "")` for a condition without an operator-and-number
      fragment, or the lab's number beside the comma-free fragment. */
  datatype Converted = NoFragment | Converted(lab: Quantity, fragment: Fragment)

  function ConvertExpressions(lab: LabValue, condition: string): (r: Converted)
    ensures r.NoFragment? <==> forall t :: 0 <= t < |condition| ==> !OperatorBeforeNumber(condition, t)
    ensures r.Converted? ==> r.lab == lab.quantity && r.fragment.WellFormed()
                             && Contains(condition, r.fragment.Text())
    ensures r.Converted? ==> exists p: nat :: FirstMatchAt(condition, p, r.fragment)
    ensures r.Converted? ==> RemoveChar(r.fragment.Text(), ',') == r.fragment.lead + r.fragment.op + r.fragment.gap + ThresholdLiteral(r.fragment)
  {
    NoFragmentIff(condition);
    match FirstFragment(condition, 0)
    case None => NoFragment
    case Some(f) =>
      FirstFragmentIsFirstMatch(condition, f);
      StrippedIsEvalText(f);
      Converted(lab.quantity, f)
  }

  /** A thousands separator: the whole number is taken, the comma is
      removed, and the threshold is one hundred thousand. */
  lemma ThousandsSeparatorExample(s: string, f: Fragment)
    requires s == "ANC >= 100,000" && f == Fragment(" ", ">=", " ", "100", ",", "000")
    ensures ConvertExpressions(LabValue(IntValue(150000), "/uL"), s) == Converted(IntValue(150000), f)
    ensures Threshold(f) == 100000.0
    ensures Evaluate(IntValue(150000), f) == Ok(true)
  {
    ThousandsScan(s, f);
    ThousandsThreshold(f);
    ThousandsAccepted(f);
    assert ParseOperator(f.op) == Compare(Ge);
    ComparisonOutcome(IntValue(150000), f);
  }

  /** An accepted comparison evaluates to the comparison of the two numbers. */
  lemma ComparisonOutcome(lab: Quantity, f: Fragment)
    requires f.WellFormed() && EvalAccepts(f) && ParseOperator(f.op).Compare?
    ensures Evaluate(lab, f) == Ok(ParseOperator(f.op).c.Holds(lab.Real(), Threshold(f)))
  {
  }

  lemma ThousandsAccepted(f: Fragment)
    requires f == Fragment(" ", ">=", " ", "100", ",", "000")
    ensures EvalAccepts(f)
  {
    assert (f.intPart + f.fracPart)[0] == '1';
    assert forall c | c in f.lead + f.gap :: c == ' ';
  }

  lemma ThousandsThreshold(f: Fragment)
    requires f == Fragment(" ", ">=", " ", "100", ",", "000")
    ensures Threshold(f) == 100000.0
  {
    assert f.intPart + f.fracPart == "100000";
    assert DigitsValue("1") == 1;
    assert "10"[..1] == "1" && "100"[..2] == "10" && "1000"[..3] == "100";
    assert "10000"[..4] == "1000" && "100000"[..5] == "10000";
  }

  lemma ThousandsScan(s: string, f: Fragment)
    requires s == "ANC >= 100,000" && f == Fragment(" ", ">=", " ", "100", ",", "000")
    ensures FirstFragment(s, 0) == Some(f)
  {
    NoOperatorAt(s, 0);
    NoOperatorAt(s, 1);
    NoOperatorAt(s, 2);
    ThousandsMatch(s, f);
    FirstFragmentHere(s, 3);
    FirstFragmentSkip(s, 2);
    FirstFragmentSkip(s, 1);
    FirstFragmentSkip(s, 0);
  }

  lemma ThousandsMatch(s: string, f: Fragment)
    requires s == "ANC >= 100,000" && f == Fragment(" ", ">=", " ", "100", ",", "000")
    ensures MatchAt(s, 3) == Some(f)
  {
    assert f.Text() == s[3..3 + |f.Text()|];
    MatchAtUnique(s, 3, f);
  }

  lemma FirstFragmentHere(s: string, i: nat)
    requires i <= |s| && MatchAt(s, i).Some?
    ensures FirstFragment(s, i) == MatchAt(s, i)
  {
  }

  lemma FirstFragmentSkip(s: string, i: nat)
    requires i < |s| && MatchAt(s, i).None?
    ensures FirstFragment(s, i) == FirstFragment(s, i + 1)
  {
  }

  /** No match starts where neither the character nor the one after it is
      an operator character. */
  lemma NoOperatorAt(s: string, i: nat)
    requires i + 1 < |s| && !IsOpChar(s[i]) && !IsOpChar(s[i + 1])
    ensures MatchAt(s, i).None?
  {
  }

  /** Of two comparisons, the first one written is the one evaluated. */
  lemma FirstComparisonExample(s: string, f: Fragment)
    requires s == "<= 5 or >= 7" && f == Fragment("", "<=", " ", "5", "", "")
    ensures ConvertExpressions(LabValue(IntValue(6), "g/dL"), s) == Converted(IntValue(6), f)
  {
    assert f.Text() == s[..4];
    MatchAtUnique(s, 0, f);
    FirstFragmentHere(s, 0);
  }
}
