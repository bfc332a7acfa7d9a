/** The patient's latest lab values (`get_lab_observations_by_patient`,
    patient.py): walk the FHIR `Observation` bundle pages, keep for each of
    three LOINC codes the reading with the latest `effectiveDateTime`, and
    report the values keyed by cell type.

    Fetching a page is a function parameter; the walk follows at most `fuel`
    pages. */
module Observations {
  import opened Wrappers
  import opened Text
  import opened PyDict
  import opened Expressions

  /** `LOINC_CODES`: the three lab tests the filter knows, and their cell type. */
  const Loinc: seq<(string, string)> := [("718-7", "hemoglobin"), ("6690-2", "leukocytes"), ("777-3", "platelets")]

  function CellTypeOf(code: string): Option<string> {
    if code == "718-7" then Some("hemoglobin")
    else if code == "6690-2" then Some("leukocytes")
    else if code == "777-3" then Some("platelets")
    else None
  }

  lemma CellTypeOfIsLoinc(code: string)
    ensures CellTypeOf(code).Some? <==> exists i :: 0 <= i < |Loinc| && Loinc[i].0 == code
    ensures forall i :: 0 <= i < |Loinc| && Loinc[i].0 == code ==> CellTypeOf(code) == Some(Loinc[i].1)
  {
    if CellTypeOf(code).Some? {
      var i := if code == "718-7" then 0 else if code == "6690-2" then 1 else 2;
      assert Loinc[i].0 == code;
    }
  }

  /** One `coding` entry; `code` is absent when the key is missing. */
  datatype Coding = Coding(code: Option<string>)

  /** `valueQuantity`, each key possibly missing. */
  datatype ValueQuantity = ValueQuantity(value: Option<Quantity>, unit: Option<string>)

  /** An entry's `resource`; `coding` is `None` when `code` or `code.coding` is missing. */
  datatype Resource = Resource(coding: Option<seq<Coding>>, valueQuantity: Option<ValueQuantity>,
                               effectiveDateTime: Option<string>)

  /** A `link` element: `relation` and `url`, each possibly missing. */
  datatype Link = Link(relation: Option<string>, url: Option<string>)

  /** One response: `entry` and `link`, each possibly missing. */
  datatype Page = Page(entry: Option<seq<Resource>>, link: Option<seq<Link>>)

  /** A complete observation: its code, when it was taken, and its value. */
  datatype Reading = Reading(code: string, effective: string, value: LabValue)

  /** What `lab_results[code]` holds. */
  datatype Stored = Stored(effective: string, value: LabValue)

  /** The `try` block for one entry: a missing key skips the entry (`None`);
      an empty `coding` list raises `IndexError`, which is not caught. */
  function ReadEntry(res: Resource): (r: Result<Option<Reading>>)
    ensures r.Err? <==> res.coding == Some([])
    ensures r == Ok(None) <==>
              || res.coding.None?
              || (|res.coding.value| > 0 &&
                  (res.coding.value[0].code.None? || res.valueQuantity.None? || res.valueQuantity.value.value.None?
                   || res.valueQuantity.value.unit.None? || res.effectiveDateTime.None?))
    ensures r.Ok? && r.value.Some? ==>
              var rd := r.value.value;
              && res.coding.Some? && |res.coding.value| > 0
              && res.coding.value[0].code == Some(rd.code)
              && res.effectiveDateTime == Some(rd.effective)
              && res.valueQuantity == Some(ValueQuantity(Some(rd.value.quantity), Some(rd.value.unit)))
  {
    match res.coding
    case None => Ok(None)
    case Some(codings) =>
      if |codings| == 0 then Err(IndexErrorEmpty)
      else
        match codings[0].code
        case None => Ok(None)
        case Some(code) =>
          match res.valueQuantity
          case None => Ok(None)
          case Some(vq) =>
            if vq.value.None? || vq.unit.None? || res.effectiveDateTime.None? then Ok(None)
            else Ok(Some(Reading(code, res.effectiveDateTime.value, LabValue(vq.value.value, vq.unit.value))))
  }

  /** "Store the latest observation result": a reading of a known code is
      stored when its code has nothing yet or its date sorts after the stored one. */
  function Record(labs: Dict<Stored>, rd: Reading): (r: Dict<Stored>)
    ensures KeySet(r) == KeySet(labs) + (if CellTypeOf(rd.code).Some? then {rd.code} else {})
    ensures DistinctKeys(labs) ==> DistinctKeys(r)
    ensures forall k :: k != rd.code ==> Get(r, k) == Get(labs, k)
    ensures Get(r, rd.code) == if Replaces(Get(labs, rd.code), rd) then Some(Stored(rd.effective, rd.value)) else Get(labs, rd.code)
  {
    if Replaces(Get(labs, rd.code), rd) then Put(labs, rd.code, Stored(rd.effective, rd.value)) else labs
  }

  predicate Replaces(current: Option<Stored>, rd: Reading) {
    CellTypeOf(rd.code).Some? && (current.None? || StrLess(current.value.effective, rd.effective))
  }

  /** The loop over one page's entries. */
  function ScanEntries(labs: Dict<Stored>, entries: seq<Resource>): (r: Result<Dict<Stored>>)
    ensures r.Err? <==> exists i :: 0 <= i < |entries| && entries[i].coding == Some([])
    ensures r.Ok? ==> KeySet(labs) <= KeySet(r.value)
    ensures r.Ok? && DistinctKeys(labs) ==> DistinctKeys(r.value)
    ensures r.Ok? ==> forall k :: k in KeySet(r.value) - KeySet(labs) ==> CellTypeOf(k).Some?
    decreases |entries|
  {
    if |entries| == 0 then Ok(labs)
    else
      match ReadEntry(entries[0])
      case Err(f) => Err(f)
      case Ok(reading) =>
        var next := if reading.Some? then Record(labs, reading.value) else labs;
        var r := ScanEntries(next, entries[1..]);
        assert forall i :: 0 < i < |entries| ==> entries[1..][i - 1] == entries[i];
        r
  }

  /** The readings of a page's entries, in order, or the error the first bad
      entry raises (a reference for `ScanEntries`). */
  function Readings(entries: seq<Resource>): (r: Result<seq<Reading>>)
    ensures r.Err? <==> exists i :: 0 <= i < |entries| && entries[i].coding == Some([])
  {
    if |entries| == 0 then Ok([])
    else
      match ReadEntry(entries[0])
      case Err(f) => Err(f)
      case Ok(reading) =>
        assert forall i :: 0 < i < |entries| ==> entries[1..][i - 1] == entries[i];
        match Readings(entries[1..])
        case Err(f) => Err(f)
        case Ok(rest) => Ok((if reading.Some? then [reading.value] else []) + rest)
  }

  function RecordAll(labs: Dict<Stored>, rds: seq<Reading>): Dict<Stored>
    decreases |rds|
  {
    if |rds| == 0 then labs else RecordAll(Record(labs, rds[0]), rds[1..])
  }

  lemma {:induction false} RecordAllAppend(labs: Dict<Stored>, a: seq<Reading>, b: seq<Reading>)
    ensures RecordAll(labs, a + b) == RecordAll(RecordAll(labs, a), b)
    decreases |a|
  {
    if |a| == 0 {
      assert a + b == b;
    } else {
      assert (a + b)[1..] == a[1..] + b;
      RecordAllAppend(Record(labs, a[0]), a[1..], b);
    }
  }

  /** Scanning a page is reading every entry and then recording the complete
      readings in order. */
  lemma {:induction false} ScanIsRecordReadings(labs: Dict<Stored>, entries: seq<Resource>)
    ensures ScanEntries(labs, entries).Ok? <==> Readings(entries).Ok?
    ensures ScanEntries(labs, entries).Ok? ==> ScanEntries(labs, entries).value == RecordAll(labs, Readings(entries).value)
    decreases |entries|
  {
    if |entries| > 0 {
      match ReadEntry(entries[0])
      case Err(_) =>
      case Ok(reading) =>
        var next := if reading.Some? then Record(labs, reading.value) else labs;
        ScanIsRecordReadings(next, entries[1..]);
        if reading.Some? && Readings(entries[1..]).Ok? {
          var rest := Readings(entries[1..]).value;
          assert ([reading.value] + rest)[1..] == rest;
        }
        if reading.None? && Readings(entries[1..]).Ok? {
          assert [] + Readings(entries[1..]).value == Readings(entries[1..]).value;
        }
    }
  }

  /** A code no reading carries keeps what it had. */
  lemma {:induction false} RecordAllUntouched(labs: Dict<Stored>, rds: seq<Reading>, k: string)
    requires forall j :: 0 <= j < |rds| ==> rds[j].code != k
    ensures Get(RecordAll(labs, rds), k) == Get(labs, k)
    decreases |rds|
  {
    if |rds| > 0 {
      RecordAllUntouched(Record(labs, rds[0]), rds[1..], k);
    }
  }

  /** The latest reading wins, and among readings with the same latest date
      the first: reading `i` is kept when every earlier reading of its code
      (and what was stored before) is strictly older and no later one is
      strictly newer. */
  lemma {:induction false} LatestReadingWins(labs: Dict<Stored>, rds: seq<Reading>, i: nat)
    requires i < |rds| && CellTypeOf(rds[i].code).Some?
    requires Get(labs, rds[i].code).None? || StrLess(Get(labs, rds[i].code).value.effective, rds[i].effective)
    requires forall j :: 0 <= j < i && rds[j].code == rds[i].code ==> StrLess(rds[j].effective, rds[i].effective)
    requires forall j :: i < j < |rds| && rds[j].code == rds[i].code ==> !StrLess(rds[i].effective, rds[j].effective)
    ensures Get(RecordAll(labs, rds), rds[i].code) == Some(Stored(rds[i].effective, rds[i].value))
    decreases |rds|
  {
    var k := rds[i].code;
    if i == 0 {
      FirstReadingWins(labs, rds);
    } else {
      var after := Record(labs, rds[0]);
      RecordStaysOlder(labs, rds[0], rds[i]);
      assert forall j :: 0 <= j < |rds| - 1 ==> rds[1..][j] == rds[j + 1];
      LatestReadingWins(after, rds[1..], i - 1);
    }
  }

  lemma FirstReadingWins(labs: Dict<Stored>, rds: seq<Reading>)
    requires |rds| > 0 && CellTypeOf(rds[0].code).Some?
    requires Get(labs, rds[0].code).None? || StrLess(Get(labs, rds[0].code).value.effective, rds[0].effective)
    requires forall j :: 0 < j < |rds| && rds[j].code == rds[0].code ==> !StrLess(rds[0].effective, rds[j].effective)
    ensures Get(RecordAll(labs, rds), rds[0].code) == Some(Stored(rds[0].effective, rds[0].value))
  {
    var after := Record(labs, rds[0]);
    assert forall j :: 0 <= j < |rds| - 1 ==> rds[1..][j] == rds[j + 1];
    KeepsLatest(after, rds[1..], rds[0].code, Stored(rds[0].effective, rds[0].value));
  }

  /** Recording a reading strictly older than `later` leaves the stored date
      of `later`'s code strictly older than `later` (or still absent). */
  lemma RecordStaysOlder(labs: Dict<Stored>, rd: Reading, later: Reading)
    requires Get(labs, later.code).None? || StrLess(Get(labs, later.code).value.effective, later.effective)
    requires rd.code == later.code ==> StrLess(rd.effective, later.effective)
    ensures var after := Get(Record(labs, rd), later.code);
      after.None? || StrLess(after.value.effective, later.effective)
  {
  }

  /** A stored reading survives later readings of its code that are not strictly newer. */
  lemma {:induction false} KeepsLatest(labs: Dict<Stored>, rds: seq<Reading>, k: string, s: Stored)
    requires Get(labs, k) == Some(s)
    requires forall j :: 0 <= j < |rds| && rds[j].code == k ==> !StrLess(s.effective, rds[j].effective)
    ensures Get(RecordAll(labs, rds), k) == Some(s)
    decreases |rds|
  {
    if |rds| > 0 {
      KeepsLatest(Record(labs, rds[0]), rds[1..], k, s);
    }
  }

  /** A stored date is only ever replaced by a strictly later one. */
  lemma {:induction false} RecordAllNeverOlder(labs: Dict<Stored>, rds: seq<Reading>, k: string)
    requires Get(labs, k).Some?
    ensures Get(RecordAll(labs, rds), k).Some?
    ensures var before, after := Get(labs, k).value.effective, Get(RecordAll(labs, rds), k).value.effective;
      before == after || StrLess(before, after)
    decreases |rds|
  {
    if |rds| > 0 {
      var next := Record(labs, rds[0]);
      RecordAllNeverOlder(next, rds[1..], k);
      var mid := Get(next, k).value.effective;
      var last := Get(RecordAll(next, rds[1..]), k).value.effective;
      if StrLess(Get(labs, k).value.effective, mid) && StrLess(mid, last) {
        StrLessTransitive(Get(labs, k).value.effective, mid, last);
      }
    }
  }

  /** No link of the page is a `next` link. */
  predicate NoNextLink(links: seq<Link>) {
    forall i :: 0 <= i < |links| ==> links[i].relation != Some("next")
  }

  /** `url` is the target of the last `next` link of the page. */
  predicate LastNextLink(links: seq<Link>, url: string) {
    exists i :: 0 <= i < |links| && links[i].relation == Some("next") && links[i].url == Some(url) &&
      forall j :: i < j < |links| ==> links[j].relation != Some("next")
  }

  /** A link the loop raises `KeyError` on: it has no `relation`, or it is
      a `next` link without `url`. */
  predicate BrokenLink(l: Link) {
    l.relation.None? || (l.relation == Some("next") && l.url.None?)
  }

  /** The `for link in observations['link']` loop, from the `current` it
      has reached: each `next` link overwrites it. */
  function FollowLinks(links: seq<Link>, current: Option<string>): Result<Option<string>> {
    if |links| == 0 then Ok(current)
    else
      match links[0].relation
      case None => Err(KeyErrorField)
      case Some(rel) =>
        if rel != "next" then FollowLinks(links[1..], current)
        else
          match links[0].url
          case None => Err(KeyErrorField)
          case Some(u) => FollowLinks(links[1..], Some(u))
  }

  /** The loop raises exactly at a broken link. Otherwise it ends with the
      last `next` link's target, or with `current` when there is none. */
  lemma {:induction false} FollowLinksResult(links: seq<Link>, current: Option<string>)
    ensures var r := FollowLinks(links, current);
      && (r.Err? <==> exists i :: 0 <= i < |links| && BrokenLink(links[i]))
      && (r.Err? ==> r == Err(KeyErrorField))
      && (r.Ok? && NoNextLink(links) ==> r.value == current)
      && (r.Ok? && !NoNextLink(links) ==> r.value.Some? && LastNextLink(links, r.value.value))
  {
    if |links| > 0 {
      var tail := links[1..];
      assert forall i :: 1 <= i < |links| ==> links[i] == tail[i - 1];
      assert forall i :: 0 <= i < |tail| ==> tail[i] == links[i + 1];
      if links[0].relation.Some? && !BrokenLink(links[0]) {
        var next := if links[0].relation == Some("next") then links[0].url else current;
        FollowLinksResult(tail, next);
        var r := FollowLinks(tail, next);
        if r.Ok? && !NoNextLink(links) && !NoNextLink(tail) {
          var i :| 0 <= i < |tail| && tail[i].relation == Some("next") && tail[i].url == Some(r.value.value) &&
            forall j :: i < j < |tail| ==> tail[j].relation != Some("next");
          assert links[i + 1] == tail[i];
        } else if r.Ok? && !NoNextLink(links) {
          assert links[0].relation == Some("next");
        }
      }
    }
  }

  /** The link loop of one page, starting from `current_url = None`. */
  function NextUrl(links: seq<Link>): (r: Result<Option<string>>)
    ensures r.Err? <==> exists i :: 0 <= i < |links| && BrokenLink(links[i])
    ensures r.Err? ==> r == Err(KeyErrorField)
    ensures r.Ok? ==> (r.value.None? <==> NoNextLink(links))
    ensures r.Ok? && r.value.Some? ==> LastNextLink(links, r.value.value)
  {
    FollowLinksResult(links, None);
    FollowLinks(links, None)
  }

  /** One round of the `while` loop: scan the page, then follow its links. */
  function ScanPage(labs: Dict<Stored>, page: Page): (r: Result<(Dict<Stored>, Option<string>)>)
    ensures page.entry.None? ==> r == Err(TypeErrorNone)
    ensures page.entry.Some? && Readings(page.entry.value).Ok? && page.link.None? ==> r == Err(KeyErrorField)
    ensures page.entry.Some? && Readings(page.entry.value).Ok? && page.link.Some? && NextUrl(page.link.value).Err? ==>
              r == Err(KeyErrorField)
    ensures r.Ok? ==> page.entry.Some? && page.link.Some? && Readings(page.entry.value).Ok? &&
                      r.value.0 == RecordAll(labs, Readings(page.entry.value).value) &&
                      NextUrl(page.link.value) == Ok(r.value.1)
    ensures r.Ok? && LoincFiled(labs) ==> LoincFiled(r.value.0) && KeySet(labs) <= KeySet(r.value.0)
  {
    match page.entry
    case None => Err(TypeErrorNone)
    case Some(entries) =>
      ScanIsRecordReadings(labs, entries);
      match ScanEntries(labs, entries)
      case Err(f) => Err(f)
      case Ok(next) =>
        match page.link
        case None => Err(KeyErrorField)
        case Some(links) =>
          match NextUrl(links)
          case Err(f) => Err(f)
          case Ok(url) => Ok((next, url))
  }

  /** What `lab_results` can hold: each key once, every key a known LOINC code. */
  predicate LoincFiled(labs: Dict<Stored>) {
    DistinctKeys(labs) && forall k :: k in KeySet(labs) ==> CellTypeOf(k).Some?
  }

  /** The `while len(lab_results) != 3 and current_url is not None` loop. */
  function Crawl(labs: Dict<Stored>, url: Option<string>, fetch: string -> Page, fuel: nat): (r: Result<Dict<Stored>>)
    requires LoincFiled(labs)
    ensures r.Ok? ==> LoincFiled(r.value) && KeySet(labs) <= KeySet(r.value)
    decreases fuel
  {
    if |labs| == 3 || url.None? || fuel == 0 then Ok(labs)
    else
      match ScanPage(labs, fetch(url.value))
      case Err(f) => Err(f)
      case Ok(step) => Crawl(step.0, step.1, fetch, fuel - 1)
  }

  /** Across pages, too, a stored reading is only ever replaced by a
      strictly later one. */
  lemma {:induction false} CrawlNeverOlder(labs: Dict<Stored>, url: Option<string>, fetch: string -> Page, fuel: nat, k: string)
    requires LoincFiled(labs) && Get(labs, k).Some?
    ensures Crawl(labs, url, fetch, fuel).Ok? ==> KeptNotOlder(labs, Crawl(labs, url, fetch, fuel).value, k)
    decreases fuel
  {
    if !(|labs| == 3 || url.None? || fuel == 0) {
      var page := fetch(url.value);
      match ScanPage(labs, page)
      case Err(_) =>
      case Ok(step) =>
        assert KeptNotOlder(labs, step.0, k) by {
          RecordAllNeverOlder(labs, Readings(page.entry.value).value, k);
        }
        CrawlNeverOlder(step.0, step.1, fetch, fuel - 1, k);
        var r := Crawl(step.0, step.1, fetch, fuel - 1);
        if r.Ok? {
          KeptNotOlderTransitive(labs, step.0, r.value, k);
        }
    }
  }

  /** The reading stored under `k` is still there, and no older than before. */
  predicate KeptNotOlder(before: Dict<Stored>, after: Dict<Stored>, k: string)
    requires Get(before, k).Some?
  {
    Get(after, k).Some? &&
    var b, a := Get(before, k).value.effective, Get(after, k).value.effective;
    b == a || StrLess(b, a)
  }

  lemma KeptNotOlderTransitive(x: Dict<Stored>, y: Dict<Stored>, z: Dict<Stored>, k: string)
    requires Get(x, k).Some? && KeptNotOlder(x, y, k) && KeptNotOlder(y, z, k)
    ensures KeptNotOlder(x, z, k)
  {
    var a, b, c := Get(x, k).value.effective, Get(y, k).value.effective, Get(z, k).value.effective;
    if StrLess(a, b) && StrLess(b, c) {
      StrLessTransitive(a, b, c);
    }
  }

  /** At most three codes are ever stored, so the loop's `!= 3` test is its
      "all found" test. */
  lemma LoincKeysAtMostThree(labs: Dict<Stored>)
    requires LoincFiled(labs)
    ensures |labs| <= 3
    ensures |labs| == 3 <==> KeySet(labs) == {"718-7", "6690-2", "777-3"}
  {
    var keys := KeySet(labs);
    assert keys <= {"718-7", "6690-2", "777-3"};
    DistinctKeySetSize(labs);
    assert |{"718-7", "6690-2", "777-3"}| == 3;
    SubsetSize(keys, {"718-7", "6690-2", "777-3"});
  }

  lemma {:induction false} DistinctKeySetSize<V>(d: Dict<V>)
    requires DistinctKeys(d)
    ensures |KeySet(d)| == |d|
    decreases |d|
  {
    if |d| > 0 {
      KeySetCons(d);
      DistinctKeySetSize(d[1..]);
      assert d[0].0 !in KeySet(d[1..]);
    }
  }

  lemma {:induction false} SubsetSize(a: set<string>, b: set<string>)
    requires a <= b
    ensures |a| <= |b|
    ensures |a| == |b| ==> a == b
    decreases |b|
  {
    if b != {} {
      var y :| y in b;
      assert |b - {y}| == |b| - 1;
      SubsetSize(a - {y}, b - {y});
      if y in a {
        assert |a - {y}| == |a| - 1;
        assert a == (a - {y}) + {y};
      } else {
        assert a - {y} == a;
      }
    }
  }

  function LoincOf(cellType: string): string {
    if cellType == "hemoglobin" then "718-7" else if cellType == "leukocytes" then "6690-2" else "777-3"
  }

  const CellTypeNames: set<string> := {"hemoglobin", "leukocytes", "platelets"}

  /** `{LOINC_CODES[key]: val['value'] ...}`: every stored code's value under its cell type. */
  function ByCellType(labs: Dict<Stored>): (r: map<string, LabValue>)
    requires forall k :: k in KeySet(labs) ==> CellTypeOf(k).Some?
    ensures forall k :: k in KeySet(labs) ==> CellTypeOf(k).value in r && r[CellTypeOf(k).value] == Get(labs, k).value.value
    ensures forall c :: c in r ==> c in CellTypeNames && LoincOf(c) in KeySet(labs)
  {
    map c | c in CellTypeNames && LoincOf(c) in KeySet(labs) :: Get(labs, LoincOf(c)).value.value
  }

  /** `get_lab_observations_by_patient(patient_id, token)`. */
  function LabObservations(firstUrl: string, fetch: string -> Page, fuel: nat): (r: Result<map<string, LabValue>>)
    ensures r.Ok? ==> forall c :: c in r.value ==> c in CellTypeNames
  {
    match Crawl([], Some(firstUrl), fetch, fuel)
    case Err(f) => Err(f)
    case Ok(labs) => Ok(ByCellType(labs))
  }
}
