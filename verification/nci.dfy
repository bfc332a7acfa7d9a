/** The clinical-trials search (`NciApi`, apis.py): the page offsets,
    the query of one page, and the tagging of each trial with the requested
    disease codes it matches.

    The trials service is a function parameter; the order in which the
    spawned page requests finish is an input (`completion`). */
module Nci {
  import opened Wrappers
  import opened Text
  import opened Chunking

  /** `NciApi.size`: trials per page. */
  const PageSize: nat := 50

  /** `range(start, stop, PageSize)`. */
  function Range(start: int, stop: int): (r: seq<int>)
    ensures forall i :: 0 <= i < |r| ==> r[i] == start + PageSize * i && r[i] < stop
    ensures |r| > 0 ==> stop <= r[|r| - 1] + PageSize
    ensures start >= stop ==> r == []
    decreases stop - start
  {
    if start >= stop then [] else [start] + Range(start + PageSize, stop)
  }

  /** The offsets of the pages requested after the first: none when `total`
      fits in one page, else `range(1 + size, 1 + total, size)`. */
  function LaterStarts(total: int): (r: seq<int>)
    ensures forall i :: 0 <= i < |r| ==> r[i] == 1 + PageSize * (i + 1) && r[i] <= total
  {
    if total > PageSize then Range(1 + PageSize, 1 + total) else []
  }

  /** Every page offset requested: the first page at 1, then the later ones. */
  function PageStarts(total: int): seq<int> {
    [1] + LaterStarts(total)
  }

  lemma {:induction false} RangeCount(start: int, stop: int)
    requires start < stop
    ensures |Range(start, stop)| == CeilDiv(stop - start, PageSize)
    decreases stop - start
  {
    if start + PageSize < stop {
      RangeCount(start + PageSize, stop);
    }
  }

  /** The pages tile the result set: for a non-empty result the last page
      starts at or before `total` and ends after it, and there are
      ceil(total / 50) requests in all. */
  lemma PagesCoverTotal(total: int)
    requires total >= 1
    ensures var starts := PageStarts(total);
      var last := starts[|starts| - 1];
      && last <= total < last + PageSize
      && |starts| == CeilDiv(total, PageSize)
  {
    if total > PageSize {
      RangeCount(1 + PageSize, 1 + total);
      assert CeilDiv(total, PageSize) == 1 + CeilDiv(total - PageSize, PageSize);
    }
  }

  /** The query of one page: `size`, `from`, the disease filter, the gender
      filter and the two age bounds. */
  datatype PageQuery = PageQuery(size: string, from: string, diseases: set<string>, gender: seq<string>,
                                 maxAgeGte: string, minAgeLte: string)

  /** `_get_trials_page(start_from)`'s parameters. */
  function TrialsPageQuery(startFrom: int, age: int, gender: string, codes: set<string>): (q: PageQuery)
    ensures DecimalValue(q.size) == Some(PageSize as int)
    ensures q.diseases == codes
    ensures q.gender == [gender, "BOTH"]
  {
    DecimalValueOfIntToString(PageSize);
    PageQuery(IntToString(PageSize), IntToString(startFrom), codes, [gender, "BOTH"], IntToString(age), IntToString(age))
  }

  /** `from` reads back as the offset and both age bounds as the age. */
  lemma PageQueryReadsBack(startFrom: int, age: int, gender: string, codes: set<string>)
    ensures var q := TrialsPageQuery(startFrom, age, gender, codes);
      && DecimalValue(q.from) == Some(startFrom)
      && DecimalValue(q.maxAgeGte) == Some(age)
      && DecimalValue(q.minAgeLte) == Some(age)
  {
    DecimalValueOfIntToString(startFrom);
    DecimalValueOfIntToString(age);
  }

  /** A trial as returned by the service: `nci_id` and the concept ids of
      `diseases[*]` (`None` when the list is missing; an element without an
      id is `None` and dropped by the projection). */
  datatype Trial = Trial(nciId: Option<string>, diseases: Option<seq<Option<string>>>)

  /** A yielded trial with its `ncit_codes`. */
  datatype Tagged = Tagged(trial: Trial, ncitCodes: set<string>)

  function ConceptIds(ds: seq<Option<string>>): (r: set<string>)
    ensures forall x :: x in r <==> exists i :: 0 <= i < |ds| && ds[i] == Some(x)
  {
    if |ds| == 0 then {}
    else
      var rest := ConceptIds(ds[1..]);
      assert forall i :: 1 <= i < |ds| ==> ds[i] == ds[1..][i - 1];
      (if ds[0].Some? then {ds[0].value} else {}) + rest
  }

  /** `_add_disease_list(trial)`: the requested codes among the trial's
      concept ids. A trial without `diseases` raises (`set(None)`), and so
      does one with no matching code and no `nci_id` (the warning reads it). */
  function AddDiseaseList(t: Trial, codes: set<string>): (r: Result<Tagged>)
    ensures t.diseases.None? ==> r == Err(TypeErrorNone)
    ensures r.Ok? ==> r.value.trial == t && t.diseases.Some? &&
                      forall x :: x in r.value.ncitCodes <==> x in codes && exists i :: 0 <= i < |t.diseases.value| && t.diseases.value[i] == Some(x)
    ensures t.diseases.Some? ==> (r.Err? <==> t.nciId.None? && codes * ConceptIds(t.diseases.value) == {})
  {
    match t.diseases
    case None => Err(TypeErrorNone)
    case Some(ds) =>
      var matched := codes * ConceptIds(ds);
      if |matched| == 0 && t.nciId.None? then Err(KeyErrorField) else Ok(Tagged(t, matched))
  }

  /** A response page: `trials` and `total`, each possibly missing. */
  datatype Page = Page(trials: Option<seq<Trial>>, total: Option<int>)

  /** The `for trial in page['trials']` loop of one page. */
  function TagAll(ts: seq<Trial>, codes: set<string>): (r: Result<seq<Tagged>>)
    ensures r.Ok? ==> |r.value| == |ts| && forall i :: 0 <= i < |ts| ==> AddDiseaseList(ts[i], codes) == Ok(r.value[i])
    ensures r.Err? <==> exists i :: 0 <= i < |ts| && AddDiseaseList(ts[i], codes).Err?
  {
    if |ts| == 0 then Ok([])
    else
      assert forall i :: 1 <= i < |ts| ==> ts[i] == ts[1..][i - 1];
      match AddDiseaseList(ts[0], codes)
      case Err(f) => Err(f)
      case Ok(x) =>
        match TagAll(ts[1..], codes)
        case Err(f) => Err(f)
        case Ok(rest) => Ok([x] + rest)
  }

  /** The correct tag of a trial: the requested codes among its concept ids. */
  predicate TaggedRight(x: Tagged, codes: set<string>) {
    x.trial.diseases.Some? && x.ncitCodes == codes * ConceptIds(x.trial.diseases.value)
  }

  lemma AddDiseaseListTagsRight(t: Trial, codes: set<string>)
    requires AddDiseaseList(t, codes).Ok?
    ensures TaggedRight(AddDiseaseList(t, codes).value, codes)
  {
  }

  /** A list each of whose trials tags without raising is what `TagAll` returns. */
  lemma TagAllDetermined(ts: seq<Trial>, xs: seq<Tagged>, codes: set<string>)
    requires |xs| == |ts| && forall i :: 0 <= i < |ts| ==> AddDiseaseList(ts[i], codes) == Ok(xs[i])
    ensures TagAll(ts, codes) == Ok(xs)
  {
    assert TagAll(ts, codes).Ok?;
    assert TagAll(ts, codes).value == xs;
  }

  /** Tagging two lists one after the other tags their concatenation. */
  lemma TagAllAppend(a: seq<Trial>, b: seq<Trial>, codes: set<string>)
    requires TagAll(a, codes).Ok? && TagAll(b, codes).Ok?
    ensures TagAll(a + b, codes) == Ok(TagAll(a, codes).value + TagAll(b, codes).value)
  {
    var ta, tb := TagAll(a, codes).value, TagAll(b, codes).value;
    assert forall i :: 0 <= i < |a + b| ==> AddDiseaseList((a + b)[i], codes) == Ok((ta + tb)[i]) by {
      forall i | 0 <= i < |a + b| ensures AddDiseaseList((a + b)[i], codes) == Ok((ta + tb)[i]) {
        if i >= |a| {
          assert (a + b)[i] == b[i - |a|];
        }
      }
    }
    TagAllDetermined(a + b, ta + tb, codes);
  }

  /** The stream of one page's tagged trials: the whole page, or the trials
      before the first that raised. */
  function YieldPage(ts: seq<Trial>, codes: set<string>): (r: Stream<Tagged>)
    ensures r.fault.None? <==> TagAll(ts, codes).Ok?
    ensures r.fault.None? ==> r.items == TagAll(ts, codes).value
    ensures |r.items| <= |ts| && forall i :: 0 <= i < |r.items| ==> AddDiseaseList(ts[i], codes) == Ok(r.items[i])
  {
    if |ts| == 0 then Stream([], None)
    else
      match AddDiseaseList(ts[0], codes)
      case Err(f) => Stream([], Some(f))
      case Ok(x) =>
        var rest := YieldPage(ts[1..], codes);
        assert forall i :: 1 <= i < |ts| ==> ts[i] == ts[1..][i - 1];
        Stream([x] + rest.items, rest.fault)
  }

  /** Every item of a page's stream is tagged right. */
  lemma YieldPageTaggedRight(ts: seq<Trial>, codes: set<string>)
    ensures forall i :: 0 <= i < |YieldPage(ts, codes).items| ==> TaggedRight(YieldPage(ts, codes).items[i], codes)
  {
    var r := YieldPage(ts, codes);
    forall i | 0 <= i < |r.items| ensures TaggedRight(r.items[i], codes) {
      AddDiseaseListTagsRight(ts[i], codes);
    }
  }

  /** Two streams one after the other: the second runs only if the first ended cleanly. */
  function Then(a: Stream<Tagged>, b: Stream<Tagged>): (r: Stream<Tagged>)
    ensures a.fault.Some? ==> r == a
    ensures a.fault.None? ==> r.items == a.items + b.items && r.fault == b.fault
  {
    if a.fault.Some? then a else Stream(a.items + b.items, b.fault)
  }

  /** What `get_trials` is asked for. */
  datatype Search = Search(age: int, gender: string, codes: set<string>)

  /** The service: the response to a query, or `Err` when the request raised. */
  type Fetch = PageQuery -> Result<Page>

  /** `_get_trials_page(start)`: the page query sent for this search. */
  function Ask(fetch: Fetch, search: Search, start: int): Result<Page> {
    fetch(TrialsPageQuery(start, search.age, search.gender, search.codes))
  }

  /** The first response has its trials and its total. */
  predicate FirstPageReady(fetch: Fetch, search: Search) {
    Ask(fetch, search, 1).Ok? && Ask(fetch, search, 1).value.trials.Some? && Ask(fetch, search, 1).value.total.Some?
  }

  /** `iwait` hands over each spawned page request exactly once, in any order. */
  predicate CompletionOrder(fetch: Fetch, search: Search, completion: seq<int>) {
    FirstPageReady(fetch, search) ==>
      multiset(completion) == multiset(LaterStarts(Ask(fetch, search, 1).value.total.value))
  }

  /** One page from the `iwait` loop: a request that raised leaves `None`,
      and subscripting it raises. */
  function LaterPage(fetch: Fetch, search: Search, start: int): Stream<Tagged> {
    match Ask(fetch, search, start)
    case Err(_) => Stream([], Some(TypeErrorNone))
    case Ok(page) =>
      match page.trials
      case None => Stream([], Some(KeyErrorField))
      case Some(ts) => YieldPage(ts, search.codes)
  }

  /** The later pages in completion order. */
  function LaterPages(fetch: Fetch, search: Search, done: seq<int>): Stream<Tagged>
    decreases |done|
  {
    if |done| == 0 then Stream([], None) else Then(LaterPage(fetch, search, done[0]), LaterPages(fetch, search, done[1..]))
  }

  /** `get_trials(age, gender, ncit_codes)`: the first page's trials, then,
      when `total` exceeds one page, the other pages' trials in the order
      their requests finish. */
  function GetTrials(search: Search, fetch: Fetch, completion: seq<int>): (r: Stream<Tagged>)
    requires CompletionOrder(fetch, search, completion)
  {
    match Ask(fetch, search, 1)
    case Err(_) => Stream([], Some(ServiceFailure))
    case Ok(first) =>
      match first.trials
      case None => Stream([], Some(KeyErrorField))
      case Some(ts) =>
        var head := YieldPage(ts, search.codes);
        if head.fault.Some? then head
        else
          match first.total
          case None => Stream(head.items, Some(KeyErrorField))
          case Some(total) =>
            if total > PageSize then Then(head, LaterPages(fetch, search, completion)) else head
  }

  /** Everything the later pages yield is tagged right. */
  lemma {:induction false} LaterPagesTagged(fetch: Fetch, search: Search, done: seq<int>)
    ensures forall i :: 0 <= i < |LaterPages(fetch, search, done).items| ==>
              TaggedRight(LaterPages(fetch, search, done).items[i], search.codes)
    decreases |done|
  {
    if |done| > 0 {
      LaterPagesTagged(fetch, search, done[1..]);
      match Ask(fetch, search, done[0])
      case Err(_) =>
      case Ok(page) =>
        if page.trials.Some? {
          YieldPageTaggedRight(page.trials.value, search.codes);
        }
    }
  }

  /** Everything yielded carries exactly the requested codes among its own
      concept ids. */
  lemma GetTrialsTagged(search: Search, fetch: Fetch, completion: seq<int>)
    requires CompletionOrder(fetch, search, completion)
    ensures var r := GetTrials(search, fetch, completion);
      forall i :: 0 <= i < |r.items| ==> TaggedRight(r.items[i], search.codes) && r.items[i].ncitCodes <= search.codes
  {
    LaterPagesTagged(fetch, search, completion);
    match Ask(fetch, search, 1)
    case Err(_) =>
    case Ok(first) =>
      if first.trials.Some? {
        YieldPageTaggedRight(first.trials.value, search.codes);
      }
  }

  /** The trials of the later pages' responses, in completion order. */
  function PagesTrials(fetch: Fetch, search: Search, done: seq<int>): seq<Trial>
    decreases |done|
  {
    if |done| == 0 then []
    else
      (match Ask(fetch, search, done[0]) case Ok(p) => (match p.trials case Some(ts) => ts case None => []) case Err(_) => [])
      + PagesTrials(fetch, search, done[1..])
  }

  /** Without a fault every later page arrived with its trials, and the stream
      is those trials, page after page in completion order, each tagged. */
  lemma {:induction false} LaterPagesAllPages(fetch: Fetch, search: Search, done: seq<int>)
    requires LaterPages(fetch, search, done).fault.None?
    ensures forall i :: 0 <= i < |done| ==> Ask(fetch, search, done[i]).Ok? && Ask(fetch, search, done[i]).value.trials.Some?
    ensures TagAll(PagesTrials(fetch, search, done), search.codes) == Ok(LaterPages(fetch, search, done).items)
    decreases |done|
  {
    if |done| > 0 {
      LaterPageClean(fetch, search, done[0]);
      LaterPagesAllPages(fetch, search, done[1..]);
      assert forall i :: 1 <= i < |done| ==> done[i] == done[1..][i - 1];
      var ts := Ask(fetch, search, done[0]).value.trials.value;
      TagAllAppend(ts, PagesTrials(fetch, search, done[1..]), search.codes);
    }
  }

  /** One later page that ends cleanly was a response with `trials`, all of them tagged. */
  lemma LaterPageClean(fetch: Fetch, search: Search, start: int)
    requires LaterPage(fetch, search, start).fault.None?
    ensures Ask(fetch, search, start).Ok? && Ask(fetch, search, start).value.trials.Some?
    ensures TagAll(Ask(fetch, search, start).value.trials.value, search.codes) == Ok(LaterPage(fetch, search, start).items)
  {
  }

  /** A stream that ends cleanly is every trial of the first page followed by
      every trial of every later page (each offset once, in completion
      order), each tagged; the offsets requested are exactly
      `PageStarts(total)`. */
  lemma GetTrialsComplete(search: Search, fetch: Fetch, completion: seq<int>)
    requires CompletionOrder(fetch, search, completion)
    requires GetTrials(search, fetch, completion).fault.None?
    ensures FirstPageReady(fetch, search)
    ensures var first := Ask(fetch, search, 1).value;
      var total := first.total.value;
      var all := first.trials.value + (if total > PageSize then PagesTrials(fetch, search, completion) else []);
      && TagAll(all, search.codes) == Ok(GetTrials(search, fetch, completion).items)
      && multiset([1] + (if total > PageSize then completion else [])) == multiset(PageStarts(total))
  {
    var first := Ask(fetch, search, 1).value;
    var total := first.total.value;
    if total > PageSize {
      LaterPagesAllPages(fetch, search, completion);
      TagAllAppend(first.trials.value, PagesTrials(fetch, search, completion), search.codes);
    } else {
      assert first.trials.value + [] == first.trials.value;
      assert LaterStarts(total) == [];
    }
  }
}
