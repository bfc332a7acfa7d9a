/** Crosswalk of the patient's condition codes to NCI thesaurus codes
    (`UmlsApi.get_crosswalk` and `UmlsApi.get_matches`, apis.py).

    The UMLS service is a function parameter; the order in which the
    spawned lookups finish is an input (`completion`), any ordering of the
    condition codes. */
module Umls {
  import opened Wrappers
  import opened PyDict

  /** One element of the response's `result` list: `ui` and `name`, each
      possibly missing. */
  datatype Candidate = Candidate(ui: Option<string>, name: Option<string>)

  /** The HTTP status and the JSON body's `result` list (`None` when absent). */
  datatype Response = Response(status: int, result: Option<seq<Candidate>>)

  /** The sources the crosswalk query filters out. */
  predicate Accepted(c: Candidate) {
    c.ui != Some("TCGA") && c.ui != Some("OMFAQ") && c.ui != Some("MPN-SAF")
  }

  /** Position of the first accepted candidate (the filter followed by `[0]`). */
  function FirstAccepted(cs: seq<Candidate>): (r: Option<nat>)
    ensures r.None? <==> forall i :: 0 <= i < |cs| ==> !Accepted(cs[i])
    ensures r.Some? ==> r.value < |cs| && Accepted(cs[r.value]) &&
                        forall j :: 0 <= j < r.value ==> !Accepted(cs[j])
  {
    if |cs| == 0 then None
    else if Accepted(cs[0]) then Some(0)
    else
      match FirstAccepted(cs[1..])
      case None =>
        assert forall i :: 1 <= i < |cs| ==> cs[i] == cs[1..][i - 1];
        None
      case Some(i) => Some(i + 1)
  }

  /** `get_crosswalk(orig_code, codeset)` once the response is in: a status
      other than 200 gives `(None, None)`; otherwise the `ui` and `name` of the
      first accepted candidate; subscripting the `None` the query gives when
      there is none (or no `result` at all) raises. */
  function GetCrosswalk(resp: Response): (r: Result<(Option<string>, Option<string>)>)
    ensures resp.status != 200 ==> r == Ok((None, None))
    ensures resp.status == 200 ==>
              (r.Err? <==> resp.result.None? || forall i :: 0 <= i < |resp.result.value| ==> !Accepted(resp.result.value[i]))
    ensures resp.status == 200 && r.Ok? ==>
              exists i :: 0 <= i < |resp.result.value| && Accepted(resp.result.value[i]) &&
                (forall j :: 0 <= j < i ==> !Accepted(resp.result.value[j])) &&
                r.value == (resp.result.value[i].ui, resp.result.value[i].name)
  {
    if resp.status != 200 then Ok((None, None))
    else
      match resp.result
      case None => Err(TypeErrorNone)
      case Some(cs) =>
        match FirstAccepted(cs)
        case None => Err(TypeErrorNone)
        case Some(i) => Ok((cs[i].ui, cs[i].name))
  }

  /** `{'match': ncit_code, 'description': ncit_desc}`. */
  datatype Match = Match(code: string, description: string)

  /** Python truthiness of an optional string: present and non-empty. */
  predicate Truthy(s: Option<string>) {
    s.Some? && |s.value| > 0
  }

  /** What `get_matches` yields for one finished lookup. */
  function MatchOf(crosswalk: (Option<string>, Option<string>)): (r: Option<Match>)
    ensures r.Some? <==> Truthy(crosswalk.0) && Truthy(crosswalk.1)
    ensures r.Some? ==> crosswalk == (Some(r.value.code), Some(r.value.description))
  {
    if Truthy(crosswalk.0) && Truthy(crosswalk.1) then Some(Match(crosswalk.0.value, crosswalk.1.value)) else None
  }

  /** One entry of `conditions_by_code`: its `codeset` and `description`, each
      possibly missing. */
  datatype Condition = Condition(codeset: Option<string>, description: Option<string>)

  /** The lookup service: a response, or `Err` when the request raised. */
  type Lookup = (string, string) -> Result<Response>

  /** One finished lookup as the merge loop sees it: the greenlet's value, or
      `None` (whose unpacking raises) when it raised. */
  function Finished(lookup: Lookup, code: string, codeset: string): Result<(Option<string>, Option<string>)> {
    match lookup(code, codeset)
    case Err(_) => Err(TypeErrorNone)
    case Ok(resp) => GetCrosswalk(resp)
  }

  predicate Spawnable(conditions: Dict<Condition>) {
    forall i :: 0 <= i < |conditions| ==> conditions[i].1.codeset.Some? && conditions[i].1.description.Some?
  }

  function CodesetOf(conditions: Dict<Condition>, code: string): string
    requires Spawnable(conditions)
  {
    match Get(conditions, code)
    case None => ""
    case Some(c) => c.codeset.value
  }

  /** The pair yielded for `code`: its lookup finished without raising, and
      the pair carries the match that lookup gives. */
  predicate Yielded(conditions: Dict<Condition>, lookup: Lookup, code: string, item: (string, Option<Match>))
    requires Spawnable(conditions)
  {
    var fin := Finished(lookup, code, CodesetOf(conditions, code));
    item.0 == code && fin.Ok? && item.1 == MatchOf(fin.value)
  }

  /** The `for match in iwait(matches)` loop over the finished codes. */
  function YieldMatches(conditions: Dict<Condition>, lookup: Lookup, done: seq<string>): (r: Stream<(string, Option<Match>)>)
    requires Spawnable(conditions)
    ensures |r.items| <= |done|
    ensures forall i :: 0 <= i < |r.items| ==> Yielded(conditions, lookup, done[i], r.items[i])
    ensures r.fault.None? <==> |r.items| == |done|
    ensures r.fault.Some? ==> Finished(lookup, done[|r.items|], CodesetOf(conditions, done[|r.items|])).Err?
    decreases |done|
  {
    if |done| == 0 then Stream([], None)
    else
      var code := done[0];
      match Finished(lookup, code, CodesetOf(conditions, code))
      case Err(f) => Stream([], Some(f))
      case Ok(crosswalk) =>
        var rest := YieldMatches(conditions, lookup, done[1..]);
        Stream([(code, MatchOf(crosswalk))] + rest.items, rest.fault)
  }

  function Keys<V>(d: Dict<V>): (r: seq<string>)
    ensures |r| == |d|
    ensures forall i :: 0 <= i < |d| ==> r[i] == d[i].0
  {
    if |d| == 0 then [] else [d[0].0] + Keys(d[1..])
  }

  /** `get_matches(conditions_by_code)`: a lookup per code is spawned (the
      spawning loop reads `codeset` and `description`, so a condition missing
      either raises before anything is yielded); then one pair per finished
      lookup, in completion order, until a lookup that raised. */
  function GetMatches(conditions: Dict<Condition>, lookup: Lookup, completion: seq<string>)
    : (r: Stream<(string, Option<Match>)>)
    requires DistinctKeys(conditions)
    requires multiset(completion) == multiset(Keys(conditions))
    ensures !Spawnable(conditions) ==> r == Stream([], Some(KeyErrorField))
  {
    if !Spawnable(conditions) then Stream([], Some(KeyErrorField))
    else YieldMatches(conditions, lookup, completion)
  }

  /** Without a failed lookup, every input code is yielded exactly once. */
  lemma GetMatchesOncePerCode(conditions: Dict<Condition>, lookup: Lookup, completion: seq<string>)
    requires DistinctKeys(conditions)
    requires multiset(completion) == multiset(Keys(conditions))
    requires GetMatches(conditions, lookup, completion).fault.None?
    ensures var items := GetMatches(conditions, lookup, completion).items;
      multiset(seq(|items|, i requires 0 <= i < |items| => items[i].0)) == multiset(Keys(conditions))
  {
    var items := GetMatches(conditions, lookup, completion).items;
    assert |items| == |completion| && forall i :: 0 <= i < |items| ==> items[i].0 == completion[i];
    assert seq(|items|, i requires 0 <= i < |items| => items[i].0) == completion;
  }

  /** A code's pair carries a match exactly when its lookup returned both a
      code and a description, non-empty, from the first accepted candidate. */
  lemma MatchMeansAcceptedCandidate(conditions: Dict<Condition>, lookup: Lookup, completion: seq<string>, i: nat)
    requires DistinctKeys(conditions)
    requires multiset(completion) == multiset(Keys(conditions))
    requires i < |GetMatches(conditions, lookup, completion).items|
    ensures var (code, m) := GetMatches(conditions, lookup, completion).items[i];
      m.Some? ==> exists resp, j ::
        lookup(code, CodesetOf(conditions, code)) == Ok(resp) && resp.status == 200 &&
        resp.result.Some? && 0 <= j < |resp.result.value| && Accepted(resp.result.value[j]) &&
        resp.result.value[j] == Candidate(Some(m.value.code), Some(m.value.description))
  {
    var (code, m) := GetMatches(conditions, lookup, completion).items[i];
    if m.Some? {
      var resp := lookup(code, CodesetOf(conditions, code)).value;
      var j := FirstAccepted(resp.result.value).value;
      assert resp.result.value[j] == Candidate(Some(m.value.code), Some(m.value.description));
    }
  }
}
