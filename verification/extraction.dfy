/** Condition extraction from a trial's unstructured eligibility text
    (`find_conditions`, `get_mapping_with_aws_comprehend` and its
    `get_description` chunker in patient.py).

    The JSONPath query is a filter over the trial's criteria; the
    cell-type regular expression and the entity-detection service are
    parameters (`findall` and `detect`). */
module Extraction {
  import opened Wrappers
  import opened Text
  import opened Chunking
  import opened PyDict

  /** One entry of `eligibility.unstructured`. */
  datatype Criterion = Criterion(inclusionIndicator: bool, description: string)

  /** The part of a trial record the matcher reads. */
  datatype Trial = Trial(nciId: string, unstructured: seq<Criterion>)

  /** One of the three tracked cell types. */
  predicate IsCellType(s: string) {
    s == "hemoglobin" || s == "platelets" || s == "leukocytes"
  }

  /** `any(cell_type in d.lower() for cell_type in cell_types)`. */
  predicate MentionsCellType(d: string) {
    var low := Lower(d);
    Contains(low, "hemoglobin") || Contains(low, "platelets") || Contains(low, "leukocytes")
  }

  /** `$.eligibility.unstructured[?inclusion_indicator=true].description`. */
  function InclusionDescriptions(criteria: seq<Criterion>): (r: seq<string>)
    ensures |r| <= |criteria|
    ensures forall d :: d in r <==> exists c :: c in criteria && c.inclusionIndicator && c.description == d
    ensures |criteria| == 1 ==> r == if criteria[0].inclusionIndicator then [criteria[0].description] else []
  {
    if |criteria| == 0 then []
    else
      var rest := InclusionDescriptions(criteria[1..]);
      assert forall c :: c in criteria <==> c == criteria[0] || c in criteria[1..];
      if criteria[0].inclusionIndicator then [criteria[0].description] + rest else rest
  }

  /** The query keeps the criteria's order: the descriptions of a list of
      criteria are those of its first part followed by those of the rest. */
  lemma {:induction false} InclusionDescriptionsAppend(a: seq<Criterion>, b: seq<Criterion>)
    ensures InclusionDescriptions(a + b) == InclusionDescriptions(a) + InclusionDescriptions(b)
  {
    if |a| == 0 {
      assert a + b == b;
    } else {
      assert (a + b)[0] == a[0] && (a + b)[1..] == a[1..] + b;
      InclusionDescriptionsAppend(a[1..], b);
    }
  }

  /** The descriptions that mention a cell type, CR LF turned into a space and
      lower-cased (the list joined by `find_conditions`). */
  function MentionTexts(descs: seq<string>): (r: seq<string>)
    ensures |r| <= |descs|
    ensures forall i :: 0 <= i < |r| ==> |r[i]| > 0
    ensures |r| == 0 <==> forall d :: d in descs ==> !MentionsCellType(d)
    ensures |descs| == 1 ==> r == if MentionsCellType(descs[0]) then [Lower(ReplaceCrlf(descs[0]))] else []
  {
    if |descs| == 0 then []
    else
      var rest := MentionTexts(descs[1..]);
      assert forall d :: d in descs <==> d == descs[0] || d in descs[1..];
      if MentionsCellType(descs[0]) then
        MentionNonEmpty(descs[0]);
        [Lower(ReplaceCrlf(descs[0]))] + rest
      else rest
  }

  /** The list comprehension keeps the descriptions' order. */
  lemma {:induction false} MentionTextsAppend(a: seq<string>, b: seq<string>)
    ensures MentionTexts(a + b) == MentionTexts(a) + MentionTexts(b)
  {
    if |a| == 0 {
      assert a + b == b;
    } else {
      assert (a + b)[0] == a[0] && (a + b)[1..] == a[1..] + b;
      MentionTextsAppend(a[1..], b);
    }
  }

  lemma MentionNonEmpty(d: string)
    requires MentionsCellType(d)
    ensures |d| > 0
  {
    var low := Lower(d);
    if Contains(low, "hemoglobin") {
      ContainsNonEmpty(low, "hemoglobin");
    } else if Contains(low, "platelets") {
      ContainsNonEmpty(low, "platelets");
    } else {
      ContainsNonEmpty(low, "leukocytes");
    }
  }

  /** One tuple of `pattern.findall(description)`: the whole condition
      (group 1) and the cell type it names (group 2). */
  datatype RegexMatch = RegexMatch(whole: string, cellType: string)

  /** `{match[1]: str(match[0]) for match in matches}` as a list of assignments. */
  function MatchPairs(matches: seq<RegexMatch>): (r: seq<(string, string)>)
    ensures |r| == |matches|
    ensures forall i :: 0 <= i < |r| ==> r[i] == (matches[i].cellType, matches[i].whole)
  {
    if |matches| == 0 then [] else [(matches[0].cellType, matches[0].whole)] + MatchPairs(matches[1..])
  }

  /** What the cell-type pattern can produce: group 2 is one of the three
      alternatives `hemoglobin|platelets|leukocytes`. */
  ghost predicate RegexYieldsCellTypes(findall: string -> seq<RegexMatch>) {
    forall s: string, i: nat :: i < |findall(s)| ==> IsCellType(findall(s)[i].cellType)
  }

  // ------------------------------------------------------------------
  // get_description: packing descriptions into service-sized chunks

  /** The service's payload ceiling used by the chunker. */
  const ComprehendLimit: nat := 19999

  /** `match.value.replace('\r\n', ' ').lower().replace(',', '')`. */
  function Normalize(d: string): (r: string)
    ensures ',' !in r
    ensures |r| <= |d|
    ensures forall i :: 0 <= i < |r| ==> !('A' <= r[i] <= 'Z')
    ensures multiset(r) == multiset(Lower(ReplaceCrlf(d)))[',' := 0]
  {
    RemoveCharKeepsLower(Lower(ReplaceCrlf(d)), ',');
    RemoveChar(Lower(ReplaceCrlf(d)), ',')
  }

  lemma RemoveCharKeepsLower(s: string, c: char)
    requires forall i :: 0 <= i < |s| ==> !('A' <= s[i] <= 'Z')
    ensures forall i :: 0 <= i < |RemoveChar(s, c)| ==> !('A' <= RemoveChar(s, c)[i] <= 'Z')
  {
    var r := RemoveChar(s, c);
    forall i | 0 <= i < |r| ensures !('A' <= r[i] <= 'Z') {
      assert r[i] in multiset(r);
      assert r[i] in s;
    }
  }

  /** Text already free of CR LF pairs, upper-case letters and commas is
      left unchanged. */
  lemma NormalizePlain(d: string)
    requires !Contains(d, "\r\n") && ',' !in d
    requires forall i :: 0 <= i < |d| ==> !('A' <= d[i] <= 'Z')
    ensures Normalize(d) == d
  {
    ReplaceCrlfNoCrlf(d);
    LowerOfNoUpper(d);
    RemoveCharAbsent(d, ',');
  }

  function NormalizeAll(descs: seq<string>): (r: seq<string>)
    ensures |r| == |descs|
    ensures forall i :: 0 <= i < |r| ==> r[i] == Normalize(descs[i])
  {
    if |descs| == 0 then [] else [Normalize(descs[0])] + NormalizeAll(descs[1..])
  }

  /** The generator `get_description` resumed with accumulator `data` over the
      remaining (already normalised) descriptions: a description longer than
      the limit is split and yielded at once; one that would overflow the
      accumulator flushes it; anything else is appended to it, with no
      separator. The final accumulator is always yielded, even when empty. */
  function Chunks(descs: seq<string>, data: string, limit: nat): (r: seq<string>)
    requires limit > 0 && |data| <= limit
    ensures |r| >= 1
    ensures forall i :: 0 <= i < |r| ==> |r[i]| <= limit
    ensures forall i :: 0 <= i < |r| - 1 ==> |r[i]| > 0
    ensures |Concat(r)| == |data| + |Concat(descs)|
    decreases |descs|
  {
    if |descs| == 0 then [data]
    else
      var d := descs[0];
      if |d| > limit then
        var pieces := Split(d, limit);
        var rest := Chunks(descs[1..], data, limit);
        ConcatAppend(pieces, rest);
        pieces + rest
      else if |data| + |d| > limit then
        var rest := Chunks(descs[1..], d, limit);
        ConcatAppend([data], rest);
        [data] + rest
      else
        Chunks(descs[1..], data + d, limit)
  }

  /** `get_description()` over the matched descriptions. */
  function GetDescription(descs: seq<string>): (r: seq<string>)
    ensures |r| >= 1
    ensures forall i :: 0 <= i < |r| ==> |r[i]| <= ComprehendLimit
    ensures forall i :: 0 <= i < |r| - 1 ==> |r[i]| > 0
    ensures |Concat(r)| == |Concat(NormalizeAll(descs))|
  {
    Chunks(NormalizeAll(descs), "", ComprehendLimit)
  }

  /** No character is lost or invented by the chunker: the chunks hold exactly
      the characters of the accumulator and of the descriptions (a long
      description's pieces may overtake the pending accumulator, so only the
      multiset of characters is kept, not their order). */
  lemma {:induction false} ChunksKeepCharacters(descs: seq<string>, data: string, limit: nat)
    requires limit > 0 && |data| <= limit
    ensures multiset(Concat(Chunks(descs, data, limit))) == multiset(data) + multiset(Concat(descs))
    decreases |descs|
  {
    if |descs| > 0 {
      var d := descs[0];
      assert Concat(descs) == d + Concat(descs[1..]);
      if |d| > limit {
        var pieces := Split(d, limit);
        ChunksKeepCharacters(descs[1..], data, limit);
        ConcatAppend(pieces, Chunks(descs[1..], data, limit));
      } else if |data| + |d| > limit {
        ChunksKeepCharacters(descs[1..], d, limit);
        ConcatAppend([data], Chunks(descs[1..], d, limit));
      } else {
        ChunksKeepCharacters(descs[1..], data + d, limit);
      }
    }
  }

  // ------------------------------------------------------------------
  // The entity loop of get_mapping_with_aws_comprehend

  /** One attribute of an entity; its `Text` field may be missing. */
  datatype Attribute = Attribute(text: Option<string>)

  /** One element of the service's `Entities` list; its `Text` field may be
      missing, and `attributes` is empty when `Attributes` is missing. */
  datatype Entity = Entity(text: Option<string>, attributes: seq<Attribute>)

  /** The loop body raises `KeyError` on this entity: `entity['Text']` is
      missing, or the entity is a cell type with attributes whose first
      attribute has no `Text`. */
  predicate Raises(e: Entity) {
    e.text.None? || (IsCellType(Lower(e.text.value)) && |e.attributes| > 0 && e.attributes[0].text.None?)
  }

  /** An entity the loop records: its lower-cased text is a tracked cell type
      and its first attribute has a text. */
  predicate Recognised(e: Entity) {
    e.text.Some? && IsCellType(Lower(e.text.value)) && |e.attributes| > 0 && e.attributes[0].text.Some?
  }

  /** The assignment the loop makes for a recognised entity:
      `conditions[text] = text + attributes[0].text`. */
  function EntityPair(e: Entity): (string, string)
    requires Recognised(e)
  {
    (e.text.value, e.text.value + e.attributes[0].text.value)
  }

  /** The entities of one chunk the loop gets through: all of them up to the
      first one that raises, which ends the chunk. */
  function Applied(ents: seq<Entity>): (r: seq<Entity>)
    ensures |r| <= |ents| && r == ents[..|r|]
    ensures forall i :: 0 <= i < |r| ==> !Raises(r[i])
    ensures |r| < |ents| ==> Raises(ents[|r|])
  {
    if |ents| == 0 || Raises(ents[0]) then []
    else [ents[0]] + Applied(ents[1..])
  }

  /** The assignments made for a list of entities, in order. */
  function EntityPairs(ents: seq<Entity>): (r: seq<(string, string)>)
    ensures |r| <= |ents|
    ensures forall i :: 0 <= i < |r| ==> IsCellType(Lower(r[i].0))
  {
    if |ents| == 0 then []
    else
      var rest := EntityPairs(ents[1..]);
      if Recognised(ents[0]) then [EntityPair(ents[0])] + rest else rest
  }

  lemma {:induction false} EntityPairsAppend(a: seq<Entity>, b: seq<Entity>)
    ensures EntityPairs(a + b) == EntityPairs(a) + EntityPairs(b)
  {
    if |a| == 0 {
      assert a + b == b;
    } else {
      assert (a + b)[1..] == a[1..] + b;
      EntityPairsAppend(a[1..], b);
    }
  }

  /** The inner `for entity in entities` loop, one entity at a time; an
      entity that raises leaves the assignments already made in place and
      ends the loop (the `except` around the chunk catches it). */
  function CollectEntities(conditions: Dict<string>, ents: seq<Entity>): Dict<string>
    decreases |ents|
  {
    if |ents| == 0 then conditions
    else
      var e := ents[0];
      if Raises(e) then conditions
      else
        var next := if Recognised(e) then Put(conditions, e.text.value, e.text.value + e.attributes[0].text.value)
                    else conditions;
        CollectEntities(next, ents[1..])
  }

  /** The entity loop is the run of assignments `EntityPairs` lists for the
      entities before the first one that raises. */
  lemma {:induction false} CollectEntitiesIsPutAll(conditions: Dict<string>, ents: seq<Entity>)
    ensures CollectEntities(conditions, ents) == PutAll(conditions, EntityPairs(Applied(ents)))
    decreases |ents|
  {
    if |ents| > 0 && !Raises(ents[0]) {
      var e := ents[0];
      var next := if Recognised(e) then Put(conditions, e.text.value, e.text.value + e.attributes[0].text.value)
                  else conditions;
      CollectEntitiesIsPutAll(next, ents[1..]);
      assert Applied(ents) == [e] + Applied(ents[1..]);
      assert EntityPairs(Applied(ents)) == (if Recognised(e) then [EntityPair(e)] else []) + EntityPairs(Applied(ents[1..]));
    }
  }

  /** An entity that raises keeps the assignments of the entities before it
      and drops those of the entities after it. */
  lemma EntityFailureKeepsEarlier(conditions: Dict<string>, before: seq<Entity>, bad: Entity, after: seq<Entity>)
    requires forall i :: 0 <= i < |before| ==> !Raises(before[i])
    requires Raises(bad)
    ensures CollectEntities(conditions, before + [bad] + after) == PutAll(conditions, EntityPairs(before))
  {
    var ents := before + [bad] + after;
    CollectEntitiesIsPutAll(conditions, ents);
    AppliedPrefix(ents, |before|);
    assert ents[..|before|] == before;
  }

  /** The entities applied are exactly those before the first raising one. */
  lemma AppliedPrefix(ents: seq<Entity>, k: nat)
    requires k < |ents| && Raises(ents[k]) && forall i :: 0 <= i < k ==> !Raises(ents[i])
    ensures Applied(ents) == ents[..k]
  {
    var r := Applied(ents);
    if |r| < k {
      assert !Raises(ents[|r|]);
    }
  }

  /** The service: the `Entities` of one call, or the exception it raised. */
  type Detector = string -> Result<seq<Entity>>

  /** The outer loop over chunks: a chunk whose call fails is skipped (the
      `except` branch) and the loop goes on. */
  function CollectChunks(conditions: Dict<string>, chunks: seq<string>, detect: Detector): Dict<string>
    decreases |chunks|
  {
    if |chunks| == 0 then conditions
    else
      match detect(chunks[0])
      case Ok(ents) => CollectChunks(CollectEntities(conditions, ents), chunks[1..], detect)
      case Err(_) => CollectChunks(conditions, chunks[1..], detect)
  }

  /** The entities the loop gets through, in chunk order: of every chunk
      whose call succeeded, the entities before the first that raises. */
  function SuccessfulEntities(chunks: seq<string>, detect: Detector): seq<Entity>
    decreases |chunks|
  {
    if |chunks| == 0 then []
    else
      var rest := SuccessfulEntities(chunks[1..], detect);
      match detect(chunks[0])
      case Ok(ents) => Applied(ents) + rest
      case Err(_) => rest
  }

  lemma {:induction false} SuccessfulEntitiesAppend(a: seq<string>, b: seq<string>, detect: Detector)
    ensures SuccessfulEntities(a + b, detect) == SuccessfulEntities(a, detect) + SuccessfulEntities(b, detect)
  {
    if |a| == 0 {
      assert a + b == b;
    } else {
      assert (a + b)[1..] == a[1..] + b;
      SuccessfulEntitiesAppend(a[1..], b, detect);
    }
  }

  /** The chunk loop makes exactly the assignments of the successful chunks'
      recognised entities, in order; failed chunks add nothing. */
  lemma {:induction false} CollectChunksIsPutAll(conditions: Dict<string>, chunks: seq<string>, detect: Detector)
    ensures CollectChunks(conditions, chunks, detect)
            == PutAll(conditions, EntityPairs(SuccessfulEntities(chunks, detect)))
    decreases |chunks|
  {
    if |chunks| > 0 {
      match detect(chunks[0])
      case Ok(ents) =>
        CollectEntitiesIsPutAll(conditions, ents);
        CollectChunksIsPutAll(CollectEntities(conditions, ents), chunks[1..], detect);
        EntityPairsAppend(Applied(ents), SuccessfulEntities(chunks[1..], detect));
        PutAllAppend(conditions, EntityPairs(Applied(ents)), EntityPairs(SuccessfulEntities(chunks[1..], detect)));
      case Err(_) =>
        CollectChunksIsPutAll(conditions, chunks[1..], detect);
    }
  }

  lemma {:induction false} PutAllAppend<V>(d: Dict<V>, a: seq<(string, V)>, b: seq<(string, V)>)
    ensures PutAll(d, a + b) == PutAll(PutAll(d, a), b)
    decreases |a|
  {
    if |a| == 0 {
      assert a + b == b;
    } else {
      assert (a + b)[1..] == a[1..] + b;
      PutAllAppend(Put(d, a[0].0, a[0].1), a[1..], b);
    }
  }

  /** A chunk whose service call raises contributes nothing, and the chunks
      after it are still processed. */
  lemma {:induction false} FailedChunkSkipped(conditions: Dict<string>, before: seq<string>, failed: string,
                                              after: seq<string>, detect: Detector)
    requires detect(failed).Err?
    ensures CollectChunks(conditions, before + [failed] + after, detect)
            == CollectChunks(conditions, before + after, detect)
    decreases |before|
  {
    if |before| == 0 {
      assert before + [failed] + after == [failed] + after;
      assert ([failed] + after)[1..] == after;
      assert before + after == after;
    } else {
      assert (before + [failed] + after)[0] == before[0];
      assert (before + [failed] + after)[1..] == before[1..] + [failed] + after;
      assert (before + after)[0] == before[0];
      assert (before + after)[1..] == before[1..] + after;
      match detect(before[0])
      case Ok(ents) =>
        FailedChunkSkipped(CollectEntities(conditions, ents), before[1..], failed, after, detect);
      case Err(_) =>
        FailedChunkSkipped(conditions, before[1..], failed, after, detect);
    }
  }

  /** `get_mapping_with_aws_comprehend(descriptions)`. */
  function MappingWithComprehend(descs: seq<string>, detect: Detector): (r: Dict<string>)
    ensures DistinctKeys(r)
    ensures forall i :: 0 <= i < |r| ==> IsCellType(Lower(r[i].0))
  {
    var r := CollectChunks([], GetDescription(descs), detect);
    CollectChunksIsPutAll([], GetDescription(descs), detect);
    KeysFromPairs(r, EntityPairs(SuccessfulEntities(GetDescription(descs), detect)));
    r
  }

  /** A dict whose keys are those of some cell-type pairs has cell-type keys. */
  lemma KeysFromPairs(r: Dict<string>, pairs: seq<(string, string)>)
    requires KeySet(r) <= KeySet(pairs)
    requires forall i :: 0 <= i < |pairs| ==> IsCellType(Lower(pairs[i].0))
    ensures forall i :: 0 <= i < |r| ==> IsCellType(Lower(r[i].0))
  {
    forall i | 0 <= i < |r| ensures IsCellType(Lower(r[i].0)) {
      assert r[i].0 in KeySet(r);
      var j :| 0 <= j < |pairs| && pairs[j].0 == r[i].0;
    }
  }

  /** Over any entity list, a recognised entity whose text no later
      recognised entity repeats determines that key's value. */
  lemma {:induction false} EntitiesLastWins(d: Dict<string>, ents: seq<Entity>, i: nat)
    requires i < |ents| && Recognised(ents[i])
    requires forall j :: i < j < |ents| && Recognised(ents[j]) ==> ents[j].text != ents[i].text
    ensures Get(PutAll(d, EntityPairs(ents)), ents[i].text.value) == Some(ents[i].text.value + ents[i].attributes[0].text.value)
    decreases |ents|
  {
    var rest := EntityPairs(ents[1..]);
    if i == 0 {
      FirstEntityLastWins(d, ents);
    } else if Recognised(ents[0]) {
      var d' := Put(d, ents[0].text.value, ents[0].text.value + ents[0].attributes[0].text.value);
      assert PutAll(d, EntityPairs(ents)) == PutAll(d', rest);
      EntitiesLastWins(d', ents[1..], i - 1);
    } else {
      EntitiesLastWins(d, ents[1..], i - 1);
    }
  }

  lemma FirstEntityLastWins(d: Dict<string>, ents: seq<Entity>)
    requires |ents| > 0 && Recognised(ents[0])
    requires forall j :: 0 < j < |ents| && Recognised(ents[j]) ==> ents[j].text != ents[0].text
    ensures Get(PutAll(d, EntityPairs(ents)), ents[0].text.value) == Some(ents[0].text.value + ents[0].attributes[0].text.value)
  {
    var rest := EntityPairs(ents[1..]);
    var d' := Put(d, ents[0].text.value, ents[0].text.value + ents[0].attributes[0].text.value);
    assert EntityPairs(ents) == [EntityPair(ents[0])] + rest;
    assert PutAll(d, EntityPairs(ents)) == PutAll(d', rest);
    LaterPairsDiffer(ents[1..], ents[0].text.value);
    PutAllUntouched(d', rest, ents[0].text.value);
  }

  /** A recognised entity whose text no later recognised entity repeats
      determines that key's value in the fallback result: the entity's text
      followed by its first attribute's text. */
  lemma FallbackLastEntityWins(descs: seq<string>, detect: Detector, i: nat)
    requires var ents := SuccessfulEntities(GetDescription(descs), detect);
      i < |ents| && Recognised(ents[i]) &&
      forall j :: i < j < |ents| && Recognised(ents[j]) ==> ents[j].text != ents[i].text
    ensures var e := SuccessfulEntities(GetDescription(descs), detect)[i];
      Get(MappingWithComprehend(descs, detect), e.text.value) == Some(e.text.value + e.attributes[0].text.value)
  {
    CollectChunksIsPutAll([], GetDescription(descs), detect);
    EntitiesLastWins([], SuccessfulEntities(GetDescription(descs), detect), i);
  }

  lemma {:induction false} LaterPairsDiffer(ents: seq<Entity>, key: string)
    requires forall j :: 0 <= j < |ents| && Recognised(ents[j]) ==> ents[j].text != Some(key)
    ensures forall j :: 0 <= j < |EntityPairs(ents)| ==> EntityPairs(ents)[j].0 != key
  {
    if |ents| > 0 {
      LaterPairsDiffer(ents[1..], key);
    }
  }

  /** A key no successful chunk's recognised entities name is absent. */
  lemma FallbackKeysFromEntities(descs: seq<string>, detect: Detector, k: string)
    requires forall e :: e in SuccessfulEntities(GetDescription(descs), detect) && Recognised(e) ==> e.text != Some(k)
    ensures Get(MappingWithComprehend(descs, detect), k) == None
  {
    var ents := SuccessfulEntities(GetDescription(descs), detect);
    CollectChunksIsPutAll([], GetDescription(descs), detect);
    assert forall j :: 0 <= j < |ents| && Recognised(ents[j]) ==> ents[j].text != Some(k) by {
      forall j | 0 <= j < |ents| && Recognised(ents[j]) ensures ents[j].text != Some(k) {
        assert ents[j] in ents;
      }
    }
    LaterPairsDiffer(ents, k);
    PutAllUntouched([], EntityPairs(ents), k);
  }

  // ------------------------------------------------------------------
  // find_conditions

  /** The text the cell-type pattern is applied to. */
  function CellTypeText(descs: seq<string>): string {
    Join(" ", MentionTexts(descs))
  }

  /** `find_conditions(trial)`: the conditions keyed by cell type, in the
      order Python's dict keeps them. */
  function FindConditions(t: Trial, findall: string -> seq<RegexMatch>, detect: Detector): (r: Dict<string>)
    ensures DistinctKeys(r)
  {
    var descs := InclusionDescriptions(t.unstructured);
    var description := CellTypeText(descs);
    if |description| > 0 then
      var matches := findall(description);
      if |matches| > 0 then
        var conditions := PutAll([], MatchPairs(matches));
        if |conditions| == 3 then conditions else MappingWithComprehend(descs, detect)
      else
        MappingWithComprehend(descs, detect)
    else
      []
  }

  /** The regular-expression result, as the dict the comprehension builds. */
  function RegexConditions(t: Trial, findall: string -> seq<RegexMatch>): Dict<string> {
    PutAll([], MatchPairs(findall(CellTypeText(InclusionDescriptions(t.unstructured)))))
  }

  /** No inclusion description mentions a cell type exactly when the joined
      text is empty; then there are no conditions. */
  lemma NoMentionNoConditions(t: Trial, findall: string -> seq<RegexMatch>, detect: Detector)
    ensures (forall d :: d in InclusionDescriptions(t.unstructured) ==> !MentionsCellType(d))
            <==> |CellTypeText(InclusionDescriptions(t.unstructured))| == 0
    ensures (forall d :: d in InclusionDescriptions(t.unstructured) ==> !MentionsCellType(d))
            ==> FindConditions(t, findall, detect) == []
  {
    var texts := MentionTexts(InclusionDescriptions(t.unstructured));
    JoinEmpty(" ", texts);
  }

  /** Fast path: when some description mentions a cell type and the pattern
      yields exactly three keys, those are the conditions and the detection
      service is never consulted (any service gives the same answer). */
  lemma RegexFastPath(t: Trial, findall: string -> seq<RegexMatch>, detect: Detector, other: Detector)
    requires |CellTypeText(InclusionDescriptions(t.unstructured))| > 0
    requires |RegexConditions(t, findall)| == 3
    ensures FindConditions(t, findall, detect) == RegexConditions(t, findall)
    ensures FindConditions(t, findall, detect) == FindConditions(t, findall, other)
  {
  }

  /** Otherwise the fallback decides, and it is given every inclusion
      description, not only the ones that mention a cell type. */
  lemma FallbackPath(t: Trial, findall: string -> seq<RegexMatch>, detect: Detector)
    requires |CellTypeText(InclusionDescriptions(t.unstructured))| > 0
    requires |RegexConditions(t, findall)| != 3
    ensures FindConditions(t, findall, detect)
            == MappingWithComprehend(InclusionDescriptions(t.unstructured), detect)
  {
    var matches := findall(CellTypeText(InclusionDescriptions(t.unstructured)));
    if |matches| == 0 {
      assert MatchPairs(matches) == [];
    }
  }

  /** Every condition key is a tracked cell type up to letter case (regex keys
      are the pattern's cell-type group, fallback keys are entity texts). */
  lemma ConditionKeysAreCellTypes(t: Trial, findall: string -> seq<RegexMatch>, detect: Detector)
    requires RegexYieldsCellTypes(findall)
    ensures forall i :: 0 <= i < |FindConditions(t, findall, detect)| ==>
              IsCellType(Lower(FindConditions(t, findall, detect)[i].0))
  {
    var description := CellTypeText(InclusionDescriptions(t.unstructured));
    var matches := findall(description);
    var conditions := PutAll([], MatchPairs(matches));
    forall i | 0 <= i < |conditions| ensures IsCellType(Lower(conditions[i].0)) {
      assert conditions[i].0 in KeySet(conditions);
      var j :| 0 <= j < |MatchPairs(matches)| && MatchPairs(matches)[j].0 == conditions[i].0;
      assert IsCellType(matches[j].cellType);
      LowerOfCellType(matches[j].cellType);
    }
  }

  lemma LowerOfCellType(s: string)
    requires IsCellType(s)
    ensures Lower(s) == s
  {
    assert forall i :: 0 <= i < |s| ==> 'a' <= s[i] <= 'z';
    LowerOfNoUpper(s);
  }

  lemma LowerOfNoUpper(s: string)
    requires forall i :: 0 <= i < |s| ==> !('A' <= s[i] <= 'Z')
    ensures Lower(s) == s
  {
    assert forall i :: 0 <= i < |s| ==> Lower(s)[i] == s[i];
  }
}
