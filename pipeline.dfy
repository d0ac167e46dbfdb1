/**
 * `main`: check the fetched page, extract and decode the blocks, format every configured group
 * and assemble the output document. Any failure aborts the run with no output.
 */
module Pipeline {
  import opened Wrappers
  import opened Text
  import opened Extractor
  import opened Schedule

  /** The substring a real content page contains and the smallest length it can have. */
  const Sentinel: string := "DisconSchedule"
  const MinPageLength := 1000
  /** `update_time` when the fact object has no `update` field. */
  const UnknownUpdate: string := "unknown"

  datatype PipelineError =
    | FetchError(status: int)  // the response status was not 200
    | ProtectionDetected       // the body is a protection page, not the site's content
    | ExtractError             // the fact marker is missing
    | DecodeError              // an extracted block is not valid JSON

  /** The output document, less its `fetched_at` clock reading. */
  datatype Output = Output(updateTime: string, groups: map<string, Days>)

  /** The guard of `fetch_dtek_page`: long enough and mentioning the sentinel. */
  predicate Plausible(body: string) {
    |body| >= MinPageLength && Contains(body, Sentinel)
  }

  /** Any page holding the fact marker mentions the sentinel, so the guard never rejects a page
      for lacking the sentinel when the extractor could succeed on it. */
  lemma FactMarkerHasSentinel(body: string)
    requires Contains(body, FactMarker)
    ensures Contains(body, Sentinel)
  {
    ContainsPrefix(body, FactMarker, |Sentinel|);
    assert FactMarker[..|Sentinel|] == Sentinel;
  }

  /** What `main` promises of its output: `update_time` is `fact["update"]` or "unknown", and
      `groups` holds exactly the configured groups with non-empty days, each mapped to its days. */
  ghost predicate AssembledFrom(out: Output, fact: FactDoc, groups: seq<string>, dateOf: int -> string) {
    && out.updateTime == fact.update.GetOr(UnknownUpdate)
    && (forall g :: g in out.groups <==> g in groups && DaysOf(fact, g, dateOf) != map[])
    && (forall g :: g in out.groups ==> out.groups[g] == DaysOf(fact, g, dateOf))
  }

  /** The output dict of `main` and its loop over the configured groups. */
  method AssembleOutput(fact: FactDoc, groups: seq<string>, dateOf: int -> string) returns (out: Output)
    ensures AssembledFrom(out, fact, groups, dateOf)
  {
    var updateTime := fact.update.GetOr(UnknownUpdate);
    var result: map<string, Days> := map[];
    for k := 0 to |groups|
      invariant forall g :: g in result <==> g in groups[..k] && DaysOf(fact, g, dateOf) != map[]
      invariant forall g :: g in result ==> result[g] == DaysOf(fact, g, dateOf)
    {
      assert groups[..k + 1] == groups[..k] + [groups[k]];
      var group := groups[k];
      var formatted := FormatScheduleForGroup(fact, group, dateOf);
      if formatted != map[] {
        result := result[group := formatted];
      }
    }
    assert groups[..|groups|] == groups;
    out := Output(updateTime, result);
  }

  /** The output is determined by the fact document and the configured groups. */
  lemma AssembledUnique(o1: Output, o2: Output, fact: FactDoc, groups: seq<string>, dateOf: int -> string)
    requires AssembledFrom(o1, fact, groups, dateOf) && AssembledFrom(o2, fact, groups, dateOf)
    ensures o1 == o2
  {
    assert o1.groups == o2.groups;
  }

  /** A configured group appears exactly when some timestamp of `data` has it, never with an
      empty value. */
  lemma AssembledGroups(out: Output, fact: FactDoc, groups: seq<string>, dateOf: int -> string, g: string)
    requires AssembledFrom(out, fact, groups, dateOf)
    ensures g in out.groups <==> (g in groups && fact.data.Some?
      && exists i :: 0 <= i < |fact.data.value| && g in fact.data.value[i].1)
    ensures g in out.groups ==> out.groups[g] != map[]
  {
    DaysEmpty(fact, g, dateOf);
  }

  /** The fact text `parse_schedule` hands to `json.loads`: empty when the braces never balance. */
  ghost predicate FactBlock(html: string, fact: string) {
    BlockAfter(html, FactMarker, if fact == "" then None else Some(fact))
  }

  /** The fact text handed to the decoder is determined by the page. */
  lemma FactBlockUnique(html: string, f1: string, f2: string)
    requires FactBlock(html, f1) && FactBlock(html, f2)
    ensures f1 == f2
  {
    if f1 != "" && f2 != "" {
      BlockAfterUnique(html, FactMarker, f1, f2);
    } else if f1 != "" {
      BlockAfterExclusive(html, FactMarker, f1);
    } else if f2 != "" {
      BlockAfterExclusive(html, FactMarker, f2);
    }
  }

  /** A preset object was extracted and the decoder rejects it. */
  ghost predicate PresetRejected(html: string, presetIsJson: string -> bool) {
    exists p :: BlockAfter(html, PresetMarker, Some(p)) && !presetIsJson(p)
  }

  /** One run of `main` on a response: `decodeFact` and `presetIsJson` stand for `json.loads`
      on the fact and preset texts, `dateOf` for the local-time date of a timestamp. Like
      `json.loads`, `decodeFact` rejects the empty text. */
  method Run(status: int, body: string, groups: seq<string>, dateOf: int -> string,
             decodeFact: string -> Option<FactDoc>, presetIsJson: string -> bool)
    returns (r: Result<Output, PipelineError>)
    requires decodeFact("").None?
    ensures r == Failure(FetchError(status)) <==> status != 200
    ensures r == Failure(ProtectionDetected) <==> status == 200 && !Plausible(body)
    ensures r == Failure(ExtractError) <==> status == 200 && Plausible(body) && !Contains(body, FactMarker)
    ensures r == Failure(DecodeError) <==>
      && status == 200 && Plausible(body)
      && exists fact :: FactBlock(body, fact) && (decodeFact(fact).None? || PresetRejected(body, presetIsJson))
    ensures r.Success? <==>
      && status == 200 && Plausible(body) && Contains(body, FactMarker)
      && !PresetRejected(body, presetIsJson)
      && exists fact :: FactBlock(body, fact) && decodeFact(fact).Some?
    ensures status == 200 && Plausible(body) && FactBlock(body, "") ==> r == Failure(DecodeError)
    ensures r.Success? ==>
      && exists fact :: (FactBlock(body, fact) && decodeFact(fact).Some?
        && AssembledFrom(r.value, decodeFact(fact).value, groups, dateOf))
  {
    if status != 200 {
      return Failure(FetchError(status));
    }
    if !Plausible(body) {
      return Failure(ProtectionDetected);
    }
    var blocks := ExtractBlocks(body);
    if blocks.Failure? {
      return Failure(ExtractError);
    }
    var fact := blocks.value.fact;
    assert FactBlock(body, fact);
    var decoded := decodeFact(fact);
    if decoded.None? {
      return Failure(DecodeError);
    }
    match blocks.value.preset {
      case Some(p) =>
        if !presetIsJson(p) {
          return Failure(DecodeError);
        }
        forall q | BlockAfter(body, PresetMarker, Some(q)) ensures presetIsJson(q) {
          BlockAfterUnique(body, PresetMarker, p, q);
        }
      case None =>
        forall q ensures !BlockAfter(body, PresetMarker, Some(q)) {
          if Contains(body, PresetMarker) {
            BlockAfterExclusive(body, PresetMarker, q);
          }
        }
    }
    forall f | FactBlock(body, f) ensures f == fact {
      FactBlockUnique(body, f, fact);
    }
    var out := AssembleOutput(decoded.value, groups, dateOf);
    r := Success(out);
  }
}
