/** Updating a stored response with the origin's answer to a revalidation
    request (src/lib.rs:786-867, section 4.3.4 of RFC 7234): a `304 Not
    Modified` whose validators select the stored response refreshes its
    header fields; anything else replaces it. */
module Revalidation {
  import opened Optional
  import opened Text
  import opened HeaderMap
  import opened CacheControl
  import opened CacheControlFormat
  import opened Policy
  import opened HeaderRewrite

  const NOT_MODIFIED: nat := 304

  /** Fields that describe the stored body, which a 304 does not replace
      (src/lib.rs:46-52). */
  const EXCLUDED_FROM_REVALIDATION_UPDATE: set<string> :=
    {"content-length", "content-encoding", "transfer-encoding", "content-range"}

  /** The first value of a field, trimmed. */
  function TrimmedValue(h: Headers, name: string): (r: Option<string>)
    ensures r.Some? <==> name in h
  {
    match Get(h, name)
    case None => None
    case Some(v) => Some(Trim(v))
  }

  /** An entity tag without its weak marks. */
  function Unweakened(etag: string): string {
    TrimStartMatches(etag, "W/")
  }

  /** The matching rule of src/lib.rs:794-835. The stored `Last-Modified` is
      read from the new response (src/lib.rs:796), so both sides of that
      comparison are the same value. */
  predicate ValidatorsMatch(p: CachePolicy, response: Response) {
    var oldEtag := TrimmedValue(p.res, ETAG);
    var oldLastModified := TrimmedValue(response.headers, LAST_MODIFIED);
    var newEtag := TrimmedValue(response.headers, ETAG);
    var newLastModified := TrimmedValue(response.headers, LAST_MODIFIED);
    if response.status != NOT_MODIFIED then false
    else if newEtag.Some? && !StartsWith(newEtag.value, "W/") then
      (if oldEtag.Some? then Some(Unweakened(oldEtag.value)) else None) == newEtag
    else if oldEtag.Some? && newEtag.Some? then
      Unweakened(oldEtag.value) == Unweakened(newEtag.value)
    else if oldLastModified.Some? then oldLastModified == newLastModified
    else oldEtag.None? && newEtag.None? && oldLastModified.None? && newLastModified.None?
  }

  /** Only a `304 Not Modified` can select the stored response. */
  lemma {:induction false} MatchIsNotModified(p: CachePolicy, response: Response)
    requires ValidatorsMatch(p, response)
    ensures response.status == NOT_MODIFIED
  {
  }

  /** A strong entity tag in the 304 selects the stored response exactly when
      the stored tag, without weak marks, is the same. */
  lemma {:induction false} StrongEtagMatch(p: CachePolicy, response: Response, etag: string)
    requires response.status == NOT_MODIFIED
    requires TrimmedValue(response.headers, ETAG) == Some(etag) && !StartsWith(etag, "W/")
    ensures ValidatorsMatch(p, response) <==>
      ETAG in p.res && Unweakened(Trim(p.res[ETAG][0])) == etag
  {
  }

  /** A weak entity tag in the 304 is compared with the stored one, both
      without weak marks. */
  lemma {:induction false} WeakEtagMatch(p: CachePolicy, response: Response, oldEtag: string, newEtag: string)
    requires response.status == NOT_MODIFIED
    requires TrimmedValue(p.res, ETAG) == Some(oldEtag)
    requires TrimmedValue(response.headers, ETAG) == Some(newEtag) && StartsWith(newEtag, "W/")
    ensures ValidatorsMatch(p, response) <==> Unweakened(oldEtag) == Unweakened(newEtag)
  {
  }

  /** A 304 with a strong entity tag never selects a stored response that has none. */
  lemma {:induction false} StrongEtagNeedsStoredEtag(p: CachePolicy, response: Response)
    requires ETAG !in p.res
    requires ETAG in response.headers && !StartsWith(Trim(response.headers[ETAG][0]), "W/")
    ensures !ValidatorsMatch(p, response)
  {
  }

  /** Since the stored `Last-Modified` is read from the new response, a 304
      without entity tags on either side selects the stored response
      whatever the two `Last-Modified` dates are. */
  lemma {:induction false} WithoutEtagsAlwaysMatch(p: CachePolicy, response: Response)
    requires response.status == NOT_MODIFIED
    requires ETAG !in p.res && ETAG !in response.headers
    ensures ValidatorsMatch(p, response)
  {
  }

  /** The value a stored field takes after a matching 304: the 304's first
      value, unless the 304 lacks the field or it describes the body; else
      the stored field's last value. */
  function MergedValue(stored: Headers, update: Headers, name: string): string
    requires name in stored
  {
    if name in update && name !in EXCLUDED_FROM_REVALIDATION_UPDATE then update[name][0] else Last(stored[name])
  }

  /** The stored fields refreshed from a matching 304. */
  function MergedHeaders(stored: Headers, update: Headers): Headers {
    map k | k in stored :: [MergedValue(stored, update, k)]
  }

  /** The fields merged so far: all but those in `pending`. */
  function MergedSoFar(stored: Headers, update: Headers, pending: set<string>): Headers {
    map k | k in stored && k !in pending :: [MergedValue(stored, update, k)]
  }

  lemma {:induction false} MergedSoFarStep(stored: Headers, update: Headers, pending: set<string>, name: string)
    requires name in pending && name in stored
    ensures MergedSoFar(stored, update, pending - {name}) ==
      MergedSoFar(stored, update, pending)[name := [MergedValue(stored, update, name)]]
  {
  }

  /** One stored field, value by value (src/lib.rs:835-844): each value is
      replaced by `replacement` when there is one. */
  method MergeField(merged: Headers, name: string, values: seq<string>, replacement: Option<string>)
    returns (r: Headers)
    requires values != []
    ensures r == merged[name := [replacement.GetOr(Last(values))]]
  {
    r := merged;
    for i := 0 to |values|
      invariant i == 0 ==> r == merged
      invariant i > 0 ==> r == Insert(merged, name, replacement.GetOr(values[i - 1]))
    {
      var v := if replacement.Some? then replacement.value else values[i];
      assert v == replacement.GetOr(values[i]);
      r := Insert(r, name, v);
      if i > 0 {
        InsertOverwrites(merged, name, replacement.GetOr(values[i - 1]), v);
      }
    }
  }

  lemma {:induction false} InsertOverwrites(h: Headers, name: string, a: string, b: string)
    ensures Insert(Insert(h, name, a), name, b) == Insert(h, name, b)
  {
  }

  /** The merge of src/lib.rs:831-846. */
  method MergeHeaders(stored: Headers, update: Headers) returns (merged: Headers)
    ensures merged == MergedHeaders(stored, update)
  {
    merged := map[];
    var names := stored.Keys;
    while names != {}
      invariant forall n :: n in names ==> n in stored
      invariant merged == MergedSoFar(stored, update, names)
      decreases |names|
    {
      var name :| name in names;
      MergedSoFarStep(stored, update, names, name);
      var newValue := Get(update, name);
      var replacement := if newValue.Some? && name !in EXCLUDED_FROM_REVALIDATION_UPDATE then newValue else None;
      merged := MergeField(merged, name, stored[name], replacement);
      names := names - {name};
    }
    MergedAll(stored, update);
  }

  lemma {:induction false} MergedAll(stored: Headers, update: Headers)
    ensures MergedSoFar(stored, update, {}) == MergedHeaders(stored, update)
  {
  }

  /** The merge keeps exactly the stored field names: a field only the 304
      has is not added. */
  lemma {:induction false} MergedNames(stored: Headers, update: Headers)
    ensures forall k :: k in MergedHeaders(stored, update) <==> k in stored
  {
  }

  /** A stored field the 304 also carries takes the 304's value, unless it
      describes the body. */
  lemma {:induction false} MergedRefreshed(stored: Headers, update: Headers, name: string)
    requires name in stored && name in update && name !in EXCLUDED_FROM_REVALIDATION_UPDATE
    ensures Get(MergedHeaders(stored, update), name) == Get(update, name)
    ensures GetAll(MergedHeaders(stored, update), name) == [update[name][0]]
  {
  }

  /** A field describing the body, or one the 304 lacks, keeps its stored
      (last) value. */
  lemma {:induction false} MergedKept(stored: Headers, update: Headers, name: string)
    requires name in stored && (name !in update || name in EXCLUDED_FROM_REVALIDATION_UPDATE)
    ensures GetAll(MergedHeaders(stored, update), name) == [Last(stored[name])]
  {
  }

  /** The outcome of `after_response`: the new policy and the response to
      serve, and whether the stored body is still the right one. */
  datatype AfterResponseOutcome =
    | NotModified(policy: CachePolicy, response: ResponseParts)
    | Modified(policy: CachePolicy, response: ResponseParts)

  /** The status and headers the new policy is built from. */
  function UpdatedResponse(p: CachePolicy, response: Response): Response {
    if ValidatorsMatch(p, response) then Response(p.status, MergedHeaders(p.res, response.headers))
    else response
  }

  /** `after_response` (src/lib.rs:786-867); `parseDate` and `fmtDate` stand
      for `httpdate`. */
  method AfterResponse(p: CachePolicy, request: Request, response: Response, responseTime: Time,
                       parseDate: DateParser, fmtDate: Time -> string)
    returns (r: AfterResponseOutcome, ghost order: seq<string>)
    ensures var u := UpdatedResponse(p, response);
      var cc := ParsedCacheControl(GetAll(u.headers, CACHE_CONTROL));
      && (IsCargoCult(p.opts, cc) ==> Enumerates(Stripped(cc), order))
      && r.policy == Details(request.uri, request.httpMethod, u.status, request.headers, u.headers,
                             responseTime, p.opts, order)
    ensures r.response == ResponseParts(r.policy.status, CachedHeaders(r.policy, responseTime, parseDate, fmtDate))
    ensures r.NotModified? <==> response.status == NOT_MODIFIED && ValidatorsMatch(p, response)
  {
    var matches := ValidatorsMatch(p, response);
    var status := response.status;
    var headers := response.headers;
    if matches {
      headers := MergeHeaders(p.res, response.headers);
      status := p.status;
    }
    var newPolicy;
    newPolicy, order := FromDetails(request.uri, request.httpMethod, status, request.headers, headers,
                                    responseTime, p.opts);
    var newResponse := CachedResponse(newPolicy, responseTime, parseDate, fmtDate);
    if matches && response.status == NOT_MODIFIED {
      r := NotModified(newPolicy, newResponse);
    } else {
      r := Modified(newPolicy, newResponse);
    }
  }

  /** After a matching 304 the new policy keeps the stored status and the
      stored field names; otherwise it is built from the new response as is. */
  lemma {:induction false} UpdatedResponseFields(p: CachePolicy, response: Response)
    ensures var u := UpdatedResponse(p, response);
      && (ValidatorsMatch(p, response) ==> u.status == p.status && forall k :: k in u.headers <==> k in p.res)
      && (!ValidatorsMatch(p, response) ==> u == response)
  {
    MergedNames(p.res, response.headers);
  }
}
