/** Whether a stored response may answer a new request (src/lib.rs:412-520):
    the request must name the same resource and agree on the fields the
    response varies on (section 4.1 of RFC 7234), and the response must be
    fresh enough for the request's own `Cache-Control` (section 5.2.1 of
    RFC 7234). Otherwise the request goes to the origin, made conditional
    when the stored response can be revalidated. */
module Reuse {
  import opened Optional
  import opened Text
  import opened HeaderMap
  import opened CacheControl
  import opened Policy
  import opened Storability
  import opened Freshness
  import opened HeaderRewrite

  /** The request field a `Vary` item names, as the lookup spells it. */
  function VaryName(item: string): string {
    AsciiLower(Trim(item))
  }

  /** The items of the stored response's `Vary` fields. */
  function VaryItems(p: CachePolicy): seq<string> {
    GetAllComma(GetAll(p.res, VARY))
  }

  /** The `Vary` item is not `*`, and the new request has the same value as
      the stored one for the field it names. */
  predicate Agrees(p: CachePolicy, incoming: Headers, item: string) {
    item != "*" && Get(incoming, VaryName(item)) == Get(p.req, VaryName(item))
  }

  /** The new request agrees with the stored one on every one of `items`. */
  predicate AgreesOnAll(p: CachePolicy, incoming: Headers, items: seq<string>) {
    forall i :: 0 <= i < |items| ==> Agrees(p, incoming, items[i])
  }

  /** The new request agrees with the stored one on every field the response
      varies on, and the response does not vary on `*`. */
  predicate VaryMatch(p: CachePolicy, incoming: Headers) {
    AgreesOnAll(p, incoming, VaryItems(p))
  }

  /** The loop of `vary_matches` (src/lib.rs:509-518): the first item that is
      `*` or on which the requests differ ends it with `false`. */
  method CheckAgreement(p: CachePolicy, incoming: Headers, items: seq<string>) returns (r: bool)
    ensures r == AgreesOnAll(p, incoming, items)
  {
    for i := 0 to |items|
      invariant AgreesOnAll(p, incoming, items[..i])
    {
      if items[i] == "*" {
        assert !Agrees(p, incoming, items[i]);
        return false;
      }
      var name := VaryName(items[i]);
      if Get(incoming, name) != Get(p.req, name) {
        assert !Agrees(p, incoming, items[i]);
        return false;
      }
      AgreesOnAllSnoc(p, incoming, items, i);
    }
    assert items[..|items|] == items;
    return true;
  }

  lemma {:induction false} AgreesOnAllSnoc(p: CachePolicy, incoming: Headers, items: seq<string>, i: nat)
    requires i < |items| && AgreesOnAll(p, incoming, items[..i]) && Agrees(p, incoming, items[i])
    ensures AgreesOnAll(p, incoming, items[..i + 1])
  {
    var t := items[..i + 1];
    forall j | 0 <= j < |t|
      ensures Agrees(p, incoming, t[j])
    {
      if j < i {
        assert t[j] == items[..i][j];
      }
    }
  }

  /** `vary_matches` (src/lib.rs:508-520). */
  method VaryMatches(p: CachePolicy, incoming: Headers) returns (r: bool)
    ensures r == VaryMatch(p, incoming)
  {
    r := CheckAgreement(p, incoming, GetAllComma(GetAll(p.res, VARY)));
  }

  /** `Vary: *` matches no request at all. */
  lemma {:induction false} VaryStarNeverMatches(p: CachePolicy, incoming: Headers)
    requires "*" in VaryItems(p)
    ensures !VaryMatch(p, incoming)
  {
    var i :| 0 <= i < |VaryItems(p)| && VaryItems(p)[i] == "*";
  }

  /** Without `Vary`, every request matches. */
  lemma {:induction false} NoVaryAlwaysMatches(p: CachePolicy, incoming: Headers)
    requires VARY !in p.res
    ensures VaryMatch(p, incoming)
  {
    assert VaryItems(p) == [];
  }

  /** The stored request matches itself, unless the response varies on `*`. */
  lemma {:induction false} VaryReflexive(p: CachePolicy)
    requires "*" !in VaryItems(p)
    ensures VaryMatch(p, p.req)
  {
  }

  /** The outcome of `request_matches`: the request may be answered from
      this entry, and may at least be revalidated with it. */
  datatype Matching = Matching(exact: bool, mayRevalidate: bool)

  /** Same URI, same `Host` and the same varied fields. */
  predicate SameResource(p: CachePolicy, incoming: Request) {
    incoming.uri == p.uri && Get(p.req, HOST) == Get(incoming.headers, HOST) && VaryMatch(p, incoming.headers)
  }

  /** `request_matches` (src/lib.rs:488-498). */
  function RequestMatches(p: CachePolicy, incoming: Request): (r: Matching)
    ensures r.exact ==> r.mayRevalidate
    ensures r.exact <==> SameResource(p, incoming) && incoming.httpMethod == p.httpMethod
    ensures r.mayRevalidate <==> r.exact || incoming.httpMethod == HEAD
  {
    var matches := SameResource(p, incoming);
    var exact := matches && p.httpMethod == incoming.httpMethod;
    Matching(exact, exact || HEAD == incoming.httpMethod)
  }

  /** The stored request itself is an exact match, unless `Vary: *`. */
  lemma {:induction false} StoredRequestMatches(p: CachePolicy)
    requires "*" !in VaryItems(p)
    ensures RequestMatches(p, Request(p.httpMethod, p.uri, p.req)) == Matching(true, true)
  {
    VaryReflexive(p);
  }

  /** A `HEAD` request may always revalidate, even for another resource. */
  lemma {:induction false} HeadMayRevalidate(p: CachePolicy, incoming: Request)
    requires incoming.httpMethod == HEAD
    ensures RequestMatches(p, incoming).mayRevalidate
  {
  }

  /** A request for another URI never matches exactly. */
  lemma {:induction false} OtherUriNeverMatches(p: CachePolicy, incoming: Request)
    requires incoming.uri != p.uri
    ensures !RequestMatches(p, incoming).exact
    ensures RequestMatches(p, incoming).mayRevalidate <==> incoming.httpMethod == HEAD
  {
  }

  /** A directive's value, read as a `u64` number of seconds. */
  function Seconds(cc: Directives, name: string): Option<nat> {
    if name in cc && cc[name].Some? then ParseU64(cc[name].value) else None
  }

  /** The request's own directives. */
  function RequestDirectives(reqHeaders: Headers): Directives {
    ParsedCacheControl(GetAll(reqHeaders, CACHE_CONTROL))
  }

  /** `satisfies_without_revalidation` (src/lib.rs:433-486). */
  predicate SatisfiesWithoutRevalidation(p: CachePolicy, reqHeaders: Headers, now: Time, parseDate: DateParser) {
    var reqCc := RequestDirectives(reqHeaders);
    var age := AgeAt(p, now);
    if NO_CACHE in reqCc || PragmaNoCache(reqHeaders) then false
    else if Seconds(reqCc, "max-age").Some? && age > Seconds(reqCc, "max-age").value then false
    else if Seconds(reqCc, "min-fresh").Some? && TimeToLive(p, now, parseDate) < Seconds(reqCc, "min-fresh").value then false
    else if IsStale(p, now, parseDate) then
      var overdue: nat := age - MaxAge(p, parseDate);
      && MUST_REVALIDATE !in p.resCc
      && "max-stale" in reqCc
      && (Seconds(reqCc, "max-stale").None? || Seconds(reqCc, "max-stale").value > overdue)
    else true
  }

  /** A request with `no-cache`, in `Cache-Control` or in `Pragma`, is never
      answered from the cache. */
  lemma {:induction false} NoCacheNeverSatisfied(p: CachePolicy, reqHeaders: Headers, now: Time, parseDate: DateParser)
    requires NO_CACHE in RequestDirectives(reqHeaders) || PragmaNoCache(reqHeaders)
    ensures !SatisfiesWithoutRevalidation(p, reqHeaders, now, parseDate)
  {
  }

  /** A reused response respects the request's `max-age` and `min-fresh`. */
  lemma {:induction false} SatisfiedWithinRequestBounds(p: CachePolicy, reqHeaders: Headers, now: Time, parseDate: DateParser)
    requires SatisfiesWithoutRevalidation(p, reqHeaders, now, parseDate)
    ensures var reqCc := RequestDirectives(reqHeaders);
      && (Seconds(reqCc, "max-age").Some? ==> AgeAt(p, now) <= Seconds(reqCc, "max-age").value)
      && (Seconds(reqCc, "min-fresh").Some? ==> TimeToLive(p, now, parseDate) >= Seconds(reqCc, "min-fresh").value)
  {
  }

  /** A stale response is reused only when the request sends `max-stale`,
      the response does not demand `must-revalidate`, and the response is
      stale by less than a `max-stale` value given. */
  lemma {:induction false} StaleNeedsMaxStale(p: CachePolicy, reqHeaders: Headers, now: Time, parseDate: DateParser)
    requires SatisfiesWithoutRevalidation(p, reqHeaders, now, parseDate)
    requires IsStale(p, now, parseDate)
    ensures var reqCc := RequestDirectives(reqHeaders);
      && MUST_REVALIDATE !in p.resCc
      && "max-stale" in reqCc
      && (Seconds(reqCc, "max-stale").Some? ==> AgeAt(p, now) < MaxAge(p, parseDate) + Seconds(reqCc, "max-stale").value)
  {
  }

  /** A fresh response is reused when the request sets no limit of its own. */
  lemma {:induction false} FreshSatisfies(p: CachePolicy, reqHeaders: Headers, now: Time, parseDate: DateParser)
    requires !IsStale(p, now, parseDate)
    requires var reqCc := RequestDirectives(reqHeaders);
      NO_CACHE !in reqCc && !PragmaNoCache(reqHeaders)
      && Seconds(reqCc, "max-age").None? && Seconds(reqCc, "min-fresh").None?
    ensures SatisfiesWithoutRevalidation(p, reqHeaders, now, parseDate)
  {
  }

  /** A request with a bare `max-stale` takes any stale response the origin
      did not mark `must-revalidate`. */
  lemma {:induction false} BareMaxStaleSatisfies(p: CachePolicy, reqHeaders: Headers, now: Time, parseDate: DateParser)
    requires IsStale(p, now, parseDate) && MUST_REVALIDATE !in p.resCc
    requires var reqCc := RequestDirectives(reqHeaders);
      NO_CACHE !in reqCc && !PragmaNoCache(reqHeaders)
      && Seconds(reqCc, "max-age").None? && Seconds(reqCc, "min-fresh").None?
      && "max-stale" in reqCc && reqCc["max-stale"].None?
    ensures SatisfiesWithoutRevalidation(p, reqHeaders, now, parseDate)
  {
  }

  /** The outcome of `before_request`. */
  datatype BeforeRequestDecision =
    | Fresh(response: ResponseParts)
    | Stale(request: RequestParts, matches: bool)

  /** `before_request` (src/lib.rs:412-431); `now` stands for the caller's clock. */
  method BeforeRequest(p: CachePolicy, incoming: Request, now: Time, parseDate: DateParser, fmtDate: Time -> string)
    returns (r: BeforeRequestDecision)
    ensures var m := RequestMatches(p, incoming);
      r.Fresh? <==> m.exact && SatisfiesWithoutRevalidation(p, incoming.headers, now, parseDate)
    ensures r.Fresh? ==> r.response == ResponseParts(p.status, CachedHeaders(p, now, parseDate, fmtDate))
    ensures r.Stale? ==> r.matches == RequestMatches(p, incoming).exact
    ensures r.Stale? && RequestMatches(p, incoming).mayRevalidate ==>
      r.request == RequestFromHeaders(p, RevalidationHeaders(p, incoming.headers))
    ensures r.Stale? && !RequestMatches(p, incoming).mayRevalidate ==>
      r.request == RequestFromHeaders(p, incoming.headers)
  {
    var m := RequestMatches(p, incoming);
    if m.exact && SatisfiesWithoutRevalidation(p, incoming.headers, now, parseDate) {
      var response := CachedResponse(p, now, parseDate, fmtDate);
      r := Fresh(response);
    } else if m.mayRevalidate {
      var request := RevalidationRequest(p, incoming);
      r := Stale(request, m.exact);
    } else {
      r := Stale(RequestFromHeaders(p, incoming.headers), m.exact);
    }
  }
}
