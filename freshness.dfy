/** How old a stored response is and how long it stays fresh
    (src/lib.rs:589-707): sections 4.2.1 to 4.2.3 of RFC 7234, with
    `immutable` (RFC 8246) as a floor on the lifetime. */
module Freshness {
  import opened Optional
  import opened Text
  import opened HeaderMap
  import opened CacheControl
  import opened Fractions
  import opened Options
  import opened Policy
  import opened Storability

  /** `age_header_value` (src/lib.rs:609-616): the first `Age` value read as
      a `u64`, or 0 when it is missing or not a number. */
  function AgeHeaderValue(p: CachePolicy): (r: nat)
    ensures AGE !in p.res ==> r == 0
    ensures AGE in p.res && ParseU64(p.res[AGE][0]).Some? ==> r == ParseU64(p.res[AGE][0]).value
    ensures AGE in p.res && ParseU64(p.res[AGE][0]).None? ==> r == 0
  {
    match Get(p.res, AGE)
    case None => 0
    case Some(v) => ParseU64(v).GetOr(0)
  }

  /** The time spent in this cache since the response arrived, or 0 before it arrived. */
  function ResidentTime(p: CachePolicy, now: Time): nat {
    if now >= p.responseTime then now - p.responseTime else 0
  }

  /** What `age` returns: the `Age` header plus the resident time. */
  function AgeAt(p: CachePolicy, now: Time): nat {
    AgeHeaderValue(p) + ResidentTime(p, now)
  }

  /** `CachePolicy::age` (src/lib.rs:600-607). */
  method Age(p: CachePolicy, now: Time) returns (age: nat)
    ensures age == AgeAt(p, now)
    ensures now >= p.responseTime ==> age == AgeHeaderValue(p) + (now - p.responseTime)
    ensures now < p.responseTime ==> age == AgeHeaderValue(p)
  {
    age := AgeHeaderValue(p);
    if now >= p.responseTime {
      age := age + (now - p.responseTime);
    }
  }

  /** The age never goes down as time passes, and grows with it once the
      response has arrived. */
  lemma {:induction false} AgeMonotone(p: CachePolicy, t1: Time, t2: Time)
    requires t1 <= t2
    ensures AgeAt(p, t1) <= AgeAt(p, t2)
    ensures t1 >= p.responseTime ==> AgeAt(p, t2) == AgeAt(p, t1) + (t2 - t1)
  {
  }

  /** `raw_server_date` (src/lib.rs:589-595): the parsed `Date` header, or
      the time the response arrived. */
  function RawServerDate(p: CachePolicy, parseDate: DateParser): (r: Time)
    ensures DATE !in p.res ==> r == p.responseTime
  {
    match Get(p.res, DATE)
    case None => p.responseTime
    case Some(d) => parseDate(d).GetOr(p.responseTime)
  }

  /** The server date is the `Date` field when it parses as a date, and the
      arrival time when it is missing or does not parse. */
  lemma {:induction false} ServerDateFromDate(p: CachePolicy, parseDate: DateParser)
    ensures DATE in p.res && parseDate(p.res[DATE][0]).Some? ==>
      RawServerDate(p, parseDate) == parseDate(p.res[DATE][0]).value
    ensures DATE in p.res && parseDate(p.res[DATE][0]).None? ==>
      RawServerDate(p, parseDate) == p.responseTime
  {
  }

  /** A directive's value read as a `u64` seconds count, 0 when it is not one. */
  function SecondsOr0(v: string): nat {
    ParseU64(v).GetOr(0)
  }

  /** The directive is present with a value. */
  predicate HasValue(cc: Directives, name: string) {
    name in cc && cc[name].Some?
  }

  /** The cases in which `max_age` is 0 before any lifetime is looked at
      (src/lib.rs:624-649): not storable, `no-cache`, a shared cache and a
      `Set-Cookie` with neither `public` nor `immutable`, a first `Vary`
      value of `*`, or a shared cache and `proxy-revalidate`. */
  predicate NeverFresh(p: CachePolicy) {
    || !IsStorable(p)
    || NO_CACHE in p.resCc
    || (p.opts.privacy == Shared && SET_COOKIE in p.res && "public" !in p.resCc && "immutable" !in p.resCc)
    || (VARY in p.res && Trim(p.res[VARY][0]) == "*")
    || (p.opts.privacy == Shared && "proxy-revalidate" in p.resCc)
  }

  /** The floor `immutable` puts on the lifetimes derived from dates. */
  function DefaultMinTtl(p: CachePolicy): nat {
    if "immutable" in p.resCc then p.opts.immutableMinTimeToLive else 0
  }

  /** The lifetime taken from dates: `Expires` minus the server date (0 when
      `Expires` is not a date), else the heuristic share of the time since
      `Last-Modified`, each at least the `immutable` floor. */
  function DateLifetime(p: CachePolicy, parseDate: DateParser): nat {
    var serverDate := RawServerDate(p, parseDate);
    var floor := DefaultMinTtl(p);
    match Get(p.res, EXPIRES)
    case Some(expires) =>
      (match parseDate(expires)
       case None => 0
       case Some(e) => Max(floor, if e >= serverDate then e - serverDate else 0))
    case None =>
      match Get(p.res, LAST_MODIFIED)
      case Some(lm) =>
        (match parseDate(lm)
         case Some(l) =>
           if serverDate >= l then Max(floor, p.opts.cacheHeuristic.Of(serverDate - l)) else floor
         case None => floor)
      case None => floor
  }

  function Max(a: nat, b: nat): nat {
    if a >= b then a else b
  }

  /** `max_age` (src/lib.rs:623-684): the freshness lifetime, counted from
      the time the response was generated. */
  function MaxAge(p: CachePolicy, parseDate: DateParser): (r: nat)
    ensures NeverFresh(p) ==> r == 0
    ensures !NeverFresh(p) && p.opts.privacy == Shared && HasValue(p.resCc, "s-maxage") ==>
      r == SecondsOr0(p.resCc["s-maxage"].value)
  {
    if NeverFresh(p) then 0
    else if p.opts.privacy == Shared && HasValue(p.resCc, "s-maxage") then
      SecondsOr0(p.resCc["s-maxage"].value)
    else if HasValue(p.resCc, "max-age") then
      SecondsOr0(p.resCc["max-age"].value)
    else
      DateLifetime(p, parseDate)
  }

  /** `max-age` counts when there is no `s-maxage` a shared cache would use,
      and then `Expires` and `Last-Modified` are ignored. */
  lemma {:induction false} MaxAgeOverExpires(p: CachePolicy, parseDate: DateParser)
    requires !NeverFresh(p) && HasValue(p.resCc, "max-age")
    requires p.opts.privacy == Private || !HasValue(p.resCc, "s-maxage")
    ensures MaxAge(p, parseDate) == SecondsOr0(p.resCc["max-age"].value)
  {
  }

  /** `Expires` that is not a date means already expired, even for `immutable`
      (section 5.3 of RFC 7234). */
  lemma {:induction false} InvalidExpiresExpired(p: CachePolicy, parseDate: DateParser)
    requires !HasValue(p.resCc, "s-maxage") && !HasValue(p.resCc, "max-age")
    requires EXPIRES in p.res && parseDate(p.res[EXPIRES][0]).None?
    ensures MaxAge(p, parseDate) == 0
  {
  }

  /** Otherwise an `immutable` response is fresh for at least the configured time. */
  lemma {:induction false} ImmutableFloor(p: CachePolicy, parseDate: DateParser)
    requires !NeverFresh(p) && "immutable" in p.resCc
    requires !HasValue(p.resCc, "s-maxage") && !HasValue(p.resCc, "max-age")
    requires EXPIRES in p.res ==> parseDate(p.res[EXPIRES][0]).Some?
    ensures MaxAge(p, parseDate) >= p.opts.immutableMinTimeToLive
  {
  }

  /** Without `s-maxage` or `max-age`, a valid `Expires` gives its distance
      past the server date (0 when it is not later), at least the
      `immutable` floor, whatever `Last-Modified` says. */
  lemma {:induction false} ExpiresLifetime(p: CachePolicy, parseDate: DateParser, e: Time)
    requires !NeverFresh(p)
    requires p.opts.privacy == Private || !HasValue(p.resCc, "s-maxage")
    requires !HasValue(p.resCc, "max-age")
    requires EXPIRES in p.res && parseDate(p.res[EXPIRES][0]) == Some(e)
    ensures var serverDate := RawServerDate(p, parseDate);
      MaxAge(p, parseDate) == Max(DefaultMinTtl(p), if e >= serverDate then e - serverDate else 0)
  {
  }

  /** With no explicit lifetime, no `Expires`, and no `Last-Modified` date at
      or before the server date, the lifetime is the `immutable` floor: the
      configured time for `immutable`, otherwise 0. */
  lemma {:induction false} FloorOnly(p: CachePolicy, parseDate: DateParser)
    requires !NeverFresh(p)
    requires p.opts.privacy == Private || !HasValue(p.resCc, "s-maxage")
    requires !HasValue(p.resCc, "max-age")
    requires EXPIRES !in p.res
    requires LAST_MODIFIED in p.res ==>
      match parseDate(p.res[LAST_MODIFIED][0])
      case None => true
      case Some(l) => RawServerDate(p, parseDate) < l
    ensures MaxAge(p, parseDate) == if "immutable" in p.resCc then p.opts.immutableMinTimeToLive else 0
  {
  }

  /** With only `Last-Modified` to go by, the lifetime is the heuristic share
      of the time between it and the server date, which is at most that time
      when the share is at most one. */
  lemma {:induction false} HeuristicLifetime(p: CachePolicy, parseDate: DateParser, l: Time)
    requires !NeverFresh(p) && "immutable" !in p.resCc
    requires !HasValue(p.resCc, "s-maxage") && !HasValue(p.resCc, "max-age")
    requires EXPIRES !in p.res && LAST_MODIFIED in p.res
    requires parseDate(p.res[LAST_MODIFIED][0]) == Some(l)
    requires RawServerDate(p, parseDate) >= l
    ensures MaxAge(p, parseDate) == p.opts.cacheHeuristic.Of(RawServerDate(p, parseDate) - l)
    ensures p.opts.cacheHeuristic.numerator <= p.opts.cacheHeuristic.denominator ==>
      MaxAge(p, parseDate) <= RawServerDate(p, parseDate) - l
  {
    HeuristicValue(p, parseDate, l);
    var f := p.opts.cacheHeuristic;
    if f.numerator <= f.denominator {
      OfAtMost(f, RawServerDate(p, parseDate) - l);
    }
  }

  lemma {:induction false} HeuristicValue(p: CachePolicy, parseDate: DateParser, l: Time)
    requires !NeverFresh(p) && "immutable" !in p.resCc
    requires !HasValue(p.resCc, "s-maxage") && !HasValue(p.resCc, "max-age")
    requires EXPIRES !in p.res && LAST_MODIFIED in p.res
    requires parseDate(p.res[LAST_MODIFIED][0]) == Some(l)
    requires RawServerDate(p, parseDate) >= l
    ensures MaxAge(p, parseDate) == p.opts.cacheHeuristic.Of(RawServerDate(p, parseDate) - l)
  {
    MaxAgeFromDates(p, parseDate);
    DatesFromLastModified(p, parseDate, p.res[LAST_MODIFIED][0], l);
    assert DefaultMinTtl(p) == 0;
  }

  /** Without `Expires`, a parsable `Last-Modified` before the server date
      gives the larger of the floor and the heuristic share. */
  lemma {:induction false} DatesFromLastModified(p: CachePolicy, parseDate: DateParser, lm: string, l: Time)
    requires Get(p.res, EXPIRES) == None && Get(p.res, LAST_MODIFIED) == Some(lm)
    requires parseDate(lm) == Some(l) && RawServerDate(p, parseDate) >= l
    ensures DateLifetime(p, parseDate) == Max(DefaultMinTtl(p), p.opts.cacheHeuristic.Of(RawServerDate(p, parseDate) - l))
  {
  }

  /** Without `s-maxage` or `max-age` to use, the lifetime comes from the dates. */
  lemma {:induction false} MaxAgeFromDates(p: CachePolicy, parseDate: DateParser)
    requires !NeverFresh(p)
    requires p.opts.privacy == Private || !HasValue(p.resCc, "s-maxage")
    requires !HasValue(p.resCc, "max-age")
    ensures MaxAge(p, parseDate) == DateLifetime(p, parseDate)
  {
  }

  /** `time_to_live` (src/lib.rs:698-702): what is left of the lifetime, or 0. */
  function TimeToLive(p: CachePolicy, now: Time, parseDate: DateParser): (r: nat)
    ensures r + AgeAt(p, now) >= MaxAge(p, parseDate)
    ensures r > 0 ==> r + AgeAt(p, now) == MaxAge(p, parseDate)
  {
    var maxAge := MaxAge(p, parseDate);
    var age := AgeAt(p, now);
    if maxAge >= age then maxAge - age else 0
  }

  /** `is_stale` (src/lib.rs:705-707). */
  predicate IsStale(p: CachePolicy, now: Time, parseDate: DateParser) {
    MaxAge(p, parseDate) <= AgeAt(p, now)
  }

  /** A response is stale exactly when no time to live is left. */
  lemma {:induction false} StaleIffNoTimeToLive(p: CachePolicy, now: Time, parseDate: DateParser)
    ensures IsStale(p, now, parseDate) <==> TimeToLive(p, now, parseDate) == 0
  {
  }

  /** Once stale, a response stays stale, and the time to live only shrinks. */
  lemma {:induction false} StaysStale(p: CachePolicy, t1: Time, t2: Time, parseDate: DateParser)
    requires t1 <= t2
    ensures TimeToLive(p, t2, parseDate) <= TimeToLive(p, t1, parseDate)
    ensures IsStale(p, t1, parseDate) ==> IsStale(p, t2, parseDate)
  {
    AgeMonotone(p, t1, t2);
  }
}
