/** Whether a response may be stored at all (src/lib.rs:361-399, 501-506):
    section 3 of RFC 7234, with section 3.2 for requests carrying
    `Authorization`. */
module Storability {
  import opened HeaderMap
  import opened CacheControl
  import opened Options
  import opened Policy

  /** Statuses cacheable by default (section 6.1 of RFC 7231; src/lib.rs:26-27). */
  const STATUS_CODE_CACHEABLE_BY_DEFAULT: set<nat> := {200, 203, 204, 206, 300, 301, 308, 404, 405, 410, 414, 501}

  /** Statuses the policy understands: not 206, since partial responses are
      not handled (src/lib.rs:29-32). */
  const UNDERSTOOD_STATUSES: set<nat> := {200, 203, 204, 300, 301, 302, 303, 307, 308, 404, 405, 410, 414, 501}

  const GET := "GET"
  const HEAD := "HEAD"
  const POST := "POST"

  /** `has_explicit_expiration` (src/lib.rs:394-399): a lifetime given by
      `s-maxage` (shared caches only), `max-age` or `Expires`. */
  predicate HasExplicitExpiration(p: CachePolicy) {
    || (p.opts.privacy == Shared && "s-maxage" in p.resCc)
    || "max-age" in p.resCc
    || EXPIRES in p.res
  }

  /** `allows_storing_authenticated` (src/lib.rs:501-506): the response
      directives that let a shared cache store an answer to an authenticated request. */
  predicate AllowsStoringAuthenticated(p: CachePolicy) {
    MUST_REVALIDATE in p.resCc || "public" in p.resCc || "s-maxage" in p.resCc
  }

  /** `is_storable` (src/lib.rs:363-392). */
  predicate IsStorable(p: CachePolicy) {
    && NO_STORE !in p.reqCc
    && (p.httpMethod == GET || p.httpMethod == HEAD || (p.httpMethod == POST && HasExplicitExpiration(p)))
    && p.status in UNDERSTOOD_STATUSES
    && NO_STORE !in p.resCc
    && (p.opts.privacy == Private || "private" !in p.resCc)
    && (p.opts.privacy == Private || AUTHORIZATION !in p.req || AllowsStoringAuthenticated(p))
    && (|| EXPIRES in p.res
        || "max-age" in p.resCc
        || (p.opts.privacy == Shared && "s-maxage" in p.resCc)
        || "public" in p.resCc
        || p.status in STATUS_CODE_CACHEABLE_BY_DEFAULT)
  }

  /** Each of these makes a response unstorable: `no-store` on either side, a
      method other than GET and HEAD (save POST with an explicit lifetime), a
      status that is not understood, and for a shared cache a `private`
      response or an authenticated request the response does not allow. */
  lemma {:induction false} NotStorable(p: CachePolicy)
    ensures NO_STORE in p.reqCc || NO_STORE in p.resCc ==> !IsStorable(p)
    ensures p.httpMethod !in {GET, HEAD, POST} ==> !IsStorable(p)
    ensures p.httpMethod == POST && !HasExplicitExpiration(p) ==> !IsStorable(p)
    ensures p.status !in UNDERSTOOD_STATUSES ==> !IsStorable(p)
    ensures p.opts.privacy == Shared && "private" in p.resCc ==> !IsStorable(p)
    ensures p.opts.privacy == Shared && AUTHORIZATION in p.req && !AllowsStoringAuthenticated(p) ==> !IsStorable(p)
  {
  }

  /** Partial content (206) is cacheable by default, yet never stored, since
      it is not understood. */
  lemma {:induction false} PartialContentNeverStored(p: CachePolicy)
    requires p.status == 206
    ensures 206 in STATUS_CODE_CACHEABLE_BY_DEFAULT && !IsStorable(p)
  {
  }

  /** Every status cacheable by default, except 206, is understood. */
  lemma {:induction false} DefaultCacheableUnderstood(s: nat)
    requires s in STATUS_CODE_CACHEABLE_BY_DEFAULT && s != 206
    ensures s in UNDERSTOOD_STATUSES
  {
  }

  /** A GET answered with a status cacheable by default is stored when no
      directive forbids it: no `no-store`, and for a shared cache neither
      `private` nor an unauthorised `Authorization`. */
  lemma {:induction false} GetStorableByDefault(p: CachePolicy)
    requires p.httpMethod == GET && p.status in STATUS_CODE_CACHEABLE_BY_DEFAULT && p.status != 206
    requires NO_STORE !in p.reqCc && NO_STORE !in p.resCc
    requires p.opts.privacy == Shared ==> "private" !in p.resCc && AUTHORIZATION !in p.req
    ensures IsStorable(p)
  {
    DefaultCacheableUnderstood(p.status);
  }

  /** A private cache stores whatever a shared cache stores, unless only
      `s-maxage`, which private caches ignore, made it storable. */
  lemma {:induction false} PrivateStoresMore(p: CachePolicy)
    requires p.opts.privacy == Shared && IsStorable(p) && "s-maxage" !in p.resCc
    ensures IsStorable(p.(opts := p.opts.(privacy := Private)))
  {
  }
}
