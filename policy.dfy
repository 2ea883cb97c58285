/** The `CachePolicy` record and its construction (src/lib.rs:249-359). A
    policy is never changed once built; revalidation builds a new one. */
module Policy {
  import opened Optional
  import opened Text
  import opened HeaderMap
  import opened CacheControl
  import opened CacheControlFormat
  import opened Options

  /** A point in time, in whole seconds (`SystemTime`). */
  type Time = int

  /** A request URI; the policy only ever compares URIs for equality. */
  type Uri = string

  /** A date header read by `httpdate::parse_http_date`, which is not part of
      this model: the parser is passed in. */
  type DateParser = string -> Option<Time>

  /** The parts of a request the policy reads (the `RequestLike` trait). */
  datatype Request = Request(httpMethod: string, uri: Uri, headers: Headers)

  /** The parts of a response the policy reads (the `ResponseLike` trait). */
  datatype Response = Response(status: nat, headers: Headers)

  /** `CachePolicy` (src/lib.rs:253-269). */
  datatype CachePolicy = CachePolicy(
    req: Headers,
    res: Headers,
    uri: Uri,
    status: nat,
    httpMethod: string,
    opts: CacheOptions,
    resCc: Directives,
    reqCc: Directives,
    responseTime: Time)

  const NO_CACHE := "no-cache"
  const NO_STORE := "no-store"
  const PRE_CHECK := "pre-check"
  const POST_CHECK := "post-check"

  /** The directives dropped when `pre-check` and `post-check` show that the
      header was copied without being understood. */
  const CARGO_CULT_DIRECTIVES := {PRE_CHECK, POST_CHECK, NO_CACHE, NO_STORE, MUST_REVALIDATE}

  /** The stripping applies: it is enabled and both legacy directives are present. */
  predicate IsCargoCult(opts: CacheOptions, cc: Directives) {
    opts.ignoreCargoCult && PRE_CHECK in cc && POST_CHECK in cc
  }

  /** The first `Pragma` value mentions `no-cache` (section 5.4 of RFC 7234). */
  predicate PragmaNoCache(h: Headers) {
    Get(h, PRAGMA).Some? && Contains(Get(h, PRAGMA).value, NO_CACHE)
  }

  /** The response directives after the stripping. */
  function Stripped(cc: Directives): Directives {
    cc - CARGO_CULT_DIRECTIVES
  }

  /** The response headers after the stripping: the rewritten `Cache-Control`
      (written in the order `order`), and no `Expires` or `Pragma`. */
  function StrippedHeaders(res: Headers, cc: Directives, order: seq<string>): Headers
    requires forall k :: k in order ==> k in cc
  {
    Remove(Remove(Insert(res, CACHE_CONTROL, Formatted(cc, order)), EXPIRES), PRAGMA)
  }

  /** The policy `from_details` builds, when the rewritten `Cache-Control`
      header lists the directives in the order `order`. */
  function Details(uri: Uri, httpMethod: string, status: nat, req: Headers, res: Headers,
                   responseTime: Time, opts: CacheOptions, order: seq<string>): CachePolicy
    requires var cc := ParsedCacheControl(GetAll(res, CACHE_CONTROL));
      IsCargoCult(opts, cc) ==> Enumerates(Stripped(cc), order)
  {
    var reqCc := ParsedCacheControl(GetAll(req, CACHE_CONTROL));
    var cc := ParsedCacheControl(GetAll(res, CACHE_CONTROL));
    if IsCargoCult(opts, cc) then
      CachePolicy(req, StrippedHeaders(res, Stripped(cc), order), uri, status, httpMethod, opts,
                  Stripped(cc), reqCc, responseTime)
    else
      var resCc := if CACHE_CONTROL !in res && PragmaNoCache(res) then cc[NO_CACHE := None] else cc;
      CachePolicy(req, res, uri, status, httpMethod, opts, resCc, reqCc, responseTime)
  }

  /** The cargo-cult rewrite of src/lib.rs:321-336: the legacy directives
      dropped, `Cache-Control` rewritten from what is left, and `Expires`
      and `Pragma` removed. */
  method StripCargoCult(res: Headers, cc: Directives)
    returns (headers: Headers, resCc: Directives, ghost order: seq<string>)
    ensures resCc == Stripped(cc) && Enumerates(resCc, order)
    ensures headers == StrippedHeaders(res, resCc, order)
  {
    resCc := cc;
    resCc := resCc - {PRE_CHECK};
    resCc := resCc - {POST_CHECK};
    resCc := resCc - {NO_CACHE};
    resCc := resCc - {NO_STORE};
    resCc := resCc - {MUST_REVALIDATE};
    assert resCc == Stripped(cc);
    var text;
    text, order := FormatCacheControl(resCc);
    headers := Insert(res, CACHE_CONTROL, text);
    headers := Remove(headers, EXPIRES);
    headers := Remove(headers, PRAGMA);
  }

  /** `CachePolicy::from_details` (src/lib.rs:307-359). */
  method FromDetails(uri: Uri, httpMethod: string, status: nat, req: Headers, res: Headers,
                     responseTime: Time, opts: CacheOptions)
    returns (p: CachePolicy, ghost order: seq<string>)
    ensures var cc := ParsedCacheControl(GetAll(res, CACHE_CONTROL));
      IsCargoCult(opts, cc) ==> Enumerates(Stripped(cc), order)
    ensures p == Details(uri, httpMethod, status, req, res, responseTime, opts, order)
  {
    var resCc := ParseCacheControl(GetAll(res, CACHE_CONTROL));
    var reqCc := ParseCacheControl(GetAll(req, CACHE_CONTROL));
    var headers := res;
    order := [];
    if opts.ignoreCargoCult && PRE_CHECK in resCc && POST_CHECK in resCc {
      headers, resCc, order := StripCargoCult(res, resCc);
      DetailsCargoCult(uri, httpMethod, status, req, res, responseTime, opts, order);
    } else {
      DetailsPlain(uri, httpMethod, status, req, res, responseTime, opts, order);
    }
    if CACHE_CONTROL !in headers && Get(headers, PRAGMA).Some? && Contains(Get(headers, PRAGMA).value, NO_CACHE) {
      resCc := resCc[NO_CACHE := None];
    }
    p := CachePolicy(req, headers, uri, status, httpMethod, opts, resCc, reqCc, responseTime);
  }

  /** The policy built from a response whose `Cache-Control` was copied
      without being understood. */
  lemma {:induction false} DetailsCargoCult(uri: Uri, httpMethod: string, status: nat, req: Headers, res: Headers,
                                            responseTime: Time, opts: CacheOptions, order: seq<string>)
    requires IsCargoCult(opts, ParsedCacheControl(GetAll(res, CACHE_CONTROL)))
    requires Enumerates(Stripped(ParsedCacheControl(GetAll(res, CACHE_CONTROL))), order)
    ensures var cc := Stripped(ParsedCacheControl(GetAll(res, CACHE_CONTROL)));
      var headers := StrippedHeaders(res, cc, order);
      && CACHE_CONTROL in headers
      && Details(uri, httpMethod, status, req, res, responseTime, opts, order) ==
         CachePolicy(req, headers, uri, status, httpMethod, opts, cc,
                     ParsedCacheControl(GetAll(req, CACHE_CONTROL)), responseTime)
  {
  }

  /** The policy built from any other response. */
  lemma {:induction false} DetailsPlain(uri: Uri, httpMethod: string, status: nat, req: Headers, res: Headers,
                                        responseTime: Time, opts: CacheOptions, order: seq<string>)
    requires !IsCargoCult(opts, ParsedCacheControl(GetAll(res, CACHE_CONTROL)))
    ensures var cc := ParsedCacheControl(GetAll(res, CACHE_CONTROL));
      Details(uri, httpMethod, status, req, res, responseTime, opts, order) ==
      CachePolicy(req, res, uri, status, httpMethod, opts,
                  if CACHE_CONTROL !in res && PragmaNoCache(res) then cc[NO_CACHE := None] else cc,
                  ParsedCacheControl(GetAll(req, CACHE_CONTROL)), responseTime)
  {
  }

  /** `CachePolicy::new_options` (src/lib.rs:290-305): the policy for a request
      and its response, received at `responseTime`. */
  method NewOptions(req: Request, res: Response, responseTime: Time, opts: CacheOptions)
    returns (p: CachePolicy, ghost order: seq<string>)
    ensures var cc := ParsedCacheControl(GetAll(res.headers, CACHE_CONTROL));
      IsCargoCult(opts, cc) ==> Enumerates(Stripped(cc), order)
    ensures p == Details(req.uri, req.httpMethod, res.status, req.headers, res.headers, responseTime, opts, order)
  {
    p, order := FromDetails(req.uri, req.httpMethod, res.status, req.headers, res.headers, responseTime, opts);
  }

  /** Dropping directives keeps a parsed map well formed. */
  lemma {:induction false} StrippedWellFormed(cc: Directives)
    requires WellFormed(cc)
    ensures WellFormed(Stripped(cc))
  {
  }

  /** After the stripping, the rewritten `Cache-Control` header reads back as
      exactly the directives the policy keeps. */
  lemma {:induction false} CargoCultRewrite(uri: Uri, httpMethod: string, status: nat, req: Headers, res: Headers,
                         responseTime: Time, opts: CacheOptions, order: seq<string>)
    requires IsCargoCult(opts, ParsedCacheControl(GetAll(res, CACHE_CONTROL)))
    requires Enumerates(Stripped(ParsedCacheControl(GetAll(res, CACHE_CONTROL))), order)
    ensures var p := Details(uri, httpMethod, status, req, res, responseTime, opts, order);
      ParsedCacheControl(GetAll(p.res, CACHE_CONTROL)) == p.resCc
  {
    var cc := ParsedCacheControl(GetAll(res, CACHE_CONTROL));
    var kept := Stripped(cc);
    var p := Details(uri, httpMethod, status, req, res, responseTime, opts, order);
    assert p.resCc == kept && p.res == StrippedHeaders(res, kept, order);
    assert CACHE_CONTROL != EXPIRES && CACHE_CONTROL != PRAGMA;
    assert GetAll(p.res, CACHE_CONTROL) == [Formatted(kept, order)];
    ParsedWellFormed(GetAll(res, CACHE_CONTROL));
    StrippedWellFormed(cc);
    ParseFormatted(kept, order);
  }

  /** After the stripping, none of the stripped directives is left, and
      `Expires` and `Pragma` are gone. */
  lemma {:induction false} CargoCultStripped(uri: Uri, httpMethod: string, status: nat, req: Headers, res: Headers,
                         responseTime: Time, opts: CacheOptions, order: seq<string>)
    requires IsCargoCult(opts, ParsedCacheControl(GetAll(res, CACHE_CONTROL)))
    requires Enumerates(Stripped(ParsedCacheControl(GetAll(res, CACHE_CONTROL))), order)
    ensures var p := Details(uri, httpMethod, status, req, res, responseTime, opts, order);
      && (forall d :: d in CARGO_CULT_DIRECTIVES ==> d !in p.resCc)
      && EXPIRES !in p.res && PRAGMA !in p.res
  {
  }

  /** Without the stripping, the response directives are those of its
      `Cache-Control` header, plus `no-cache` exactly when that header is
      missing and `Pragma` mentions `no-cache`. */
  lemma {:induction false} PragmaFallback(uri: Uri, httpMethod: string, status: nat, req: Headers, res: Headers,
                       responseTime: Time, opts: CacheOptions, order: seq<string>)
    requires !IsCargoCult(opts, ParsedCacheControl(GetAll(res, CACHE_CONTROL)))
    ensures var p := Details(uri, httpMethod, status, req, res, responseTime, opts, order);
      var cc := ParsedCacheControl(GetAll(res, CACHE_CONTROL));
      && p.res == res
      && (forall d :: d != NO_CACHE ==> (d in p.resCc <==> d in cc) && (d in cc ==> p.resCc[d] == cc[d]))
      && (NO_CACHE in p.resCc <==> NO_CACHE in cc || (CACHE_CONTROL !in res && PragmaNoCache(res)))
  {
  }

  /** Without a `Cache-Control` header, the parse is empty. */
  lemma {:induction false} NoHeaderNoDirectives(res: Headers)
    requires CACHE_CONTROL !in res
    ensures ParsedCacheControl(GetAll(res, CACHE_CONTROL)) == map[]
  {
    assert GetAll(res, CACHE_CONTROL) == [];
  }

  /** The policy's response directives are always those its stored response
      headers declare, except for the `no-cache` the `Pragma` fallback adds
      when there is no `Cache-Control` header. */
  lemma {:induction false} DirectivesOfStoredHeaders(uri: Uri, httpMethod: string, status: nat, req: Headers, res: Headers,
                                  responseTime: Time, opts: CacheOptions, order: seq<string>)
    requires var cc := ParsedCacheControl(GetAll(res, CACHE_CONTROL));
      IsCargoCult(opts, cc) ==> Enumerates(Stripped(cc), order)
    ensures var p := Details(uri, httpMethod, status, req, res, responseTime, opts, order);
      || p.resCc == ParsedCacheControl(GetAll(p.res, CACHE_CONTROL))
      || (CACHE_CONTROL !in p.res && PragmaNoCache(p.res) && p.resCc == map[NO_CACHE := None])
  {
    var cc := ParsedCacheControl(GetAll(res, CACHE_CONTROL));
    if IsCargoCult(opts, cc) {
      CargoCultRewrite(uri, httpMethod, status, req, res, responseTime, opts, order);
    } else if CACHE_CONTROL !in res {
      NoHeaderNoDirectives(res);
    }
  }
}
