/** The header rewriting a cache does on the way out (src/lib.rs:522-587,
    719-780): hop-by-hop headers (section 6.1 of RFC 7230), the served
    response's `Age`, `Date` and `Warning` (section 5.5.4 of RFC 7234), and
    the conditional request sent to revalidate a stored response (section
    4.3.1 of RFC 7234). */
module HeaderRewrite {
  import opened Optional
  import opened Text
  import opened HeaderMap
  import opened Options
  import opened Policy
  import opened Storability
  import opened Freshness

  /** Headers that concern only one connection, plus `Date`, which is
      rewritten (src/lib.rs:34-44). */
  const HOP_BY_HOP_HEADERS: set<string> := {
    "date", "connection", "keep-alive", "proxy-authenticate", "proxy-authorization",
    "te", "trailer", "transfer-encoding", "upgrade"}

  /** The heuristic-expiration warning (src/lib.rs:567). */
  const WARNING_113 := "113 - \"rfc7234 5.5.4\""

  /** A response without a body (`http::response::Parts`). */
  datatype ResponseParts = ResponseParts(status: nat, headers: Headers)

  /** A request without a body (`http::request::Parts`). */
  datatype RequestParts = RequestParts(httpMethod: string, uri: Uri, headers: Headers)

  /** The last of a field's values. */
  function Last(values: seq<string>): string
    requires values != []
  {
    values[|values| - 1]
  }

  /** `name` is one of `names`, once lower-cased as header-name lookup does. */
  predicate ListedIn(name: string, names: seq<string>) {
    exists i :: 0 <= i < |names| && AsciiLower(names[i]) == name
  }

  /** The items that do not start with `prefix`, in order (the `filter` of
      src/lib.rs:538-540 and 743-745). The source skips leading whitespace
      first, which changes nothing on the trimmed items it filters
      (`CommaItemTrimmed`). */
  function Unmarked(items: seq<string>, prefix: string): (r: seq<string>)
    ensures |r| <= |items|
    ensures forall i :: 0 <= i < |r| ==> !StartsWith(r[i], prefix)
  {
    if items == [] then []
    else
      var init := Unmarked(items[..|items| - 1], prefix);
      var last := items[|items| - 1];
      if StartsWith(last, prefix) then init else init + [last]
  }

  /** The filter keeps exactly the items without the prefix. */
  lemma {:induction false} UnmarkedMembers(items: seq<string>, prefix: string, x: string)
    ensures x in Unmarked(items, prefix) <==> x in items && !StartsWith(x, prefix)
  {
    if items != [] {
      var n := |items| - 1;
      UnmarkedMembers(items[..n], prefix, x);
      assert items == items[..n] + [items[n]];
    }
  }

  /** Skipping leading whitespace changes nothing on an item of `get_all_comma`. */
  lemma {:induction false} CommaItemTrimmed(values: seq<string>, i: nat)
    requires i < |GetAllComma(values)|
    ensures TrimStart(GetAllComma(values)[i]) == GetAllComma(values)[i]
  {
    var x := GetAllComma(values)[i];
    assert x == Trim(Segments(values)[i]);
    assert x == [] || !IsWhitespace(x[0]);
  }

  /** The fields copied before `Connection` is applied: every field that is
      not hop-by-hop, with only its last value. */
  function EndToEnd(h: Headers, skip: seq<string>): Headers {
    map k | k in h && k !in HOP_BY_HOP_HEADERS && !ListedIn(k, skip) :: [Last(h[k])]
  }

  /** What `copy_without_hop_by_hop_headers` returns: the end-to-end fields
      (each with its last value) minus those `Connection` lists, and `Warning`
      rebuilt from all the warnings except the 1xx ones. */
  function CopiedHeaders(h: Headers): Headers {
    var base := EndToEnd(h, GetAllComma(GetAll(h, CONNECTION)));
    var warnings := Joined(Unmarked(GetAllComma(GetAll(h, WARNING)), "1"));
    if warnings == [] then Remove(base, WARNING) else Insert(base, WARNING, warnings)
  }

  /** The end-to-end fields copied so far: all but those in `pending`. */
  function CopiedSoFar(h: Headers, pending: set<string>): Headers {
    map k | k in h && k !in pending && k !in HOP_BY_HOP_HEADERS :: [Last(h[k])]
  }

  lemma {:induction false} CopiedSoFarStep(h: Headers, pending: set<string>, name: string)
    requires name in pending
    ensures CopiedSoFar(h, pending - {name}) ==
      if name in h && name !in HOP_BY_HOP_HEADERS then CopiedSoFar(h, pending)[name := [Last(h[name])]]
      else CopiedSoFar(h, pending)
  {
  }

  lemma {:induction false} ListedInSnoc(names: seq<string>, i: nat)
    requires i < |names|
    ensures forall k :: ListedIn(k, names[..i + 1]) <==> ListedIn(k, names[..i]) || k == AsciiLower(names[i])
  {
    forall k | ListedIn(k, names[..i + 1])
      ensures ListedIn(k, names[..i]) || k == AsciiLower(names[i])
    {
      var j :| 0 <= j < i + 1 && AsciiLower(names[..i + 1][j]) == k;
      if j < i {
        assert AsciiLower(names[..i][j]) == k;
      }
    }
    forall k | ListedIn(k, names[..i])
      ensures ListedIn(k, names[..i + 1])
    {
      var j :| 0 <= j < i && AsciiLower(names[..i][j]) == k;
      assert AsciiLower(names[..i + 1][j]) == k;
    }
    assert AsciiLower(names[..i + 1][i]) == AsciiLower(names[i]);
  }

  lemma {:induction false} EndToEndStep(h: Headers, names: seq<string>, i: nat)
    requires i < |names|
    ensures EndToEnd(h, names[..i + 1]) == Remove(EndToEnd(h, names[..i]), AsciiLower(names[i]))
  {
    ListedInSnoc(names, i);
    var a := EndToEnd(h, names[..i + 1]);
    var b := Remove(EndToEnd(h, names[..i]), AsciiLower(names[i]));
    assert forall k :: k in a <==> k in b;
    SameHeaders(a, b);
  }

  lemma {:induction false} SameHeaders(a: Headers, b: Headers)
    requires forall k :: k in a <==> k in b
    requires forall k :: k in b ==> a[k] == b[k]
    ensures a == b
  {
  }

  /** Each of a field's values inserted in turn, so the last one stays. */
  method InsertEach(headers: Headers, name: string, values: seq<string>) returns (r: Headers)
    requires values != []
    ensures r == headers[name := [Last(values)]]
  {
    r := headers;
    for i := 0 to |values|
      invariant i == 0 ==> r == headers
      invariant i > 0 ==> r == headers[name := [values[i - 1]]]
    {
      r := Insert(r, name, values[i]);
    }
  }

  /** Every end-to-end field, with only its last value (src/lib.rs:525-531). */
  method CopyEndToEnd(h: Headers) returns (headers: Headers)
    ensures headers == EndToEnd(h, [])
  {
    headers := map[];
    var names := h.Keys;
    while names != {}
      invariant forall n :: n in names ==> n in h
      invariant headers == CopiedSoFar(h, names)
      decreases |names|
    {
      var name :| name in names;
      CopiedSoFarStep(h, names, name);
      if name !in HOP_BY_HOP_HEADERS {
        headers := InsertEach(headers, name, h[name]);
      }
      names := names - {name};
    }
    CopiedAll(h);
  }

  lemma {:induction false} CopiedAll(h: Headers)
    ensures CopiedSoFar(h, {}) == EndToEnd(h, [])
  {
    assert forall k :: !ListedIn(k, []);
  }

  /** The fields `Connection` names removed (src/lib.rs:533-536). */
  method RemoveListed(h: Headers, headers: Headers, connection: seq<string>) returns (r: Headers)
    requires headers == EndToEnd(h, [])
    ensures r == EndToEnd(h, connection)
  {
    r := headers;
    assert connection[..0] == [];
    for i := 0 to |connection|
      invariant r == EndToEnd(h, connection[..i])
    {
      EndToEndStep(h, connection, i);
      r := Remove(r, AsciiLower(connection[i]));
    }
    assert connection[..|connection|] == connection;
  }

  /** `copy_without_hop_by_hop_headers` (src/lib.rs:522-548). */
  method CopyWithoutHopByHopHeaders(h: Headers) returns (headers: Headers)
    ensures headers == CopiedHeaders(h)
  {
    headers := CopyEndToEnd(h);
    var connection := GetAllComma(GetAll(h, CONNECTION));
    headers := RemoveListed(h, headers, connection);
    var newWarnings := Join(Unmarked(GetAllComma(GetAll(h, WARNING)), "1"));
    if newWarnings == [] {
      headers := Remove(headers, WARNING);
    } else {
      headers := Insert(headers, WARNING, newWarnings);
    }
  }

  lemma {:induction false} WarningEndToEnd()
    ensures WARNING !in HOP_BY_HOP_HEADERS
  {
  }

  /** The copy holds no hop-by-hop field. */
  lemma {:induction false} CopiedNoHopByHop(h: Headers)
    ensures forall k :: k in CopiedHeaders(h) ==> k !in HOP_BY_HOP_HEADERS
  {
    WarningEndToEnd();
  }

  /** Apart from a rebuilt `Warning`, the copy holds only fields of the
      original that `Connection` does not name. */
  lemma {:induction false} CopiedOnlyUnlisted(h: Headers)
    ensures forall k :: k in CopiedHeaders(h) && k != WARNING ==>
      k in h && !ListedIn(k, GetAllComma(GetAll(h, CONNECTION)))
  {
  }

  /** Every other end-to-end field is copied with only its last value. */
  lemma {:induction false} CopiedLastValue(h: Headers, k: string)
    requires k in h && k != WARNING && k !in HOP_BY_HOP_HEADERS
    requires !ListedIn(k, GetAllComma(GetAll(h, CONNECTION)))
    ensures k in CopiedHeaders(h) && CopiedHeaders(h)[k] == [Last(h[k])]
  {
  }

  /** `Warning` is present exactly when some non-1xx warning text is left,
      and then holds that text alone. */
  lemma {:induction false} CopiedWarning(h: Headers)
    ensures var w := Joined(Unmarked(GetAllComma(GetAll(h, WARNING)), "1"));
      GetAll(CopiedHeaders(h), WARNING) == if w == [] then [] else [w]
  {
  }

  /** A rebuilt `Warning` keeps every warning whose code does not start with
      `1`, and only those. */
  lemma {:induction false} KeptWarnings(h: Headers, w: string)
    ensures var items := GetAllComma(GetAll(h, WARNING));
      w in Unmarked(items, "1") <==> w in items && !StartsWith(TrimStart(w), "1")
  {
    var items := GetAllComma(GetAll(h, WARNING));
    UnmarkedMembers(items, "1", w);
    if w in items {
      var i :| 0 <= i < |items| && items[i] == w;
      CommaItemTrimmed(GetAll(h, WARNING), i);
    }
  }

  /** The headers of the response served from the cache at `now`. */
  function CachedHeaders(p: CachePolicy, now: Time, parseDate: DateParser, fmtDate: Time -> string): Headers {
    var age := AgeAt(p, now);
    var copied := CopiedHeaders(p.res);
    var warned :=
      if age > DAY && !HasExplicitExpiration(p) && MaxAge(p, parseDate) > DAY
      then Append(copied, WARNING, WARNING_113) else copied;
    Insert(Insert(warned, AGE, NatToString(age)), DATE, fmtDate(now))
  }

  /** `cached_response` (src/lib.rs:557-587); `fmtDate` stands for
      `httpdate::fmt_http_date`. */
  method CachedResponse(p: CachePolicy, now: Time, parseDate: DateParser, fmtDate: Time -> string)
    returns (parts: ResponseParts)
    ensures parts == ResponseParts(p.status, CachedHeaders(p, now, parseDate, fmtDate))
  {
    var headers := CopyWithoutHopByHopHeaders(p.res);
    var age := Age(p, now);
    if age > DAY && !HasExplicitExpiration(p) && MaxAge(p, parseDate) > DAY {
      headers := Append(headers, WARNING, WARNING_113);
    }
    headers := Insert(headers, AGE, NatToString(age));
    headers := Insert(headers, DATE, fmtDate(now));
    parts := ResponseParts(p.status, headers);
  }

  /** The served response carries its current age, which a cache storing it
      again reads back exactly (while it fits a `u64`), and `Date` set to now. */
  lemma {:induction false} CachedAgeReadsBack(p: CachePolicy, now: Time, parseDate: DateParser, fmtDate: Time -> string)
    requires AgeAt(p, now) < U64_LIMIT
    ensures var h := CachedHeaders(p, now, parseDate, fmtDate);
      && Get(h, DATE) == Some(fmtDate(now))
      && AgeHeaderValue(p.(res := h)) == AgeAt(p, now)
  {
    ParseNatToString(AgeAt(p, now));
  }

  /** Warning 113 is added, after the copied warnings, exactly when the
      response is over a day old on a heuristic lifetime of over a day;
      otherwise the warnings are those of the copy. */
  lemma {:induction false} HeuristicWarning(p: CachePolicy, now: Time, parseDate: DateParser, fmtDate: Time -> string)
    ensures var h := CachedHeaders(p, now, parseDate, fmtDate);
      var copied := CopiedHeaders(p.res);
      if AgeAt(p, now) > DAY && !HasExplicitExpiration(p) && MaxAge(p, parseDate) > DAY
      then GetAll(h, WARNING) == GetAll(copied, WARNING) + [WARNING_113]
      else GetAll(h, WARNING) == GetAll(copied, WARNING)
  {
  }

  /** `request_from_headers` (src/lib.rs:769-780): the stored request's method
      and URI with the given headers. */
  function RequestFromHeaders(p: CachePolicy, headers: Headers): (r: RequestParts)
    ensures r.httpMethod == p.httpMethod && r.uri == p.uri && r.headers == headers
  {
    RequestParts(p.httpMethod, p.uri, headers)
  }

  /** Weak validators may only be sent on a plain GET (section 2.1 of RFC 7232). */
  predicate ForbidsWeakValidators(p: CachePolicy, h: Headers) {
    p.httpMethod != GET || ACCEPT_RANGES in h || IF_MATCH in h || IF_UNMODIFIED_SINCE in h
  }

  /** The stored entity tag appended to the `If-None-Match` list, when there is one. */
  function WithStoredEtag(p: CachePolicy, h: Headers): Headers {
    match Get(p.res, ETAG)
    case Some(etag) => Insert(h, IF_NONE_MATCH, Joined(GetAllComma(GetAll(h, IF_NONE_MATCH)) + [etag]))
    case None => h
  }

  /** Only strong validators: no `If-Modified-Since`, and `If-None-Match`
      without the weak (`W/`) entity tags, dropped when none is left. */
  function StrongValidatorsOnly(h: Headers): Headers {
    var h2 := Remove(h, IF_MODIFIED_SINCE);
    var etags := Joined(Unmarked(GetAllComma(GetAll(h2, IF_NONE_MATCH)), "W/"));
    if etags == [] then Remove(h2, IF_NONE_MATCH) else Insert(h2, IF_NONE_MATCH, etags)
  }

  /** The stored `Last-Modified` as `If-Modified-Since`, unless the client sent one. */
  function WithLastModified(p: CachePolicy, h: Headers): Headers {
    if IF_MODIFIED_SINCE !in h && LAST_MODIFIED in p.res then
      Insert(h, IF_MODIFIED_SINCE, p.res[LAST_MODIFIED][0])
    else h
  }

  /** The conditional headers built on `h0`, the copied incoming headers
      without `If-Range`. */
  function Conditional(p: CachePolicy, h0: Headers): Headers {
    if !IsStorable(p) then Remove(Remove(h0, IF_NONE_MATCH), IF_MODIFIED_SINCE)
    else
      var h1 := WithStoredEtag(p, h0);
      if ForbidsWeakValidators(p, h1) then StrongValidatorsOnly(h1) else WithLastModified(p, h1)
  }

  /** The headers of the revalidation request for `incoming`. */
  function RevalidationHeaders(p: CachePolicy, incoming: Headers): Headers {
    Conditional(p, Remove(CopiedHeaders(incoming), IF_RANGE))
  }

  /** The stored entity tag joined onto `If-None-Match` (src/lib.rs:733-736). */
  method AddStoredEtag(p: CachePolicy, headers: Headers) returns (r: Headers)
    ensures r == WithStoredEtag(p, headers)
  {
    r := headers;
    var etag := Get(p.res, ETAG);
    if etag.Some? {
      var ifNone := Join(GetAllComma(GetAll(r, IF_NONE_MATCH)) + [etag.value]);
      r := Insert(r, IF_NONE_MATCH, ifNone);
    }
  }

  /** Weak validators dropped (src/lib.rs:746-757). */
  method KeepStrongValidators(headers: Headers) returns (r: Headers)
    ensures r == StrongValidatorsOnly(headers)
  {
    r := Remove(headers, IF_MODIFIED_SINCE);
    var etags := Join(Unmarked(GetAllComma(GetAll(r, IF_NONE_MATCH)), "W/"));
    if etags == [] {
      r := Remove(r, IF_NONE_MATCH);
    } else {
      r := Insert(r, IF_NONE_MATCH, etags);
    }
  }

  /** The stored `Last-Modified` as `If-Modified-Since` (src/lib.rs:758-765). */
  method AddLastModified(p: CachePolicy, headers: Headers) returns (r: Headers)
    ensures r == WithLastModified(p, headers)
  {
    r := headers;
    if IF_MODIFIED_SINCE !in r {
      var lastModified := Get(p.res, LAST_MODIFIED);
      if lastModified.Some? {
        r := Insert(r, IF_MODIFIED_SINCE, lastModified.value);
      }
    }
  }

  /** The validators of the revalidation request (src/lib.rs:725-765),
      applied to the copied headers `h0`. */
  method MakeConditional(p: CachePolicy, h0: Headers) returns (r: Headers)
    ensures r == Conditional(p, h0)
  {
    r := h0;
    if !IsStorable(p) {
      r := Remove(r, IF_NONE_MATCH);
      r := Remove(r, IF_MODIFIED_SINCE);
      return;
    }
    r := AddStoredEtag(p, r);
    var forbidsWeakValidators := p.httpMethod != GET
      || ACCEPT_RANGES in r || IF_MATCH in r || IF_UNMODIFIED_SINCE in r;
    if forbidsWeakValidators {
      r := KeepStrongValidators(r);
    } else {
      r := AddLastModified(p, r);
    }
  }

  /** `revalidation_request` (src/lib.rs:719-767). */
  method RevalidationRequest(p: CachePolicy, incoming: Request) returns (r: RequestParts)
    ensures r == RequestFromHeaders(p, RevalidationHeaders(p, incoming.headers))
  {
    var headers := CopyWithoutHopByHopHeaders(incoming.headers);
    headers := Remove(headers, IF_RANGE);
    headers := MakeConditional(p, headers);
    r := RequestFromHeaders(p, headers);
  }

  lemma {:induction false} WithStoredEtagKeys(p: CachePolicy, h: Headers)
    ensures forall k :: k in WithStoredEtag(p, h) ==> k in h || k == IF_NONE_MATCH
  {
  }

  lemma {:induction false} StrongValidatorsOnlyKeys(h: Headers)
    ensures forall k :: k in StrongValidatorsOnly(h) ==> k in h
  {
  }

  lemma {:induction false} WithLastModifiedKeys(p: CachePolicy, h: Headers)
    ensures forall k :: k in WithLastModified(p, h) ==> k in h || k == IF_MODIFIED_SINCE
  {
  }

  /** The conditional headers are those of `h0`, plus at most the two
      validator fields. */
  lemma {:induction false} ConditionalKeys(p: CachePolicy, h0: Headers)
    ensures forall k :: k in Conditional(p, h0) ==> k in h0 || k == IF_NONE_MATCH || k == IF_MODIFIED_SINCE
  {
    var h1 := WithStoredEtag(p, h0);
    WithStoredEtagKeys(p, h0);
    StrongValidatorsOnlyKeys(h1);
    WithLastModifiedKeys(p, h1);
  }

  /** A revalidation request never carries `If-Range` or a hop-by-hop field. */
  lemma {:induction false} RevalidationEndToEnd(p: CachePolicy, incoming: Headers)
    ensures var h := RevalidationHeaders(p, incoming);
      IF_RANGE !in h && forall k :: k in h ==> k !in HOP_BY_HOP_HEADERS
  {
    CopiedNoHopByHop(incoming);
    ConditionalEndToEnd(p, Remove(CopiedHeaders(incoming), IF_RANGE));
  }

  lemma {:induction false} ConditionalEndToEnd(p: CachePolicy, h0: Headers)
    requires IF_RANGE !in h0 && forall k :: k in h0 ==> k !in HOP_BY_HOP_HEADERS
    ensures var h := Conditional(p, h0);
      IF_RANGE !in h && forall k :: k in h ==> k !in HOP_BY_HOP_HEADERS
  {
    ConditionalKeys(p, h0);
    assert IF_NONE_MATCH !in HOP_BY_HOP_HEADERS && IF_MODIFIED_SINCE !in HOP_BY_HOP_HEADERS;
  }

  /** A response that was not storable is not revalidated: no validator is sent. */
  lemma {:induction false} RevalidationUnstorable(p: CachePolicy, h0: Headers)
    requires !IsStorable(p)
    ensures var h := Conditional(p, h0);
      && IF_NONE_MATCH !in h && IF_MODIFIED_SINCE !in h
      && forall k :: k in h0 && k != IF_NONE_MATCH && k != IF_MODIFIED_SINCE ==> k in h && h[k] == h0[k]
  {
  }

  /** When weak validators are not allowed, `If-Modified-Since` is never sent. */
  lemma {:induction false} RevalidationStrongOnly(p: CachePolicy, h0: Headers)
    requires ForbidsWeakValidators(p, h0)
    ensures IF_MODIFIED_SINCE !in Conditional(p, h0)
  {
    var h1 := WithStoredEtag(p, h0);
    assert ACCEPT_RANGES in h0 ==> ACCEPT_RANGES in h1;
    assert IF_MATCH in h0 ==> IF_MATCH in h1;
    assert IF_UNMODIFIED_SINCE in h0 ==> IF_UNMODIFIED_SINCE in h1;
  }

  /** On a plain GET of a storable response, the stored entity tag is added to
      the incoming `If-None-Match` list. */
  lemma {:induction false} RevalidationAddsEtag(p: CachePolicy, h0: Headers)
    requires IsStorable(p) && !ForbidsWeakValidators(p, h0)
    ensures var h := Conditional(p, h0);
      && (ETAG in p.res ==> GetAll(h, IF_NONE_MATCH) == [Joined(GetAllComma(GetAll(h0, IF_NONE_MATCH)) + [p.res[ETAG][0]])])
      && (ETAG !in p.res ==> GetAll(h, IF_NONE_MATCH) == GetAll(h0, IF_NONE_MATCH))
  {
  }

  /** On a plain GET of a storable response, the stored `Last-Modified` becomes
      `If-Modified-Since` when the client sent none, and the client's is kept
      otherwise. */
  lemma {:induction false} RevalidationAddsLastModified(p: CachePolicy, h0: Headers)
    requires IsStorable(p) && !ForbidsWeakValidators(p, h0)
    ensures var h := Conditional(p, h0);
      && (IF_MODIFIED_SINCE !in h0 && LAST_MODIFIED in p.res ==> Get(h, IF_MODIFIED_SINCE) == Some(p.res[LAST_MODIFIED][0]))
      && (IF_MODIFIED_SINCE in h0 ==> GetAll(h, IF_MODIFIED_SINCE) == GetAll(h0, IF_MODIFIED_SINCE))
  {
  }
}
