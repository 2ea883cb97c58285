# http-cache-policy in Dafny

A model of the decision engine of the Rust crate `http-cache-policy`. The crate
tells an HTTP cache what it may do with a stored response, following RFC 7234:

- whether the response may be stored at all;
- how old it is and how long it stays fresh;
- whether a new request may be answered from it, and which headers the served
  copy carries;
- which conditional request revalidates it;
- how a `304 Not Modified` answer refreshes it.

The model also covers the stand-alone configuration record of `src/config.rs`.

A `CachePolicy` is an immutable value (`Policy.CachePolicy`). It holds:

- the stored request and response headers;
- the method, the URI and the status;
- the options;
- the parsed request and response `Cache-Control` directives;
- the time the response arrived.

Revalidation builds a new policy rather than changing the old one. The source
works step by step in some places: the directive parser and formatter, `join`,
the header copies, the revalidation request and the merge after a 304. Those
parts are written as methods with loops and invariants, each proved equal to a
specification function. The properties are then proved about those functions.

The model represents the source's types this way:

- **Header maps** map a lower-case field name to its non-empty list of values,
  with the `http` crate's meaning:
  - `get` returns the first value;
  - `insert` replaces every value;
  - `append` adds a value at the end;
  - iteration yields every value, so inserting each one in turn keeps the last.
- **Times** are whole seconds; durations are `nat`.
- **Dates:** `httpdate` parsing and formatting are passed in as the functions
  `parseDate` and `fmtDate`.
- **`cache_heuristic`**, an `f32` in the source, is an exact non-negative
  fraction. The default is the exact value of the `f32` literal `0.1`,
  13421773 / 2^27, which is slightly above one tenth. The product with a
  duration is rounded toward zero, as the source's cast to `u64` does.
- **`HashMap` iteration order is unspecified.** The methods that iterate over
  one report the order they used as a ghost result. The properties hold for
  every order.

Files, one module each: `optional.dfy`, `text.dfy` (the Rust string operations
used), `header_map.dfy`, `cache_control.dfy`, `cache_control_format.dfy`,
`config.dfy`, `cache_options.dfy`, `fraction.dfy`, `policy.dfy`,
`storability.dfy`, `freshness.dfy`, `header_rewrite.dfy`, `reuse.dfy`,
`revalidation.dfy`.

## Behaviour kept as written

The model follows the code in these places, and lemmas state the consequences:

- **A repeated directive is compared in two different forms.** The parser
  compares the stored value, with its quotes stripped, against the raw value of
  the repetition (src/lib.rs:76 against src/lib.rs:81). So `a="x", a="x"` forces
  `must-revalidate`, while `a="x", a=x` does not. `CacheControl.ScannedValid`
  states the exact condition.
- **`join` drops leading empty parts.** It writes no separator while its output
  is still empty, so leading empty parts leave no trace
  (`HeaderMap.JoinedSkipsLeadingEmpty`).
- **The 1xx warning filter checks only the first character.** It drops every
  warning whose text starts with `1`, including codes such as `1000`
  (`HeaderRewrite.KeptWarnings`).
- **A `HEAD` request may always revalidate.** `request_matches` allows
  revalidation for any `HEAD` request, even one for another URI
  (`Reuse.HeadMayRevalidate`).
- **The stored `Last-Modified` is read from the new response**
  (src/lib.rs:796). As a result, a 304 without entity tags on either side always
  selects the stored response (`Revalidation.WithoutEtagsAlwaysMatch`).
- **The stale check happens after the `min-fresh` check.** In
  `satisfies_without_revalidation`, the subtraction `age - max_age` is only
  reached when the response is stale, so it never goes below zero. The model
  states this with a `nat`.

## Model

| member | source | states |
|---|---|---|
| CacheConfig.Mode.IsShared | src/config.rs:25-28 | a mode is shared exactly when it is not `Private` |
| CacheConfig.Mode.IsPrivate | src/config.rs:30-33 | a mode is private exactly when it is `Private`, and exactly when it is not shared: one of the two always holds |
| CacheConfig.DefaultMode | src/config.rs:20-23 | the default mode is shared, not private |
| CacheConfig.Config.WithMode | src/config.rs:66-70 | sets the mode to the given one and leaves the heuristic and the cargo-cult flag unchanged |
| CacheConfig.Config.WithCacheHeuristic | src/config.rs:72-81 | sets the heuristic and leaves the mode and the cargo-cult flag unchanged |
| CacheConfig.Config.WithIgnoreCargoCult | src/config.rs:83-92 | sets the cargo-cult flag and leaves the mode and the heuristic unchanged |
| CacheConfig.DefaultConfig | src/config.rs:58-64 | the default configuration is shared, takes directives as written, and uses the `f32` literal `0.1` (13421773 / 2^27) as the heuristic, so ten days since `Last-Modified` give one day |
| CacheConfig.BuiltFromDefault | src/config.rs:58-92 | every configuration is the default one with its three setters applied, in either order |
| CacheConfig.LastSetWins | src/config.rs:66-92 | setting the mode, or the cargo-cult flag, twice keeps only the last value |
| Options.Privacy.IsShared | src/lib.rs:139-142 | a privacy is shared exactly when it is not `Private` |
| Options.Privacy.IsPrivate | src/lib.rs:144-147 | `is_private` is the negation of `is_shared` |
| Options.DefaultPrivacy | src/lib.rs:134-137 | the default privacy is shared |
| Options.CacheOptions.WithPrivacy | src/lib.rs:199-203 | sets only the privacy; the other three options are unchanged |
| Options.CacheOptions.WithCacheHeuristic | src/lib.rs:205-214 | sets only the heuristic; the other three options are unchanged |
| Options.CacheOptions.WithImmutableMinTimeToLive | src/lib.rs:216-225 | sets only the `immutable` time to live; the other three options are unchanged |
| Options.CacheOptions.WithIgnoreCargoCult | src/lib.rs:227-236 | sets only the cargo-cult flag; the other three options are unchanged |
| Options.DefaultOptions | src/lib.rs:180-197 | the defaults are: shared, the `f32` literal `0.1` (13421773 / 2^27) as heuristic, so ten days since `Last-Modified` give one day, 86400 seconds for `immutable`, directives taken as written |
| Options.BuiltFromDefault | src/lib.rs:190-236 | every set of options is the defaults with the four setters applied |
| Fractions.Fraction.Of | src/lib.rs:678-679 | the heuristic lifetime is the largest whole number of seconds not above the exact product |
| Fractions.OfMonotone | src/lib.rs:675-680 | a longer time since `Last-Modified` never gives a shorter heuristic lifetime |
| Fractions.OfAtMost | src/lib.rs:675-680 | a heuristic of at most one never gives more than the time since `Last-Modified` |
| HeaderMap.Get | src/lib.rs:897-902 | `get_str` finds a value exactly when the field is present |
| HeaderMap.Segments | src/lib.rs:885-891 | no item of `get_all_comma` contains a comma |
| HeaderMap.Join | src/lib.rs:904-914 | the loop builds exactly the parts with `", "` written between them, and no separator while the output is still empty |
| HeaderMap.JoinedEmpty | src/lib.rs:904-914 | the joined text is empty exactly when every part is empty |
| HeaderMap.JoinedSkipsLeadingEmpty | src/lib.rs:904-914 | a leading empty part leaves no trace in the joined text |
| HeaderMap.SplitJoined | src/lib.rs:904-914 | splitting joined non-empty, comma-free parts at commas gives back each part, every one after the first preceded by one space |
| HeaderMap.CommaItemsOfJoined | src/lib.rs:885-914 | `get_all_comma` reads back exactly the parts `join` wrote, when they are non-empty, trimmed and comma-free |
| CacheControl.ParseSegment | src/lib.rs:62-71 | a segment that yields a directive yields a non-empty trimmed name and a trimmed value, the text after its first `=` |
| CacheControl.ParseSegmentName | src/lib.rs:63-71 | a segment yields a directive exactly when the trimmed text before its first `=` is non-empty, and that text is the name |
| CacheControl.FinishedKeeps | src/lib.rs:86-88 | the final step touches no directive other than `must-revalidate` |
| CacheControl.ScanSegment | src/lib.rs:63-83 | one segment: blank segments and empty names are skipped, a new name stores its unquoted value, and a repeat keeps the first value and clears validity if the values differ |
| CacheControl.ScanSegments | src/lib.rs:61-84 | the segments of one header value are read after those of the earlier values |
| CacheControl.ParseCacheControl | src/lib.rs:56-90 | the nested loops compute exactly the parse of all the header's values |
| CacheControl.ScannedNames | src/lib.rs:72-83 | the parser stores exactly the names that some segment carries |
| CacheControl.ScannedFirstValue | src/lib.rs:72-83 | a stored value is the unquoted value of that name's first occurrence |
| CacheControl.ScannedInvalidStays | src/lib.rs:76-78 | once a conflict is seen, the parse stays invalid |
| CacheControl.ConflictInvalid | src/lib.rs:72-83 | a repetition whose raw value differs from the stored, unquoted one makes the parse invalid |
| CacheControl.ScannedValid | src/lib.rs:72-83 | the parse is valid exactly when every repetition carries, raw, the value stored for the name's first occurrence |
| CacheControl.ParsedNames | src/lib.rs:56-90 | a directive other than `must-revalidate` is in the result exactly when some segment names it (names are not lower-cased) |
| CacheControl.ParsedFirstValue | src/lib.rs:56-90 | the first occurrence's value wins, with its surrounding quotes stripped |
| CacheControl.ParsedConflict | src/lib.rs:76-88 | a conflicting repetition adds `must-revalidate` with no value; otherwise the result is exactly the scanned directives |
| CacheControlFormat.FormatCacheControl | src/lib.rs:92-113 | the loop writes every directive exactly once, in some order, as the entry texts separated by `", "` |
| CacheControlFormat.EntryNoComma | src/lib.rs:98-110 | the text written for a directive the parser can produce holds no comma |
| CacheControlFormat.UnquoteRaw | src/lib.rs:99-110 | stripping the quotes from a written value gives back the value |
| CacheControlFormat.ParseEntry | src/lib.rs:98-110 | reading back one written entry gives its name and its value as written: bare for `None`, quoted exactly when it is empty or not ASCII-alphanumeric |
| CacheControlFormat.ReadFormatted | src/lib.rs:92-113 | the segments of the written header read back as the directives, in the order they were written |
| CacheControlFormat.ParseEmpty | src/lib.rs:56-90 | an empty header value holds no directive |
| CacheControlFormat.ScanRawEntries | src/lib.rs:72-83 | scanning distinct directives with their written values rebuilds the map, with no conflict |
| CacheControlFormat.ParseFormatted | src/lib.rs:56-113 | parsing what `format_cache_control` wrote gives back the same directives, whatever the iteration order, for every map the parser can produce |
| CacheControlFormat.ParsedWellFormed | src/lib.rs:56-90 | every map the parser returns has trimmed, comma-free names without `=` and values that are comma-free and free of surrounding quotes |
| Policy.StripCargoCult | src/lib.rs:321-336 | removes the five legacy directives, rewrites `Cache-Control` from what is left, and removes `Expires` and `Pragma` |
| Policy.FromDetails | src/lib.rs:307-359 | builds the policy from the parsed directives, stripped when the option is on and both `pre-check` and `post-check` are present, with the `Pragma` fallback otherwise |
| Policy.NewOptions | src/lib.rs:293-305 | the policy for a request and response is `from_details` on their parts |
| Policy.DetailsCargoCult | src/lib.rs:321-336 | after the stripping, the policy keeps the stripped directives and rewritten headers, and still has a `Cache-Control` field |
| Policy.DetailsPlain | src/lib.rs:338-346 | without the stripping, the policy keeps the response headers as received |
| Policy.StrippedWellFormed | src/lib.rs:325-329 | removing directives keeps a parsed map well formed |
| Policy.CargoCultRewrite | src/lib.rs:321-336 | the rewritten `Cache-Control` field parses back to exactly the directives the policy keeps |
| Policy.CargoCultStripped | src/lib.rs:325-335 | after the stripping, none of `pre-check`, `post-check`, `no-cache`, `no-store`, `must-revalidate` is left, and `Expires` and `Pragma` are gone |
| Policy.PragmaFallback | src/lib.rs:338-346 | without the stripping, the directives are those of `Cache-Control`, plus `no-cache` exactly when that field is absent and the first `Pragma` value contains `no-cache` |
| Policy.NoHeaderNoDirectives | src/lib.rs:316 | a response without `Cache-Control` parses to no directive |
| Policy.DirectivesOfStoredHeaders | src/lib.rs:316-346 | the policy's response directives are those its stored headers declare, except the `no-cache` of the `Pragma` fallback |
| Storability.NotStorable | src/lib.rs:363-392 | not storable with `no-store` on either side, with a method other than GET or HEAD (or POST with an explicit lifetime), with a status not understood, or, for a shared cache, with `private` or with an `Authorization` the response does not allow |
| Storability.PartialContentNeverStored | src/lib.rs:26-32 | 206 is cacheable by default, yet a 206 response is never stored |
| Storability.DefaultCacheableUnderstood | src/lib.rs:26-32 | every status cacheable by default, except 206, is understood |
| Storability.GetStorableByDefault | src/lib.rs:363-392 | a GET with a status cacheable by default is stored when no directive or `Authorization` forbids it |
| Storability.PrivateStoresMore | src/lib.rs:376-391 | a private cache stores everything a shared one does, unless only `s-maxage` made it storable |
| Freshness.AgeHeaderValue | src/lib.rs:609-616 | the `Age` header is 0 when missing or not a `u64`, and otherwise its value |
| Freshness.Age | src/lib.rs:600-607 | the age is the `Age` header plus the time since the response arrived, plus nothing before it arrived |
| Freshness.AgeMonotone | src/lib.rs:600-607 | the age never decreases as time passes, and after arrival it grows second for second |
| Freshness.RawServerDate | src/lib.rs:589-595 | without a `Date` field the server date is the arrival time |
| Freshness.ServerDateFromDate | src/lib.rs:589-595 | a parsable `Date` is the server date, and an unparsable one falls back to the arrival time |
| Freshness.MaxAge | src/lib.rs:623-684 | the lifetime is 0 when the response is not storable, has `no-cache`, is shared with a `Set-Cookie` and neither `public` nor `immutable`, has `Vary: *`, or is shared with `proxy-revalidate`; otherwise a shared cache takes `s-maxage` first |
| Freshness.MaxAgeOverExpires | src/lib.rs:652-655 | `max-age` wins over `Expires` and `Last-Modified` unless a shared cache has `s-maxage` |
| Freshness.InvalidExpiresExpired | src/lib.rs:664-672 | an `Expires` that is not a date means already expired, even for `immutable` |
| Freshness.ImmutableFloor | src/lib.rs:657-684 | otherwise an `immutable` response is fresh for at least the configured time |
| Freshness.MaxAgeFromDates | src/lib.rs:657-684 | without a usable `s-maxage` or `max-age`, the lifetime comes from `Expires`, `Last-Modified` and the `immutable` floor |
| Freshness.ExpiresLifetime | src/lib.rs:663-673 | with a parsable `Expires`, the lifetime is the larger of the `immutable` floor and the time from the server date to `Expires`, or 0 when `Expires` is earlier |
| Freshness.DatesFromLastModified | src/lib.rs:675-681 | without `Expires`, a parsable `Last-Modified` not after the server date gives the larger of the floor and the heuristic share of the time since it |
| Freshness.HeuristicValue | src/lib.rs:675-681 | without `Expires` or `immutable`, the lifetime is exactly the heuristic share of the time since `Last-Modified` |
| Freshness.FloorOnly | src/lib.rs:657-684 | without `Expires` and with no usable `Last-Modified` (missing, unparsable or after the server date), the lifetime is the `immutable` floor, or 0 |
| Freshness.HeuristicLifetime | src/lib.rs:675-681 | with only `Last-Modified`, the lifetime is the heuristic share of the time since it, and at most that time when the share is at most one |
| Freshness.TimeToLive | src/lib.rs:698-702 | the time to live plus the age covers the lifetime, and equals it whenever time is left |
| Freshness.StaleIffNoTimeToLive | src/lib.rs:698-707 | a response is stale exactly when its time to live is 0 |
| Freshness.StaysStale | src/lib.rs:698-707 | the time to live only shrinks, and a stale response stays stale |
| HeaderRewrite.Unmarked | src/lib.rs:537-541 | the filter keeps no item with the prefix and never adds items |
| HeaderRewrite.UnmarkedMembers | src/lib.rs:537-541 | an item survives the filter exactly when it was there and lacks the prefix |
| HeaderRewrite.CommaItemTrimmed | src/lib.rs:538-540 | skipping leading whitespace changes nothing on an item of `get_all_comma` |
| HeaderRewrite.InsertEach | src/lib.rs:525-530 | inserting each value of a field in turn leaves only the last one |
| HeaderRewrite.CopyEndToEnd | src/lib.rs:525-531 | every field that is not hop-by-hop is copied, with its last value |
| HeaderRewrite.RemoveListed | src/lib.rs:532-536 | every field that `Connection` names is removed, with names looked up case-insensitively |
| HeaderRewrite.CopyWithoutHopByHopHeaders | src/lib.rs:522-548 | the copy is the end-to-end fields minus those `Connection` names, with `Warning` rebuilt from its non-1xx items |
| HeaderRewrite.CopiedNoHopByHop | src/lib.rs:522-548 | the copy holds no hop-by-hop field |
| HeaderRewrite.CopiedOnlyUnlisted | src/lib.rs:525-536 | apart from `Warning`, the copy holds only original fields that `Connection` does not name |
| HeaderRewrite.CopiedLastValue | src/lib.rs:525-536 | every other end-to-end field is copied with its last value |
| HeaderRewrite.CopiedWarning | src/lib.rs:537-547 | `Warning` is present exactly when some non-1xx warning text is left, and then holds that text alone |
| HeaderRewrite.KeptWarnings | src/lib.rs:537-541 | a warning is kept exactly when it does not start with `1` after leading whitespace |
| HeaderRewrite.CachedResponse | src/lib.rs:557-587 | the served response is the copy, with warning 113 appended in the heuristic case, `Age` set to the age and `Date` set to now |
| HeaderRewrite.CachedAgeReadsBack | src/lib.rs:570-577 | the written `Age` reads back as the exact age, and `Date` is the formatted current time |
| HeaderRewrite.HeuristicWarning | src/lib.rs:562-569 | warning 113 is added after the copied warnings exactly when the age and a heuristic lifetime both exceed a day |
| HeaderRewrite.RequestFromHeaders | src/lib.rs:769-779 | a request sent upstream always has the stored method and URI |
| HeaderRewrite.AddStoredEtag | src/lib.rs:732-736 | the stored entity tag is joined after the incoming `If-None-Match` items |
| HeaderRewrite.KeepStrongValidators | src/lib.rs:746-756 | `If-Modified-Since` is removed, and `If-None-Match` loses its weak tags, or is removed when none is left |
| HeaderRewrite.AddLastModified | src/lib.rs:757-765 | the stored `Last-Modified` becomes `If-Modified-Since` unless the client sent one |
| HeaderRewrite.MakeConditional | src/lib.rs:725-765 | validators are added as allowed: none for an unstorable response, only strong ones when weak ones are forbidden, otherwise both |
| HeaderRewrite.RevalidationRequest | src/lib.rs:719-767 | the request is the stored method and URI, with the incoming headers copied end to end, without `If-Range`, and with the validators |
| HeaderRewrite.ConditionalKeys | src/lib.rs:725-765 | the validators add no field other than `If-None-Match` and `If-Modified-Since` |
| HeaderRewrite.RevalidationEndToEnd | src/lib.rs:719-767 | a revalidation request never carries `If-Range` or a hop-by-hop field |
| HeaderRewrite.RevalidationUnstorable | src/lib.rs:725-730 | for an unstorable response, neither validator is sent, and every other field passes unchanged |
| HeaderRewrite.RevalidationStrongOnly | src/lib.rs:738-751 | when weak validators are forbidden, `If-Modified-Since` is never sent |
| HeaderRewrite.RevalidationAddsEtag | src/lib.rs:732-736 | on a plain GET of a storable response, `If-None-Match` is the incoming items followed by the stored entity tag, or is unchanged without one |
| HeaderRewrite.RevalidationAddsLastModified | src/lib.rs:757-765 | on a plain GET of a storable response, the stored `Last-Modified` is sent if the client sent no `If-Modified-Since`, and the client's is kept otherwise |
| Reuse.CheckAgreement | src/lib.rs:509-518 | the loop returns true exactly when no `Vary` item is `*` and the requests agree on the first value of every named field |
| Reuse.VaryMatches | src/lib.rs:508-520 | `vary_matches` holds exactly when the new request agrees with the stored one on every varied field |
| Reuse.VaryStarNeverMatches | src/lib.rs:510-513 | `Vary: *` matches no request |
| Reuse.NoVaryAlwaysMatches | src/lib.rs:508-520 | without `Vary`, every request matches |
| Reuse.VaryReflexive | src/lib.rs:508-520 | the stored request matches itself unless the response varies on `*` |
| Reuse.RequestMatches | src/lib.rs:488-499 | an exact match means the same URI, `Host`, varied fields and method; an exact match may always revalidate, and so may any `HEAD` |
| Reuse.StoredRequestMatches | src/lib.rs:489-498 | the stored request itself is an exact match, unless `Vary: *` |
| Reuse.HeadMayRevalidate | src/lib.rs:497-498 | a `HEAD` request may revalidate, whatever it asks for |
| Reuse.OtherUriNeverMatches | src/lib.rs:490-498 | a request for another URI never matches exactly, and may revalidate only if it is a `HEAD` |
| Reuse.NoCacheNeverSatisfied | src/lib.rs:437-444 | a request with `no-cache` in `Cache-Control` or `Pragma` is never answered from the cache |
| Reuse.SatisfiedWithinRequestBounds | src/lib.rs:446-464 | a reused response is no older than the request's `max-age` and has at least its `min-fresh` left |
| Reuse.StaleNeedsMaxStale | src/lib.rs:466-483 | a stale response is reused only without `must-revalidate`, with `max-stale` in the request, and stale by less than its value when there is one |
| Reuse.FreshSatisfies | src/lib.rs:433-486 | a fresh response is reused when the request sets no limit of its own |
| Reuse.BareMaxStaleSatisfies | src/lib.rs:469-483 | a bare `max-stale` accepts any stale response not marked `must-revalidate` |
| Reuse.BeforeRequest | src/lib.rs:412-431 | fresh exactly on an exact match the request is satisfied with, serving the cached response; otherwise stale, with the revalidation request when allowed and the plain request when not, and `matches` telling whether the match was exact |
| Revalidation.TrimmedValue | src/lib.rs:795-798 | a validator is read exactly when its field is present |
| Revalidation.MatchIsNotModified | src/lib.rs:802-804 | only a `304 Not Modified` can select the stored response |
| Revalidation.StrongEtagMatch | src/lib.rs:805-809 | a strong entity tag in the 304 selects the stored response exactly when the stored tag, without weak marks, is the same |
| Revalidation.WeakEtagMatch | src/lib.rs:810-814 | a weak entity tag is compared with the stored one, both without weak marks |
| Revalidation.StrongEtagNeedsStoredEtag | src/lib.rs:805-809 | a strong entity tag never selects a stored response without one |
| Revalidation.WithoutEtagsAlwaysMatch | src/lib.rs:795-829 | a 304 without entity tags on either side always selects the stored response, since both `Last-Modified` values come from the 304 |
| Revalidation.MergeField | src/lib.rs:835-844 | one stored field keeps a single value: the replacement if there is one, else its last stored value |
| Revalidation.MergeHeaders | src/lib.rs:831-846 | the loop computes the merge of every stored field |
| Revalidation.MergedNames | src/lib.rs:831-846 | the merged headers have exactly the stored field names |
| Revalidation.MergedRefreshed | src/lib.rs:837-841 | a stored field the 304 carries takes the 304's first value, unless it describes the body |
| Revalidation.MergedKept | src/lib.rs:837-844 | a field that describes the body, or that the 304 lacks, keeps its last stored value |
| Revalidation.AfterResponse | src/lib.rs:786-867 | the new policy is built from the merged stored response after a match and from the new response otherwise, and the result is `NotModified` exactly for a matching 304 |
| Revalidation.UpdatedResponseFields | src/lib.rs:831-858 | after a match, the stored status and field names are kept; otherwise the new response is used unchanged |

## Left out

- `CachePolicy::new` (src/lib.rs:272-287) reads the system clock. Only `new_options` and `from_details` are modelled; they take an explicit time.
- Date parsing and formatting with `httpdate` are foreign code. They are the parameters `parseDate` and `fmtDate`, and nothing is assumed about them.
- Sub-second precision of `SystemTime` and `Duration` is not modelled. Times and durations are whole seconds.
- `Duration` overflow is not modelled, so the model never panics. Such an overflow would happen when the `Age` value plus the resident time exceeds the range of a `Duration`.
- Fractions.Fraction.Of: the heuristic is an exact fraction. For the default this is the `f32` value of `0.1` itself, 13421773 / 2^27. The product is rounded toward zero, but the rounding of the `f64` product and the saturation of the `u64` cast are not modelled.
- `HeaderValue::to_str` failures are not modelled. Every value is read as text, so a field with non-visible-ASCII bytes does not read as absent the way it does in the source.
- `from_str(...).unwrap()` on rebuilt values is treated as total; the model never panics.
- A header name that is not valid is not modelled. In a `Connection` or `Vary` item, the lower-cased text is looked up as if it were a valid name.
- URIs are abstract strings compared for equality, standing for `is_same_uri`.
- The `RequestLike` and `ResponseLike` implementations for `http` and `reqwest` types are not part of this model (src/lib.rs:937-1036). A request is a record of method, URI and headers; a response is a record of status and headers.
- The packaging of results with `Request::builder` and `Response::builder` is not modelled. The results are plain records of method, URI and headers, or of status and headers.
- `BeforeRequest::is_fresh` and `AfterResponse::is_modified` (src/lib.rs:878-883, 930-935) are left out. Each is a one-line constructor test, which Dafny's `Fresh?` and `Modified?` already provide.
- Serialisation (`serde` derives and the `http_serde` attributes) is not modelled.
- HeaderRewrite.RevalidationAddsEtag states the joined `If-None-Match` text. It does not state that `get_all_comma` reads every item back: an empty item in the incoming list vanishes when joined, so that round trip does not hold for every input.
- Revalidation.MergeHeaders: whether a second merge with the same 304 changes nothing is not stated. The model proves only what one merge keeps and replaces.
