/** The `http::HeaderMap` operations the policy relies on, and the two comma-list
    helpers `get_all_comma` and `join` (src/lib.rs:885-914). A field name maps to
    its values in arrival order; a name that is present has at least one value.
    Names are the lower-case names the `http` crate stores. */
module HeaderMap {
  import opened Optional
  import opened Text

  type Headers = h: map<string, seq<string>> | forall k :: k in h ==> h[k] != []

  const ACCEPT_RANGES := "accept-ranges"
  const AGE := "age"
  const AUTHORIZATION := "authorization"
  const CACHE_CONTROL := "cache-control"
  const CONNECTION := "connection"
  const DATE := "date"
  const ETAG := "etag"
  const EXPIRES := "expires"
  const HOST := "host"
  const IF_MATCH := "if-match"
  const IF_MODIFIED_SINCE := "if-modified-since"
  const IF_NONE_MATCH := "if-none-match"
  const IF_RANGE := "if-range"
  const IF_UNMODIFIED_SINCE := "if-unmodified-since"
  const LAST_MODIFIED := "last-modified"
  const PRAGMA := "pragma"
  const SET_COOKIE := "set-cookie"
  const VARY := "vary"
  const WARNING := "warning"

  /** `HeaderMap::get`: the first value of the field, if the field is present. */
  function Get(h: Headers, name: string): (r: Option<string>)
    ensures r.Some? <==> name in h
  {
    if name in h then Some(h[name][0]) else None
  }

  /** `HeaderMap::get_all`: every value of the field, in order. */
  function GetAll(h: Headers, name: string): seq<string> {
    if name in h then h[name] else []
  }

  /** `HeaderMap::insert`: the field's values become exactly `[v]`. */
  function Insert(h: Headers, name: string, v: string): Headers {
    h[name := [v]]
  }

  /** `HeaderMap::append`: `v` is added after the field's existing values. */
  function Append(h: Headers, name: string, v: string): Headers {
    h[name := GetAll(h, name) + [v]]
  }

  /** `HeaderMap::remove`. */
  function Remove(h: Headers, name: string): Headers {
    h - {name}
  }

  /** The comma-separated pieces of several header values, one after the other
      (`split(',')` applied to each value in turn). */
  function Segments(values: seq<string>): (r: seq<string>)
    ensures forall i :: 0 <= i < |r| ==> ',' !in r[i]
  {
    if values == [] then []
    else Segments(values[..|values| - 1]) + Split(values[|values| - 1], ',')
  }

  function TrimAll(parts: seq<string>): seq<string> {
    seq(|parts|, i requires 0 <= i < |parts| => Trim(parts[i]))
  }

  /** `get_all_comma`: every comma-separated item of every value, trimmed. */
  function GetAllComma(values: seq<string>): seq<string> {
    TrimAll(Segments(values))
  }

  /** What `join` builds: the parts separated by ", ", except that no separator
      is written while the output is still empty, so leading empty parts vanish. */
  function Joined(parts: seq<string>): string {
    if parts == [] then []
    else
      var prefix := Joined(parts[..|parts| - 1]);
      if prefix == [] then parts[|parts| - 1] else prefix + ", " + parts[|parts| - 1]
  }

  /** `join` (src/lib.rs:904-914). */
  method Join(parts: seq<string>) returns (out: string)
    ensures out == Joined(parts)
  {
    out := "";
    for i := 0 to |parts|
      invariant out == Joined(parts[..i])
    {
      assert parts[..i + 1][..i] == parts[..i];
      if out != [] {
        out := out + ", ";
      }
      out := out + parts[i];
    }
    assert parts[..|parts|] == parts;
  }

  /** The joined text is empty exactly when every part is. */
  lemma {:induction false} JoinedEmpty(parts: seq<string>)
    ensures Joined(parts) == [] <==> forall i :: 0 <= i < |parts| ==> parts[i] == []
  {
    if parts != [] {
      var init := parts[..|parts| - 1];
      JoinedEmpty(init);
      assert forall i :: 0 <= i < |init| ==> init[i] == parts[i];
    }
  }

  /** A leading empty part leaves no trace in the output. */
  lemma {:induction false} JoinedSkipsLeadingEmpty(parts: seq<string>)
    ensures Joined([[]] + parts) == Joined(parts)
  {
    if parts != [] {
      var init := parts[..|parts| - 1];
      assert ([[]] + parts)[..|parts|] == [[]] + init;
      JoinedSkipsLeadingEmpty(init);
    }
  }

  /** Splitting the joined text at commas gives back the parts, each but the
      first behind the one space of its separator. */
  lemma {:induction false} JoinedSnoc(parts: seq<string>)
    requires |parts| >= 2 && parts[0] != []
    ensures Joined(parts) == Joined(parts[..|parts| - 1]) + [','] + (" " + parts[|parts| - 1])
  {
    var init := parts[..|parts| - 1];
    JoinedEmpty(init);
    assert init[0] != [];
    assert Joined(parts) == Joined(init) + ", " + parts[|parts| - 1];
  }

  lemma {:induction false} SplitJoined(parts: seq<string>)
    requires |parts| >= 1
    requires forall i :: 0 <= i < |parts| ==> parts[i] != [] && ',' !in parts[i]
    ensures |Split(Joined(parts), ',')| == |parts|
    ensures forall i :: 0 <= i < |parts| ==>
      Split(Joined(parts), ',')[i] == if i == 0 then parts[0] else " " + parts[i]
  {
    var n := |parts|;
    if n == 1 {
      SplitNoSeparator(parts[0], ',');
    } else {
      var init := parts[..n - 1];
      var a := Joined(init);
      var b := " " + parts[n - 1];
      SplitJoined(init);
      JoinedSnoc(parts);
      SplitConcat(a, b, ',');
      SplitNoSeparator(b, ',');
      var r := Split(Joined(parts), ',');
      assert r == Split(a, ',') + [b];
      forall i | 0 <= i < n
        ensures r[i] == if i == 0 then parts[0] else " " + parts[i]
      {
        if i < n - 1 {
          assert init[i] == parts[i];
        }
      }
    }
  }

  lemma {:induction false} SegmentsOfOne(s: string)
    ensures Segments([s]) == Split(s, ',')
  {
    assert [s][..0] == [];
  }

  lemma {:induction false} TrimmedSplitJoined(parts: seq<string>)
    requires |parts| >= 1
    requires forall i :: 0 <= i < |parts| ==> parts[i] != [] && ',' !in parts[i] && Trim(parts[i]) == parts[i]
    ensures TrimAll(Split(Joined(parts), ',')) == parts
  {
    SplitJoined(parts);
    var segs := Split(Joined(parts), ',');
    var t := TrimAll(segs);
    assert |t| == |parts|;
    forall i | 0 <= i < |parts|
      ensures t[i] == parts[i]
    {
      assert t[i] == Trim(segs[i]);
      if i > 0 {
        TrimLeadingSpace(parts[i]);
      }
    }
    assert t == parts;
  }

  /** `get_all_comma` reads back what `join` wrote, when the parts are non-empty,
      trimmed and free of commas. */
  lemma {:induction false} CommaItemsOfJoined(parts: seq<string>)
    requires |parts| >= 1
    requires forall i :: 0 <= i < |parts| ==> parts[i] != [] && ',' !in parts[i] && Trim(parts[i]) == parts[i]
    ensures GetAllComma([Joined(parts)]) == parts
  {
    TrimmedSplitJoined(parts);
    SegmentsOfOne(Joined(parts));
  }
}
