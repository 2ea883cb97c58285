/** Writing `Cache-Control` directives back out (src/lib.rs:92-113), and the
    round trip with the parser of the `CacheControl` module. */
module CacheControlFormat {
  import opened Optional
  import opened Text
  import opened HeaderMap
  import opened CacheControl

  /** A value is written in quotes when it is empty or holds anything but
      ASCII letters and digits. */
  predicate NeedsQuote(v: string) {
    v == [] || exists i :: 0 <= i < |v| && !IsAsciiAlphanumeric(v[i])
  }

  /** The text of one directive: its name, then `=` and its value, quoted when needed. */
  function EntryText(name: string, value: Option<string>): string {
    match value
    case None => name
    case Some(v) => name + "=" + (if NeedsQuote(v) then "\"" + v + "\"" else v)
  }

  /** `order` lists every directive of `cc` exactly once: the map's iteration order. */
  ghost predicate Enumerates(cc: Directives, order: seq<string>) {
    && (forall k :: k in order <==> k in cc)
    && (forall i, j :: 0 <= i < j < |order| ==> order[i] != order[j])
  }

  /** The directive texts in the order `order`. */
  function Entries(cc: Directives, order: seq<string>): (r: seq<string>)
    requires forall k :: k in order ==> k in cc
    ensures |r| == |order|
  {
    seq(|order|, i requires 0 <= i < |order| => EntryText(order[i], cc[order[i]]))
  }

  /** The header value `format_cache_control` writes when the map yields its
      directives in the order `order`: the texts separated by `", "`. */
  function Formatted(cc: Directives, order: seq<string>): string
    requires forall k :: k in order ==> k in cc
  {
    Joined(Entries(cc, order))
  }

  /** `format_cache_control` (src/lib.rs:92-113). The map's iteration order is
      unspecified; the method reports the one it used. */
  method FormatCacheControl(cc: Directives) returns (out: string, ghost order: seq<string>)
    ensures Enumerates(cc, order)
    ensures out == Formatted(cc, order)
  {
    out := "";
    order := [];
    var rest := cc.Keys;
    while rest != {}
      invariant forall k :: k in cc ==> (k in rest <==> k !in order)
      invariant forall k :: k in rest ==> k in cc
      invariant forall k :: k in order ==> k in cc
      invariant forall i, j :: 0 <= i < j < |order| ==> order[i] != order[j]
      invariant out == Formatted(cc, order)
      decreases |rest|
    {
      var k :| k in rest;
      FormattedSnoc(cc, order, k);
      if out != [] {
        out := out + ", ";
      }
      ghost var start := out;
      out := out + k;
      var value := cc[k];
      if value.Some? {
        var v := value.value;
        out := out + "=";
        ghost var named := out;
        var needsQuote := NeedsQuote(v);
        if needsQuote {
          out := out + "\"";
        }
        out := out + v;
        if needsQuote {
          out := out + "\"";
        }
        ghost var tail := if needsQuote then "\"" + v + "\"" else v;
        assert out == named + tail;
        Associative(start, k, "=");
        Associative(start, k + "=", tail);
        assert out == start + ((k + "=") + tail);
        assert EntryText(k, value) == (k + "=") + tail;
        assert out == start + EntryText(k, value);
      } else {
        assert out == start + EntryText(k, value);
      }
      order := order + [k];
      rest := rest - {k};
    }
  }

  lemma {:induction false} Associative(a: string, b: string, c: string)
    ensures a + b + c == a + (b + c)
  {
  }

  lemma {:induction false} FormattedSnoc(cc: Directives, order: seq<string>, k: string)
    requires forall k :: k in order ==> k in cc
    requires k in cc
    ensures var prefix := Formatted(cc, order);
      Formatted(cc, order + [k]) == (if prefix == [] then [] else prefix + ", ") + EntryText(k, cc[k])
  {
    var before := Entries(cc, order);
    var after := Entries(cc, order + [k]);
    assert after == before + [EntryText(k, cc[k])];
    assert after[..|before|] == before;
  }

  /** A directive name the parser can produce: non-empty, trimmed, without `,` or `=`. */
  predicate NameWellFormed(name: string) {
    name != [] && Trim(name) == name && ',' !in name && '=' !in name
  }

  /** A directive value the parser can produce: without `,`, and not starting
      or ending with `"`. */
  predicate ValueWellFormed(v: string) {
    ',' !in v && (v == [] || (v[0] != '"' && v[|v| - 1] != '"'))
  }

  /** A map of directives the parser can produce. */
  predicate WellFormed(cc: Directives) {
    forall k :: k in cc ==>
      NameWellFormed(k) && (cc[k].Some? ==> ValueWellFormed(cc[k].value))
  }

  /** The value as written after the `=`. */
  function RawValue(v: Option<string>): Option<string> {
    match v
    case None => None
    case Some(v) => Some(if NeedsQuote(v) then "\"" + v + "\"" else v)
  }

  /** Removing the quotes gives back the value. */
  lemma {:induction false} UnquoteRaw(v: Option<string>)
    requires v.Some? ==> ValueWellFormed(v.value)
    ensures Unquote(RawValue(v)) == v
  {
    if v.Some? {
      if NeedsQuote(v.value) {
        TrimMatchesQuoted(v.value, '"');
      } else {
        TrimMatchesNone(v.value, '"');
      }
    }
  }

  /** The raw value is already trimmed: a quoted one starts and ends with `"`,
      an unquoted one is made of letters and digits. */
  lemma {:induction false} RawTrimmed(v: string)
    ensures Trim(RawValue(Some(v)).value) == RawValue(Some(v)).value
  {
    var r := RawValue(Some(v)).value;
    if !NeedsQuote(v) {
      assert !IsAsciiAlphanumeric(' ');
      assert IsAsciiAlphanumeric(r[0]) && IsAsciiAlphanumeric(r[|r| - 1]);
    }
    TrimKeeps(r);
  }

  /** The written text of a well-formed directive holds no comma. */
  lemma {:induction false} EntryNoComma(name: string, value: Option<string>)
    requires NameWellFormed(name)
    requires value.Some? ==> ValueWellFormed(value.value)
    ensures ',' !in EntryText(name, value)
  {
  }

  /** Reading the text of a well-formed directive gives back its name and raw value. */
  lemma {:induction false} ParseEntry(name: string, value: Option<string>)
    requires NameWellFormed(name)
    ensures ParseSegment(EntryText(name, value)) == Some(Directive(name, RawValue(value)))
  {
    var e := EntryText(name, value);
    TrimKeeps(name);
    if value.Some? {
      var raw := RawValue(value).value;
      assert e == name + ['='] + raw;
      SplitOnceAt(name, raw, '=');
      RawTrimmed(value.value);
      assert Trim(e) != [] by {
        TrimKeeps(e);
      }
    } else {
      assert e == name;
    }
  }

  /** A leading space changes nothing in how a segment is read. */
  lemma {:induction false} ParseSegmentLeadingSpace(part: string)
    ensures ParseSegment(" " + part) == ParseSegment(part)
  {
    var s := " " + part;
    assert s[1..] == part;
    TrimLeadingSpace(part);
    var (key, rest) := SplitOnce(part, '=');
    assert SplitOnce(s, '=') == (" " + key, rest);
    TrimLeadingSpace(key);
  }

  /** The directives read back from the written header: the entries in
      `order`, each with its raw value. */
  lemma {:induction false} ReadFormatted(cc: Directives, order: seq<string>)
    requires WellFormed(cc) && Enumerates(cc, order) && order != []
    ensures var ds := Read(Segments([Formatted(cc, order)]));
      |ds| == |order| &&
      forall i :: 0 <= i < |order| ==> ds[i] == Some(Directive(order[i], RawValue(cc[order[i]])))
  {
    FormattedSegments(cc, order);
    var segs := Segments([Formatted(cc, order)]);
    forall i | 0 <= i < |order|
      ensures Read(segs)[i] == Some(Directive(order[i], RawValue(cc[order[i]])))
    {
      ReadFormattedAt(cc, order, i);
    }
  }

  /** The segments of the written header: the entries, each after the first
      with the space `format_cache_control` puts after the comma. */
  lemma {:induction false} FormattedSegments(cc: Directives, order: seq<string>)
    requires WellFormed(cc) && Enumerates(cc, order) && order != []
    ensures var segs := Segments([Formatted(cc, order)]);
      |segs| == |order| &&
      forall i :: 0 <= i < |order| ==>
        segs[i] == if i == 0 then Entries(cc, order)[0] else " " + Entries(cc, order)[i]
  {
    var es := Entries(cc, order);
    forall i | 0 <= i < |es|
      ensures es[i] != [] && ',' !in es[i]
    {
      EntryNoComma(order[i], cc[order[i]]);
    }
    SplitJoined(es);
    SegmentsOfOne(Joined(es));
  }

  lemma {:induction false} ReadFormattedAt(cc: Directives, order: seq<string>, i: nat)
    requires WellFormed(cc) && Enumerates(cc, order) && i < |order|
    requires var segs := Segments([Formatted(cc, order)]);
      |segs| == |order| &&
      segs[i] == if i == 0 then Entries(cc, order)[0] else " " + Entries(cc, order)[i]
    ensures Read(Segments([Formatted(cc, order)]))[i] == Some(Directive(order[i], RawValue(cc[order[i]])))
  {
    var segs := Segments([Formatted(cc, order)]);
    ReadAt(segs, i);
    ParseEntry(order[i], cc[order[i]]);
    if i > 0 {
      ParseSegmentLeadingSpace(Entries(cc, order)[i]);
    }
  }

  /** An empty header value holds no directive. */
  lemma {:induction false} ParseEmpty()
    ensures ParsedCacheControl([[]]) == map[]
  {
    SegmentsOfOne([]);
    assert Segments([[]]) == [[]];
    assert ParseSegment([]) == None;
    var ds: seq<Option<Directive>> := [None];
    assert Read([[]]) == ds;
    assert ds == [] + ds;
    ScanAllSnoc([], None);
  }

  /** The directives `order` lists with their raw values, as read back. */
  ghost predicate RawEntries(cc: Directives, order: seq<string>, ds: seq<Option<Directive>>) {
    && Enumerates(cc, order)
    && |ds| == |order|
    && forall i :: 0 <= i < |order| ==> ds[i] == Some(Directive(order[i], RawValue(cc[order[i]])))
  }

  lemma {:induction false} RawEntryFirst(cc: Directives, order: seq<string>, ds: seq<Option<Directive>>, i: nat)
    requires RawEntries(cc, order, ds) && i < |order|
    ensures FirstOccurrence(ds, i, order[i])
  {
    forall j | 0 <= j < i
      ensures NameAt(ds, j) != Some(order[i])
    {
      assert NameAt(ds, j) == Some(order[j]);
    }
  }

  lemma {:induction false} RawEntriesConsistent(cc: Directives, order: seq<string>, ds: seq<Option<Directive>>)
    requires RawEntries(cc, order, ds)
    ensures ScanAll(ds).valid
  {
    assert forall i: nat :: i < |ds| ==> NameAt(ds, i) == Some(order[i]);
    assert forall i: nat, j: nat :: i < j < |ds| ==> NameAt(ds, i) != NameAt(ds, j);
    ScannedValid(ds);
  }

  lemma {:induction false} ScannedRawKeys(cc: Directives, order: seq<string>, ds: seq<Option<Directive>>)
    requires RawEntries(cc, order, ds)
    ensures forall k :: k in ScanAll(ds).cc <==> k in cc
  {
    forall k
      ensures k in ScanAll(ds).cc <==> k in cc
    {
      ScannedNames(ds, k);
      if k in cc {
        var i :| 0 <= i < |order| && order[i] == k;
        assert NameAt(ds, i) == Some(k);
      }
    }
  }

  lemma {:induction false} ScannedRawValues(cc: Directives, order: seq<string>, ds: seq<Option<Directive>>)
    requires WellFormed(cc) && RawEntries(cc, order, ds)
    requires forall k :: k in ScanAll(ds).cc <==> k in cc
    ensures forall k :: k in cc ==> ScanAll(ds).cc[k] == cc[k]
  {
    forall k | k in cc
      ensures ScanAll(ds).cc[k] == cc[k]
    {
      var i :| 0 <= i < |order| && order[i] == k;
      RawEntryFirst(cc, order, ds, i);
      ScannedFirstValue(ds, i, k);
      UnquoteRaw(cc[k]);
    }
  }

  /** Scanning distinct directives with their raw values rebuilds the map, with no conflict. */
  lemma {:induction false} ScanRawEntries(cc: Directives, order: seq<string>, ds: seq<Option<Directive>>)
    requires WellFormed(cc) && RawEntries(cc, order, ds)
    ensures ScanAll(ds) == Scan(cc, true)
  {
    RawEntriesConsistent(cc, order, ds);
    ScannedRawKeys(cc, order, ds);
    ScannedRawValues(cc, order, ds);
    SameDirectives(ScanAll(ds).cc, cc);
  }

  lemma {:induction false} SameDirectives(a: Directives, b: Directives)
    requires forall k :: k in a <==> k in b
    requires forall k :: k in b ==> a[k] == b[k]
    ensures a == b
  {
  }

  lemma {:induction false} ParseFormattedNonEmpty(cc: Directives, order: seq<string>)
    requires WellFormed(cc) && Enumerates(cc, order) && order != []
    ensures ParsedCacheControl([Formatted(cc, order)]) == cc
  {
    ReadFormatted(cc, order);
    ScanRawEntries(cc, order, Read(Segments([Formatted(cc, order)])));
  }

  /** The parser reads back exactly the directives `format_cache_control`
      wrote, whatever order the map yielded them in, for every map the parser
      can produce. */
  lemma {:induction false} ParseFormatted(cc: Directives, order: seq<string>)
    requires WellFormed(cc) && Enumerates(cc, order)
    ensures ParsedCacheControl([Formatted(cc, order)]) == cc
  {
    if order == [] {
      assert cc == map[];
      assert Formatted(cc, order) == [];
      ParseEmpty();
    } else {
      ParseFormattedNonEmpty(cc, order);
    }
  }

  /** What a comma-free segment reads as is well formed once unquoted. */
  lemma {:induction false} SegmentFacts(part: string)
    requires ',' !in part
    ensures var d := ParseSegment(part);
      d.Some? ==>
        && NameWellFormed(d.value.name)
        && (Unquote(d.value.value).Some? ==> ValueWellFormed(Unquote(d.value.value).value))
  {
    var d := ParseSegment(part);
    if d.Some? {
      SegmentNameFacts(part);
      SegmentValueFacts(part);
    }
  }

  lemma {:induction false} SegmentNameFacts(part: string)
    requires ',' !in part && ParseSegment(part).Some?
    ensures NameWellFormed(ParseSegment(part).value.name)
  {
    var (key, rest) := SplitOnce(part, '=');
    TrimSubset(key);
  }

  lemma {:induction false} SegmentValueFacts(part: string)
    requires ',' !in part && ParseSegment(part).Some?
    ensures var u := Unquote(ParseSegment(part).value.value);
      u.Some? ==> ValueWellFormed(u.value)
  {
    var (key, rest) := SplitOnce(part, '=');
    if rest.Some? {
      NotInSuffix(key + ['='], rest.value, ',');
      UnquotedWellFormed(rest.value);
    }
  }

  lemma {:induction false} NotInSuffix(a: string, b: string, x: char)
    requires x !in a + b
    ensures x !in b
  {
    forall j | 0 <= j < |b|
      ensures b[j] != x
    {
      assert (a + b)[|a| + j] == b[j];
    }
  }

  /** A comma-free value stays comma-free, and loses its quotes, once trimmed
      and unquoted. */
  lemma {:induction false} UnquotedWellFormed(r: string)
    requires ',' !in r
    ensures ValueWellFormed(TrimMatches(Trim(r), '"'))
  {
    TrimSubset(r);
    TrimMatchesSubset(Trim(r), '"');
  }

  /** Every directive the scan stores is well formed. */
  lemma {:induction false} ScannedWellFormed(values: seq<string>, k: string)
    requires k in ScanAll(Read(Segments(values))).cc
    ensures var v := ScanAll(Read(Segments(values))).cc[k];
      NameWellFormed(k) && (v.Some? ==> ValueWellFormed(v.value))
  {
    var ds := Read(Segments(values));
    ScannedNames(ds, k);
    var j: nat :| j < |ds| && NameAt(ds, j) == Some(k);
    FirstOccurrenceExists(ds, j, k);
    var i: nat :| i <= j && FirstOccurrence(ds, i, k);
    ScannedFirstValue(ds, i, k);
    ReadAt(Segments(values), i);
    SegmentFacts(Segments(values)[i]);
  }

  lemma {:induction false} MustRevalidateWellFormed()
    ensures NameWellFormed(MUST_REVALIDATE)
  {
    var m := MUST_REVALIDATE;
    assert m[0] == 'm' && m[|m| - 1] == 'e';
    TrimKeeps(m);
    assert forall i :: 0 <= i < |m| ==> m[i] != ',' && m[i] != '=';
  }

  lemma {:induction false} ScanWellFormed(values: seq<string>)
    ensures WellFormed(ScanAll(Read(Segments(values))).cc)
  {
    var cc := ScanAll(Read(Segments(values))).cc;
    forall k | k in cc
      ensures NameWellFormed(k) && (cc[k].Some? ==> ValueWellFormed(cc[k].value))
    {
      ScannedWellFormed(values, k);
    }
  }

  lemma {:induction false} FinishWellFormed(s: Scan)
    requires WellFormed(s.cc)
    ensures WellFormed(Finished(s))
  {
    if !s.valid {
      MustRevalidateWellFormed();
      WellFormedAdd(s.cc, MUST_REVALIDATE);
    }
  }

  lemma {:induction false} WellFormedAdd(cc: Directives, name: string)
    requires WellFormed(cc) && NameWellFormed(name)
    ensures WellFormed(cc[name := None])
  {
    var m := cc[name := None];
    forall k | k in m
      ensures NameWellFormed(k) && (m[k].Some? ==> ValueWellFormed(m[k].value))
    {
      if k != name {
        assert k in cc && m[k] == cc[k];
      }
    }
  }

  /** Every map the parser returns is well formed, so the round trip above
      covers all of them. */
  lemma {:induction false} ParsedWellFormed(values: seq<string>)
    ensures WellFormed(ParsedCacheControl(values))
  {
    ScanWellFormed(values);
    FinishWellFormed(ScanAll(Read(Segments(values))));
  }
}
