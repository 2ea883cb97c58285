/** Reading and writing `Cache-Control` directives (src/lib.rs:54-113): a
    deliberately simple comma/equals splitter, with the rule of section 4.2.1 of
    RFC 7234 that a directive given twice with different values makes the
    freshness information invalid, which is recorded as a forced
    `must-revalidate`. */
module CacheControl {
  import opened Optional
  import opened Text
  import opened HeaderMap

  /** Directive name to its value, if it has one (the source's `HashMap`). */
  type Directives = map<string, Option<string>>

  const MUST_REVALIDATE := "must-revalidate"

  /** One comma-separated segment read as a directive: its trimmed name and its
      trimmed, still quoted, value. */
  datatype Directive = Directive(name: string, value: Option<string>)

  /** How one segment is read (src/lib.rs:63-71): a blank segment or an empty
      name is skipped; the name is the text before the first `=`, the value the
      text after it; both are trimmed, and names keep their case. */
  function ParseSegment(part: string): (r: Option<Directive>)
    ensures r.Some? ==> r.value.name != [] && Trim(r.value.name) == r.value.name
    ensures r.Some? && r.value.value.Some? ==> Trim(r.value.value.value) == r.value.value.value
    ensures r.Some? ==> r.value.value == SegmentValue(part)
  {
    if Trim(part) == [] then None
    else
      var (key, rest) := SplitOnce(part, '=');
      var name := Trim(key);
      TrimIdempotent(key);
      if name == [] then None
      else
        var value := if rest.Some? then Some(Trim(rest.value)) else None;
        assert value.Some? ==> Trim(value.value) == value.value by {
          if rest.Some? { TrimIdempotent(rest.value); }
        }
        Some(Directive(name, value))
  }

  /** A segment is skipped exactly when the text before its first `=` is
      blank, which covers a blank segment; otherwise that text, trimmed, is
      the directive's name. */
  lemma {:induction false} ParseSegmentName(part: string)
    ensures ParseSegment(part).None? <==> Trim(SplitOnce(part, '=').0) == []
    ensures ParseSegment(part).Some? ==> ParseSegment(part).value.name == Trim(SplitOnce(part, '=').0)
  {
    if Trim(part) == [] {
      assert forall i :: 0 <= i < |part| ==> part[i] != '=';
      SplitOnceAbsent(part, '=');
    }
  }

  /** The trimmed text after a segment's first `=`, if it has one. */
  function SegmentValue(part: string): Option<string> {
    var (_, rest) := SplitOnce(part, '=');
    if rest.Some? then Some(Trim(rest.value)) else None
  }

  /** What is stored for a first occurrence: the value with every surrounding `"` removed. */
  function Unquote(v: Option<string>): Option<string> {
    if v.Some? then Some(TrimMatches(v.value, '"')) else None
  }

  /** The state of the parser: the directives seen so far and whether no
      directive has repeated with a different value. */
  datatype Scan = Scan(cc: Directives, valid: bool)

  /** The segments read as directives, in order. */
  function Read(parts: seq<string>): (ds: seq<Option<Directive>>)
    ensures |ds| == |parts|
  {
    seq(|parts|, i requires 0 <= i < |parts| => ParseSegment(parts[i]))
  }

  /** One segment read into the state (src/lib.rs:72-83): a new name stores its
      unquoted value; a repeated name keeps the first value and clears `valid`
      when the stored value differs from the new raw value. */
  function Step(s: Scan, d: Option<Directive>): Scan {
    match d
    case None => s
    case Some(d) =>
      if d.name in s.cc then Scan(s.cc, s.valid && s.cc[d.name] == d.value)
      else Scan(s.cc[d.name := Unquote(d.value)], s.valid)
  }

  function ScanAll(ds: seq<Option<Directive>>): Scan {
    if ds == [] then Scan(map[], true)
    else Step(ScanAll(ds[..|ds| - 1]), ds[|ds| - 1])
  }

  /** The directives `parse_cache_control` returns for the values of the header. */
  function ParsedCacheControl(values: seq<string>): Directives {
    Finished(ScanAll(Read(Segments(values))))
  }

  /** The directives scanned, with `must-revalidate` added when a directive
      was repeated with a different value (src/lib.rs:86-88). */
  function Finished(s: Scan): Directives {
    if s.valid then s.cc else s.cc[MUST_REVALIDATE := None]
  }

  /** Finishing touches no directive other than `must-revalidate`. */
  lemma {:induction false} FinishedKeeps(s: Scan, name: string)
    requires name != MUST_REVALIDATE
    ensures name in Finished(s) <==> name in s.cc
    ensures name in s.cc ==> Finished(s)[name] == s.cc[name]
  {
  }

  /** The body of the inner loop of `parse_cache_control` (src/lib.rs:61-83):
      one segment read into the directives seen so far. */
  method ScanSegment(cc: Directives, isValid: bool, part: string) returns (cc': Directives, isValid': bool)
    ensures Scan(cc', isValid') == Step(Scan(cc, isValid), ParseSegment(part))
  {
    cc', isValid' := cc, isValid;
    if Trim(part) == [] {
      return;
    }
    var (key, rest) := SplitOnce(part, '=');
    var k := Trim(key);
    if k == [] {
      return;
    }
    var v := if rest.Some? then Some(Trim(rest.value)) else None;
    if k in cc {
      if cc[k] != v {
        isValid' := false;
      }
    } else {
      cc' := cc[k := Unquote(v)];
    }
  }

  /** `parse_cache_control` (src/lib.rs:56-90). */
  method ParseCacheControl(values: seq<string>) returns (cc: Directives)
    ensures cc == ParsedCacheControl(values)
  {
    cc := map[];
    var isValid := true;
    for i := 0 to |values|
      invariant Scan(cc, isValid) == ScanAll(Read(Segments(values[..i])))
    {
      var parts := Split(values[i], ',');
      assert values[..i + 1][..i] == values[..i];
      cc, isValid := ScanSegments(cc, isValid, Segments(values[..i]), parts);
      SegmentsSnoc(values, i);
    }
    assert values[..|values|] == values;
    if !isValid {
      cc := cc[MUST_REVALIDATE := None];
    }
  }

  /** The inner loop of `parse_cache_control` (src/lib.rs:61-83): the
      segments of one header value read after those of the values before it. */
  method ScanSegments(cc: Directives, isValid: bool, ghost before: seq<string>, parts: seq<string>)
    returns (cc': Directives, isValid': bool)
    requires Scan(cc, isValid) == ScanAll(Read(before))
    ensures Scan(cc', isValid') == ScanAll(Read(before + parts))
  {
    cc', isValid' := cc, isValid;
    assert before + parts[..0] == before;
    for j := 0 to |parts|
      invariant Scan(cc', isValid') == ScanAll(Read(before + parts[..j]))
    {
      ghost var pre := Read(before + parts[..j]);
      ghost var d := ParseSegment(parts[j]);
      ReadSnoc(before, parts, j);
      ScanAllSnoc(pre, d);
      cc', isValid' := ScanSegment(cc', isValid', parts[j]);
    }
    assert parts[..|parts|] == parts;
  }

  lemma {:induction false} ScanAllSnoc(ds: seq<Option<Directive>>, d: Option<Directive>)
    ensures ScanAll(ds + [d]) == Step(ScanAll(ds), d)
  {
    assert (ds + [d])[..|ds|] == ds;
  }

  lemma {:induction false} SegmentsSnoc(values: seq<string>, i: nat)
    requires i < |values|
    ensures Segments(values[..i + 1]) == Segments(values[..i]) + Split(values[i], ',')
  {
    assert values[..i + 1][..i] == values[..i];
  }

  lemma {:induction false} ReadSnoc(before: seq<string>, parts: seq<string>, j: nat)
    requires j < |parts|
    ensures Read(before + parts[..j + 1]) == Read(before + parts[..j]) + [ParseSegment(parts[j])]
  {
    assert parts[..j + 1] == parts[..j] + [parts[j]];
    assert before + parts[..j + 1] == (before + parts[..j]) + [parts[j]];
    ReadSnocOne(before + parts[..j], parts[j]);
  }

  lemma {:induction false} ReadSnocOne(parts: seq<string>, part: string)
    ensures Read(parts + [part]) == Read(parts) + [ParseSegment(part)]
  {
    var rl, rs := Read(parts + [part]), Read(parts);
    assert forall k :: 0 <= k < |rs| ==> rl[k] == rs[k];
  }

  /** The name directive `i` carries, if segment `i` holds one. */
  function NameAt(ds: seq<Option<Directive>>, i: nat): Option<string>
    requires i < |ds|
  {
    if ds[i].Some? then Some(ds[i].value.name) else None
  }

  /** Directive `i` is the first one naming `name`. */
  predicate FirstOccurrence(ds: seq<Option<Directive>>, i: nat, name: string) {
    && i < |ds|
    && NameAt(ds, i) == Some(name)
    && forall j :: 0 <= j < i ==> NameAt(ds, j) != Some(name)
  }

  /** Every repetition of a directive carries, raw, the value stored for its first occurrence. */
  ghost predicate Consistent(ds: seq<Option<Directive>>) {
    forall i: nat, j: nat, name ::
      i < j < |ds| && FirstOccurrence(ds, i, name) && NameAt(ds, j) == Some(name) ==>
        Unquote(ds[i].value.value) == ds[j].value.value
  }

  /** A directive naming `name` is preceded by, or is, a first occurrence of it. */
  lemma {:induction false} FirstOccurrenceExists(ds: seq<Option<Directive>>, k: nat, name: string)
    requires k < |ds| && NameAt(ds, k) == Some(name)
    ensures exists i: nat :: i <= k && FirstOccurrence(ds, i, name)
    decreases k
  {
    if !FirstOccurrence(ds, k, name) {
      var j: nat :| j < k && NameAt(ds, j) == Some(name);
      FirstOccurrenceExists(ds, j, name);
    }
  }

  /** The parser stores exactly the names some directive carries. */
  lemma {:induction false} ScannedNames(ds: seq<Option<Directive>>, name: string)
    ensures name in ScanAll(ds).cc <==> exists i: nat :: i < |ds| && NameAt(ds, i) == Some(name)
  {
    if ds != [] {
      var n := |ds| - 1;
      var init := ds[..n];
      ScannedNames(init, name);
      assert forall i: nat :: i < n ==> NameAt(init, i) == NameAt(ds, i);
      if name in ScanAll(ds).cc {
        if name in ScanAll(init).cc {
          var i: nat :| i < |init| && NameAt(init, i) == Some(name);
          assert NameAt(ds, i) == Some(name);
        } else {
          assert NameAt(ds, n) == Some(name);
        }
      } else {
        forall i: nat | i < |ds|
          ensures NameAt(ds, i) != Some(name)
        {
          if i < n {
            assert NameAt(init, i) == NameAt(ds, i);
          }
        }
      }
    }
  }

  /** The value stored for a name is the unquoted value of its first occurrence. */
  lemma {:induction false} ScannedFirstValue(ds: seq<Option<Directive>>, i: nat, name: string)
    requires FirstOccurrence(ds, i, name)
    ensures name in ScanAll(ds).cc
    ensures ScanAll(ds).cc[name] == Unquote(ds[i].value.value)
  {
    var n := |ds| - 1;
    assert forall j: nat :: j < n ==> NameAt(ds[..n], j) == NameAt(ds, j);
    if i == n {
      ScannedNames(ds[..n], name);
    } else {
      ScannedFirstValue(ds[..n], i, name);
    }
  }

  /** `valid` stays cleared once it is. */
  lemma {:induction false} ScannedInvalidStays(ds: seq<Option<Directive>>, k: nat)
    requires k <= |ds| && !ScanAll(ds[..k]).valid
    ensures !ScanAll(ds).valid
    decreases |ds| - k
  {
    if k < |ds| {
      assert ds[..k + 1][..k] == ds[..k];
      ScannedInvalidStays(ds, k + 1);
    } else {
      assert ds[..k] == ds;
    }
  }

  /** A repetition whose raw value differs from the stored one clears `valid`. */
  lemma {:induction false} ConflictInvalid(ds: seq<Option<Directive>>, i: nat, j: nat, name: string)
    requires i < j < |ds| && FirstOccurrence(ds, i, name) && NameAt(ds, j) == Some(name)
    requires Unquote(ds[i].value.value) != ds[j].value.value
    ensures !ScanAll(ds).valid
  {
    FirstOccurrencePrefix(ds, i, j, name);
    ScannedFirstValue(ds[..j], i, name);
    RepeatInvalid(ds, j, name);
  }

  /** A directive repeating a stored name with a different raw value clears `valid`. */
  lemma {:induction false} RepeatInvalid(ds: seq<Option<Directive>>, j: nat, name: string)
    requires j < |ds| && NameAt(ds, j) == Some(name)
    requires name in ScanAll(ds[..j]).cc && ScanAll(ds[..j]).cc[name] != ds[j].value.value
    ensures !ScanAll(ds).valid
  {
    var pre := ds[..j];
    assert ds[..j + 1] == pre + [ds[j]];
    ScanAllSnoc(pre, ds[j]);
    ScannedInvalidStays(ds, j + 1);
  }

  /** A first occurrence is still one in a prefix that holds it. */
  lemma {:induction false} FirstOccurrencePrefix(ds: seq<Option<Directive>>, i: nat, j: nat, name: string)
    requires i < j <= |ds| && FirstOccurrence(ds, i, name)
    ensures FirstOccurrence(ds[..j], i, name)
  {
    assert forall k: nat :: k < j ==> NameAt(ds[..j], k) == NameAt(ds, k);
  }

  /** A conflicting repetition clears `valid`. */
  lemma {:induction false} InconsistentInvalid(ds: seq<Option<Directive>>)
    requires !Consistent(ds)
    ensures !ScanAll(ds).valid
  {
    var i: nat, j: nat, name :| i < j < |ds| && FirstOccurrence(ds, i, name)
      && NameAt(ds, j) == Some(name)
      && Unquote(ds[i].value.value) != ds[j].value.value;
    ConflictInvalid(ds, i, j, name);
  }

  /** Consistency carries over to the directives without the last one. */
  lemma {:induction false} ConsistentInit(ds: seq<Option<Directive>>)
    requires ds != [] && Consistent(ds)
    ensures Consistent(ds[..|ds| - 1])
  {
    var init := ds[..|ds| - 1];
    forall i: nat, j: nat, name | i < j < |init| && FirstOccurrence(init, i, name) && NameAt(init, j) == Some(name)
      ensures Unquote(init[i].value.value) == init[j].value.value
    {
      assert forall k: nat :: k < |init| ==> NameAt(init, k) == NameAt(ds, k);
      assert FirstOccurrence(ds, i, name);
    }
  }

  /** With no conflicting repetition, `valid` stays set. */
  lemma {:induction false} ConsistentValid(ds: seq<Option<Directive>>)
    requires Consistent(ds)
    ensures ScanAll(ds).valid
  {
    if ds != [] {
      ConsistentInit(ds);
      ConsistentValid(ds[..|ds| - 1]);
      ConsistentValidStep(ds);
    }
  }

  lemma {:induction false} ConsistentValidStep(ds: seq<Option<Directive>>)
    requires ds != [] && Consistent(ds) && ScanAll(ds[..|ds| - 1]).valid
    ensures ScanAll(ds).valid
  {
    var n := |ds| - 1;
    var init := ds[..n];
    if ds[n].Some? && ds[n].value.name in ScanAll(init).cc {
      var name := ds[n].value.name;
      ScannedNames(init, name);
      var k: nat :| k < |init| && NameAt(init, k) == Some(name);
      FirstOccurrenceExists(init, k, name);
      var i: nat :| i <= k && FirstOccurrence(init, i, name);
      ScannedFirstValue(init, i, name);
      assert forall j: nat :: j < n ==> NameAt(init, j) == NameAt(ds, j);
      assert FirstOccurrence(ds, i, name);
    }
  }

  /** The parse is valid exactly when every repeated directive repeats, raw,
      the value stored for its first occurrence. */
  lemma {:induction false} ScannedValid(ds: seq<Option<Directive>>)
    ensures ScanAll(ds).valid <==> Consistent(ds)
  {
    if Consistent(ds) {
      ConsistentValid(ds);
    } else {
      InconsistentInvalid(ds);
    }
  }

  /** A directive other than `must-revalidate` is in the parse exactly when some
      segment names it. */
  lemma {:induction false} ParsedNames(values: seq<string>, name: string)
    requires name != MUST_REVALIDATE
    ensures var ds := Read(Segments(values));
      name in ParsedCacheControl(values) <==> exists i: nat :: i < |ds| && NameAt(ds, i) == Some(name)
  {
    var ds := Read(Segments(values));
    ScannedNames(ds, name);
    FinishedKeeps(ScanAll(ds), name);
  }

  /** The first occurrence of a directive wins, with its surrounding quotes removed. */
  lemma {:induction false} ParsedFirstValue(values: seq<string>, i: nat, name: string)
    requires name != MUST_REVALIDATE && FirstOccurrence(Read(Segments(values)), i, name)
    ensures name in ParsedCacheControl(values)
    ensures ParsedCacheControl(values)[name] == Unquote(Read(Segments(values))[i].value.value)
  {
    ScannedFirstValue(Read(Segments(values)), i, name);
    FinishedKeeps(ScanAll(Read(Segments(values))), name);
  }

  /** A directive repeated with a different value forces `must-revalidate`
      (with no value); otherwise nothing is added. */
  lemma {:induction false} ParsedConflict(values: seq<string>)
    ensures var ds := Read(Segments(values));
      && (!Consistent(ds) ==> MUST_REVALIDATE in ParsedCacheControl(values) && ParsedCacheControl(values)[MUST_REVALIDATE] == None)
      && (Consistent(ds) ==> ParsedCacheControl(values) == ScanAll(ds).cc)
  {
    ScannedValid(Read(Segments(values)));
  }

  /** The directive read from segment `i` is that segment parsed. */
  lemma {:induction false} ReadAt(parts: seq<string>, i: nat)
    requires i < |parts|
    ensures Read(parts)[i] == ParseSegment(parts[i])
  {
  }
}
