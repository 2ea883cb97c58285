/** String operations with the meaning the Rust standard library gives them
    (`str::trim`, `str::split`, `str::splitn`, `str::trim_matches`,
    `str::contains`, `u64::from_str`, `u64::to_string`). Strings are sequences
    of Unicode scalar values, as a Rust `&str` is. */
module Text {
  import opened Optional

  /** `char::is_whitespace`: the characters with the Unicode White_Space property. */
  predicate IsWhitespace(c: char) {
    || ('\t' <= c <= '\r')
    || c == ' ' || c == '\U{85}' || c == '\U{A0}' || c == '\U{1680}'
    || ('\U{2000}' <= c <= '\U{200A}')
    || c == '\U{2028}' || c == '\U{2029}' || c == '\U{202F}' || c == '\U{205F}' || c == '\U{3000}'
  }

  predicate IsAsciiAlphanumeric(c: char) {
    ('0' <= c <= '9') || ('a' <= c <= 'z') || ('A' <= c <= 'Z')
  }

  predicate StartsWith(s: string, p: string) {
    |p| <= |s| && s[..|p|] == p
  }

  predicate EndsWith(s: string, p: string) {
    |p| <= |s| && s[|s| - |p|..] == p
  }

  /** `str::trim_start`: drops the leading whitespace and nothing else. */
  function TrimStart(s: string): (r: string)
    ensures |r| <= |s| && r == s[|s| - |r|..]
    ensures forall i :: 0 <= i < |s| - |r| ==> IsWhitespace(s[i])
    ensures r == [] || !IsWhitespace(r[0])
  {
    if s != [] && IsWhitespace(s[0]) then TrimStart(s[1..]) else s
  }

  /** `str::trim_end`: drops the trailing whitespace and nothing else. */
  function TrimEnd(s: string): (r: string)
    ensures |r| <= |s| && r == s[..|r|]
    ensures forall i :: |r| <= i < |s| ==> IsWhitespace(s[i])
    ensures r == [] || !IsWhitespace(r[|r| - 1])
  {
    if s != [] && IsWhitespace(s[|s| - 1]) then TrimEnd(s[..|s| - 1]) else s
  }

  /** `str::trim`: the result neither starts nor ends with whitespace, and it is
      empty exactly when the input is blank. */
  function Trim(s: string): (r: string)
    ensures r == [] || (!IsWhitespace(r[0]) && !IsWhitespace(r[|r| - 1]))
    ensures r == [] <==> forall i :: 0 <= i < |s| ==> IsWhitespace(s[i])
  {
    var t := TrimStart(s);
    assert t == [] ==> forall i :: 0 <= i < |s| ==> IsWhitespace(s[i]);
    TrimEnd(t)
  }

  /** A string that neither starts nor ends with whitespace is its own trim. */
  lemma {:induction false} TrimKeeps(s: string)
    requires s == [] || (!IsWhitespace(s[0]) && !IsWhitespace(s[|s| - 1]))
    ensures Trim(s) == s
  {
  }

  /** Leading whitespace never survives a trim. */
  lemma {:induction false} TrimLeadingSpace(s: string)
    ensures Trim(" " + s) == Trim(s)
  {
    assert (" " + s)[1..] == s;
  }

  lemma {:induction false} TrimIdempotent(s: string)
    ensures Trim(Trim(s)) == Trim(s)
  {
    TrimKeeps(Trim(s));
  }

  /** `str::trim_start_matches` with a string pattern: strips every leading copy of `p`. */
  function TrimStartMatches(s: string, p: string): (r: string)
    ensures |r| <= |s| && r == s[|s| - |r|..]
    ensures p != [] ==> !StartsWith(r, p)
    decreases |s|
  {
    if p != [] && StartsWith(s, p) then TrimStartMatches(s[|p|..], p) else s
  }

  /** `str::trim_end_matches` with a string pattern: strips every trailing copy of `p`. */
  function TrimEndMatches(s: string, p: string): (r: string)
    ensures |r| <= |s| && r == s[..|r|]
    ensures p != [] ==> !EndsWith(r, p)
    decreases |s|
  {
    if p != [] && EndsWith(s, p) then TrimEndMatches(s[..|s| - |p|], p) else s
  }

  /** `str::trim_matches(c)`: strips every leading and every trailing `c`. */
  function TrimMatches(s: string, c: char): (r: string)
    ensures r == [] || (r[0] != c && r[|r| - 1] != c)
  {
    var t := TrimStartMatches(s, [c]);
    var r := TrimEndMatches(t, [c]);
    assert r != [] ==> r[|r| - 1] != c by {
      if r != [] { assert r[|r| - 1..] == [r[|r| - 1]]; }
    }
    assert r != [] ==> r[0] != c by {
      if r != [] { assert t[..1] == [t[0]] && t[0] == r[0]; }
    }
    r
  }

  /** Trimming only removes characters. */
  lemma {:induction false} TrimSubset(s: string)
    ensures forall x :: x in Trim(s) ==> x in s
  {
    var t := TrimStart(s);
    var r := Trim(s);
    forall x | x in r ensures x in s {
      var i :| 0 <= i < |r| && r[i] == x;
      assert t[i] == x;
      assert s[|s| - |t| + i] == x;
    }
  }

  lemma {:induction false} TrimMatchesSubset(s: string, c: char)
    ensures forall x :: x in TrimMatches(s, c) ==> x in s
  {
    var t := TrimStartMatches(s, [c]);
    var r := TrimMatches(s, c);
    assert r == TrimEndMatches(t, [c]);
    forall i | 0 <= i < |r|
      ensures r[i] in s
    {
      assert r[i] == t[i];
      assert t[i] == s[|s| - |t| + i];
    }
  }

  lemma {:induction false} TrimStartMatchesNone(s: string, c: char)
    requires s == [] || s[0] != c
    ensures TrimStartMatches(s, [c]) == s
  {
    if s != [] { assert s[..1] == [s[0]]; }
  }

  lemma {:induction false} TrimEndMatchesNone(s: string, c: char)
    requires s == [] || s[|s| - 1] != c
    ensures TrimEndMatches(s, [c]) == s
  {
    if s != [] { assert s[|s| - 1..] == [s[|s| - 1]]; }
  }

  /** A text that neither starts nor ends with `c` is unchanged by `trim_matches(c)`. */
  lemma {:induction false} TrimMatchesNone(v: string, c: char)
    requires v == [] || (v[0] != c && v[|v| - 1] != c)
    ensures TrimMatches(v, c) == v
  {
    TrimStartMatchesNone(v, c);
    TrimEndMatchesNone(v, c);
  }

  /** Surrounding quotes are stripped, and the text between them is kept. */
  lemma {:induction false} TrimMatchesQuoted(v: string, c: char)
    requires v == [] || (v[0] != c && v[|v| - 1] != c)
    ensures TrimMatches([c] + v + [c], c) == v
  {
    if v == [] {
      assert [c] + v + [c] == [c, c];
      assert TrimStartMatches([c, c], [c]) == TrimStartMatches([c], [c]) == TrimStartMatches([], [c]) == [];
    } else {
      OpeningQuoteStripped(v, c);
      ClosingQuoteStripped(v, c);
    }
  }

  lemma {:induction false} OpeningQuoteStripped(v: string, c: char)
    requires v != [] && v[0] != c
    ensures TrimStartMatches([c] + v + [c], [c]) == v + [c]
  {
    var s := [c] + v + [c];
    assert s[..1] == [c];
    assert s[1..] == v + [c];
    assert (v + [c])[..1] == [v[0]];
  }

  lemma {:induction false} ClosingQuoteStripped(v: string, c: char)
    requires v != [] && v[|v| - 1] != c
    ensures TrimEndMatches(v + [c], [c]) == v
  {
    assert (v + [c])[|v|..] == [c];
    assert (v + [c])[..|v|] == v;
    TrimEndMatchesNone(v, c);
  }

  /** `str::contains` with a string pattern. */
  predicate Contains(s: string, p: string)
    decreases |s|
  {
    StartsWith(s, p) || (s != [] && Contains(s[1..], p))
  }

  /** `Contains` holds exactly when `p` starts at some position of `s`. */
  lemma {:induction false} ContainsAt(s: string, p: string)
    ensures Contains(s, p) <==> exists i :: 0 <= i <= |s| - |p| && StartsWith(s[i..], p)
  {
    if s == [] {
      assert s[0..] == s;
    } else {
      ContainsAt(s[1..], p);
      if Contains(s, p) {
        if StartsWith(s, p) {
          assert s[0..] == s;
        } else {
          var i :| 0 <= i <= |s[1..]| - |p| && StartsWith(s[1..][i..], p);
          assert s[1..][i..] == s[i + 1..];
        }
      }
      if exists i :: 0 <= i <= |s| - |p| && StartsWith(s[i..], p) {
        var i :| 0 <= i <= |s| - |p| && StartsWith(s[i..], p);
        if i == 0 {
          assert s[0..] == s;
        } else {
          assert s[1..][i - 1..] == s[i..];
        }
      }
    }
  }

  /** `str::split` on one character: the pieces between the separators, empty
      pieces included, so there is always at least one piece. */
  function Split(s: string, sep: char): (r: seq<string>)
    ensures |r| >= 1
    ensures forall i :: 0 <= i < |r| ==> sep !in r[i]
  {
    if s == [] then [[]]
    else
      var rest := Split(s[1..], sep);
      if s[0] == sep then [[]] + rest else [[s[0]] + rest[0]] + rest[1..]
  }

  /** `slice::join`: the pieces with `sep` between each two of them. */
  function JoinWith(parts: seq<string>, sep: string): string {
    if parts == [] then []
    else if |parts| == 1 then parts[0]
    else parts[0] + sep + JoinWith(parts[1..], sep)
  }

  /** Joining the pieces of a split with the separator gives back the input. */
  lemma {:induction false} SplitJoin(s: string, sep: char)
    ensures JoinWith(Split(s, sep), [sep]) == s
  {
    if s != [] {
      var rest := Split(s[1..], sep);
      SplitJoin(s[1..], sep);
      if s[0] == sep {
        assert s == [sep] + s[1..];
      } else if |rest| == 1 {
        assert s == [s[0]] + s[1..];
      } else {
        assert ([[s[0]] + rest[0]] + rest[1..])[1..] == rest[1..];
        assert s == [s[0]] + s[1..];
      }
    }
  }

  /** A text without the separator is one piece. */
  lemma {:induction false} SplitNoSeparator(s: string, sep: char)
    requires sep !in s
    ensures Split(s, sep) == [s]
  {
    if s != [] {
      SplitNoSeparator(s[1..], sep);
      assert [s[0]] + s[1..] == s;
    }
  }

  /** Splitting distributes over a separator: the pieces of `a , b` are those of
      `a` followed by those of `b`. */
  lemma {:induction false} SplitConcat(a: string, b: string, sep: char)
    ensures Split(a + [sep] + b, sep) == Split(a, sep) + Split(b, sep)
  {
    var s := a + [sep] + b;
    if a == [] {
      assert s[1..] == b;
    } else {
      assert s[1..] == a[1..] + [sep] + b;
      SplitConcat(a[1..], b, sep);
    }
  }

  /** `str::splitn(2, sep)`: the text before the first separator and, when
      there is a separator, the text after it. */
  function SplitOnce(s: string, sep: char): (r: (string, Option<string>))
    ensures r.1.None? ==> r.0 == s && sep !in s
    ensures r.1.Some? ==> s == r.0 + [sep] + r.1.value && sep !in r.0
  {
    if s == [] then ([], None)
    else if s[0] == sep then ([], Some(s[1..]))
    else
      var (a, b) := SplitOnce(s[1..], sep);
      assert b.Some? ==> s == [s[0]] + a + [sep] + b.value;
      ([s[0]] + a, b)
  }

  /** A text without the separator is all before it. */
  lemma {:induction false} SplitOnceAbsent(s: string, sep: char)
    requires sep !in s
    ensures SplitOnce(s, sep) == (s, None)
  {
    if s != [] {
      assert s[0] != sep;
      SplitOnceAbsent(s[1..], sep);
      assert [s[0]] + s[1..] == s;
    }
  }

  /** The decomposition `SplitOnce` returns is the only one with the separator
      absent from the first part. */
  lemma {:induction false} SplitOnceAt(a: string, b: string, sep: char)
    requires sep !in a
    ensures SplitOnce(a + [sep] + b, sep) == (a, Some(b))
  {
    if a != [] {
      assert (a + [sep] + b)[1..] == a[1..] + [sep] + b;
      assert (a + [sep] + b)[0] == a[0] != sep;
      SplitOnceAt(a[1..], b, sep);
      assert [a[0]] + a[1..] == a;
    }
  }

  predicate IsDigit(c: char) {
    '0' <= c <= '9'
  }

  predicate AllDigits(s: string) {
    forall i :: 0 <= i < |s| ==> IsDigit(s[i])
  }

  /** The value of a run of decimal digits. */
  function DigitsValue(ds: string): nat
    requires AllDigits(ds)
  {
    if ds == [] then 0 else DigitsValue(ds[..|ds| - 1]) * 10 + (ds[|ds| - 1] as int - '0' as int)
  }

  const U64_LIMIT: nat := 0x1_0000_0000_0000_0000

  /** `u64::from_str`: an optional `+` followed by at least one ASCII digit, with
      a value below 2^64; anything else (empty, a sign alone, a `-`, spaces,
      overflow) is an error. */
  function ParseU64(s: string): (r: Option<nat>)
    ensures r.Some? ==> r.value < U64_LIMIT
    ensures r.Some? ==> exists d :: (s == d || s == "+" + d) && d != [] && AllDigits(d) && DigitsValue(d) == r.value
  {
    var digits := if s != [] && s[0] == '+' then s[1..] else s;
    assert s != [] && s[0] == '+' ==> s == "+" + digits;
    if digits != [] && AllDigits(digits) && DigitsValue(digits) < U64_LIMIT
    then Some(DigitsValue(digits))
    else None
  }

  function DigitChar(d: nat): (c: char)
    requires d < 10
    ensures IsDigit(c) && c as int - '0' as int == d
  {
    ('0' as int + d) as char
  }

  /** `u64::to_string`: decimal digits without sign or leading zeros, whose value is `n`. */
  function NatToString(n: nat): (r: string)
    ensures r != [] && AllDigits(r)
    ensures DigitsValue(r) == n
  {
    if n < 10 then [DigitChar(n)]
    else
      var prefix := NatToString(n / 10);
      var r := prefix + [DigitChar(n % 10)];
      assert r[..|r| - 1] == prefix;
      r
  }

  /** Parsing the decimal rendering of a `u64` gives the number back. */
  lemma {:induction false} ParseNatToString(n: nat)
    requires n < U64_LIMIT
    ensures ParseU64(NatToString(n)) == Some(n)
  {
    var r := NatToString(n);
    assert IsDigit(r[0]);
  }

  /** `str::to_ascii_lowercase`. */
  function AsciiLower(s: string): (r: string)
    ensures |r| == |s|
  {
    seq(|s|, i requires 0 <= i < |s| => if 'A' <= s[i] <= 'Z' then (s[i] as int + 32) as char else s[i])
  }
}
