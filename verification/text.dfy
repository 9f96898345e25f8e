/** The string operations of JavaScript that the client relies on:
    `String.prototype.trim`, `String(n)` for integers, the integer subset of
    `Number(s)`, `slice(0, n)`, and splitting/joining on a separator. */
module Text {
  import opened Wrappers

  /** WhiteSpace and LineTerminator code points of ECMA-262 (sections 12.2
      and 12.3): exactly the characters `trim` strips. */
  predicate IsWhitespace(c: char) {
    var n := c as int;
    n == 0x09 || n == 0x0A || n == 0x0B || n == 0x0C || n == 0x0D || n == 0x20
    || n == 0xA0 || n == 0x1680 || (0x2000 <= n <= 0x200A) || n == 0x2028
    || n == 0x2029 || n == 0x202F || n == 0x205F || n == 0x3000 || n == 0xFEFF
  }

  predicate AllWhitespace(s: string) {
    forall i :: 0 <= i < |s| ==> IsWhitespace(s[i])
  }

  /** The first position at or after `i` that does not hold whitespace
      (`|s|` when there is none). */
  function SkipWhitespace(s: string, i: nat): (r: nat)
    requires i <= |s|
    ensures i <= r <= |s|
    ensures forall j :: i <= j < r ==> IsWhitespace(s[j])
    ensures r == |s| || !IsWhitespace(s[r])
    decreases |s| - i
  {
    if i < |s| && IsWhitespace(s[i]) then SkipWhitespace(s, i + 1) else i
  }

  /** The end of `s[..j]` once its trailing whitespace is dropped. */
  function SkipWhitespaceBack(s: string, j: nat): (r: nat)
    requires j <= |s|
    ensures r <= j
    ensures forall k :: r <= k < j ==> IsWhitespace(s[k])
    ensures r == 0 || !IsWhitespace(s[r - 1])
  {
    if j > 0 && IsWhitespace(s[j - 1]) then SkipWhitespaceBack(s, j - 1) else j
  }

  /** Drops leading whitespace: the result is the suffix of `s` that starts
      at its first non-whitespace character. */
  function TrimStart(s: string): (r: string)
    ensures |r| <= |s| && r == s[|s| - |r|..]
    ensures AllWhitespace(s[..|s| - |r|])
    ensures r == [] || !IsWhitespace(r[0])
  {
    s[SkipWhitespace(s, 0)..]
  }

  /** Drops trailing whitespace: the result is the prefix of `s` that ends
      at its last non-whitespace character. */
  function TrimEnd(s: string): (r: string)
    ensures |r| <= |s| && r == s[..|r|]
    ensures AllWhitespace(s[|r|..])
    ensures r == [] || !IsWhitespace(r[|r| - 1])
  {
    s[..SkipWhitespaceBack(s, |s|)]
  }

  /** `String.prototype.trim`: `s` is `lead + r + tail` with `lead` and
      `tail` all whitespace and `r` neither starting nor ending with it. */
  function Trim(s: string): (r: string)
    ensures exists k :: (0 <= k <= |s| - |r| && r == s[k..k + |r|]
                         && AllWhitespace(s[..k]) && AllWhitespace(s[k + |r|..]))
    ensures r == [] || (!IsWhitespace(r[0]) && !IsWhitespace(r[|r| - 1]))
  {
    var u := TrimStart(s);
    var r := TrimEnd(u);
    var k := |s| - |u|;
    assert r == s[k..k + |r|] && s[k + |r|..] == u[|r|..];
    r
  }

  /** The trimmed string is empty exactly when every character is whitespace. */
  lemma TrimEmptyIff(s: string)
    ensures Trim(s) == [] <==> AllWhitespace(s)
  {
  }

  /** A string that neither starts nor ends with whitespace is its own trim. */
  lemma {:induction false} TrimOfTrimmed(s: string)
    requires s == [] || (!IsWhitespace(s[0]) && !IsWhitespace(s[|s| - 1]))
    ensures Trim(s) == s
  {
    assert TrimStart(s) == s;
    assert TrimEnd(s) == s;
  }

  /** Neither starts nor ends with whitespace. */
  predicate Trimmed(s: string) {
    s == [] || (!IsWhitespace(s[0]) && !IsWhitespace(s[|s| - 1]))
  }

  /** The strings `trim` leaves alone are exactly the trimmed ones. */
  lemma TrimmedIff(s: string)
    ensures Trimmed(s) <==> Trim(s) == s
  {
    if Trimmed(s) {
      TrimOfTrimmed(s);
    }
  }

  /** Trimming twice is trimming once. */
  lemma TrimIdempotent(s: string)
    ensures Trim(Trim(s)) == Trim(s)
  {
    TrimOfTrimmed(Trim(s));
  }

  /** `s.slice(0, n)` for `n >= 0`: the first `min(n, |s|)` characters. */
  function Take<T>(s: seq<T>, n: nat): (r: seq<T>)
    ensures |r| == if |s| < n then |s| else n
    ensures forall i :: 0 <= i < |r| ==> r[i] == s[i]
  {
    if |s| <= n then s else s[..n]
  }

  // ---------------------------------------------------------------------------
  // Decimal integers

  predicate IsDigit(c: char) {
    '0' <= c <= '9'
  }

  predicate AllDigits(s: string) {
    forall i :: 0 <= i < |s| ==> IsDigit(s[i])
  }

  function DigitChar(d: nat): (c: char)
    requires d < 10
    ensures IsDigit(c) && c as int - '0' as int == d
  {
    ('0' as int + d) as char
  }

  /** The value of a string of decimal digits, most significant first. */
  function DigitsValue(s: string): nat
    requires AllDigits(s)
  {
    if s == [] then 0
    else DigitsValue(s[..|s| - 1]) * 10 + (s[|s| - 1] as int - '0' as int)
  }

  /** `String(n)` for a non-negative integer: its shortest decimal numeral. */
  function NatToString(n: nat): (r: string)
    ensures |r| >= 1 && AllDigits(r)
    ensures r[0] != '0' || n == 0
    ensures n < 10 <==> |r| == 1
  {
    if n < 10 then [DigitChar(n)] else NatToString(n / 10) + [DigitChar(n % 10)]
  }

  /** Reading back the numeral `String(n)` gives `n`. */
  lemma {:induction false} NatToStringRoundTrip(n: nat)
    ensures DigitsValue(NatToString(n)) == n
  {
    if n >= 10 {
      var s := NatToString(n);
      assert s[..|s| - 1] == NatToString(n / 10);
      NatToStringRoundTrip(n / 10);
    }
  }

  /** Distinct numbers have distinct numerals. */
  lemma NatToStringInjective(m: nat, n: nat)
    requires NatToString(m) == NatToString(n)
    ensures m == n
  {
    NatToStringRoundTrip(m);
    NatToStringRoundTrip(n);
  }

  /** `String(n)` for an integer: an optional minus sign and a numeral. */
  function IntToString(n: int): (r: string)
    ensures |r| >= 1
    ensures forall i :: 0 <= i < |r| ==> IsDigit(r[i]) || (i == 0 && r[i] == '-')
    ensures r[0] == '-' <==> n < 0
  {
    if n < 0 then "-" + NatToString(-n) else NatToString(n)
  }

  /** An optional sign followed by one or more decimal digits, or `None`. */
  function ParseSignedDecimal(s: string): (r: Option<int>)
    ensures r.Some? ==> |s| >= 1 && IsDigit(s[|s| - 1])
  {
    if |s| >= 1 && (s[0] == '-' || s[0] == '+') then
      var digits := s[1..];
      if |digits| >= 1 && AllDigits(digits) then
        var v: int := DigitsValue(digits);
        Some(if s[0] == '-' then -v else v)
      else None
    else if |s| >= 1 && AllDigits(s) then Some(DigitsValue(s))
    else None
  }

  /** The signed-decimal-integer subset of JavaScript's `Number(s)` (ECMA-262 section
      7.1.4.1.1, StringToNumber): surrounding whitespace is ignored, a blank
      string is 0, a signed decimal numeral is its value, anything else
      yields `None`, the model's reading of NaN. */
  function JsNumber(s: string): Option<int> {
    var t := Trim(s);
    if t == [] then Some(0) else ParseSignedDecimal(t)
  }

  /** `Number(String(n)) == n`. */
  lemma JsNumberOfIntToString(n: int)
    ensures JsNumber(IntToString(n)) == Some(n)
  {
    var s := IntToString(n);
    assert !IsWhitespace(s[0]) && !IsWhitespace(s[|s| - 1]);
    TrimOfTrimmed(s);
    if n < 0 {
      ParseNegativeNumeral(n);
    } else {
      ParseNumeral(n);
    }
  }

  /** A numeral reads back as its value. */
  lemma ParseNumeral(n: nat)
    ensures ParseSignedDecimal(IntToString(n)) == Some(n)
  {
    var s := NatToString(n);
    assert IntToString(n) == s && IsDigit(s[0]);
    NatToStringRoundTrip(n);
  }

  /** A minus sign before a numeral reads back as the negated value. */
  lemma ParseNegativeNumeral(n: int)
    requires n < 0
    ensures ParseSignedDecimal(IntToString(n)) == Some(n)
  {
    var digits := NatToString(-n);
    var s := "-" + digits;
    assert IntToString(n) == s;
    assert s[0] == '-' && s[1..] == digits;
    NatToStringRoundTrip(-n);
    var v: int := DigitsValue(digits);
    assert v == -n;
  }

  /** Only blank strings read as 0 without a digit: a string of whitespace
      is a number, not NaN. */
  lemma JsNumberOfBlank(s: string)
    requires AllWhitespace(s)
    ensures JsNumber(s) == Some(0)
  {
    TrimEmptyIff(s);
  }

  // ---------------------------------------------------------------------------
  // Splitting and joining

  /** `parts.join(sep)`. */
  function Join(parts: seq<string>, sep: string): string {
    if |parts| == 0 then ""
    else if |parts| == 1 then parts[0]
    else parts[0] + sep + Join(parts[1..], sep)
  }

  /** The first position of `d` in `s`, if any. */
  function IndexOf(s: string, d: char): (r: Option<nat>)
    ensures r.None? ==> d !in s
    ensures r.Some? ==> r.value < |s| && s[r.value] == d && d !in s[..r.value]
  {
    IndexFrom(s, d, 0)
  }

  /** The first position at or after `i` where `d` occurs, if any. */
  function IndexFrom(s: string, d: char, i: nat): (r: Option<nat>)
    requires i <= |s|
    ensures r.None? ==> forall k :: i <= k < |s| ==> s[k] != d
    ensures r.Some? ==> i <= r.value < |s| && s[r.value] == d
                        && forall k :: i <= k < r.value ==> s[k] != d
    decreases |s| - i
  {
    if i == |s| then None else if s[i] == d then Some(i) else IndexFrom(s, d, i + 1)
  }

  /** `s.split(d)`: the maximal runs of `s` between occurrences of `d`. */
  function Split(s: string, d: char): (r: seq<string>)
    ensures |r| >= 1
    decreases |s|
  {
    match IndexOf(s, d)
    case None => [s]
    case Some(i) => [s[..i]] + Split(s[i + 1..], d)
  }

  /** Splitting a join recovers the parts when no part holds the separator. */
  lemma {:induction false} SplitJoin(parts: seq<string>, d: char)
    requires |parts| >= 1
    requires forall i :: 0 <= i < |parts| ==> d !in parts[i]
    ensures Split(Join(parts, [d]), d) == parts
  {
    if |parts| == 1 {
      assert IndexOf(parts[0], d) == None;
    } else {
      var s := Join(parts, [d]);
      var rest := Join(parts[1..], [d]);
      assert s == parts[0] + [d] + rest;
      IndexOfAfter(parts[0], d, rest);
      assert s[..|parts[0]|] == parts[0];
      assert s[|parts[0]| + 1..] == rest;
      SplitJoin(parts[1..], d);
    }
  }

  /** The first `d` of `p + [d] + rest` is the one after `p`. */
  lemma IndexOfAfter(p: string, d: char, rest: string)
    requires d !in p
    ensures IndexOf(p + [d] + rest, d) == Some(|p|)
  {
    var s := p + [d] + rest;
    assert s[|p|] == d;
    assert s[..|p|] == p;
  }

  /** `s.split(sep)` for a non-empty separator: the runs between the
      occurrences of `sep` found scanning from the left, each search
      resuming after the previous match (ECMA-262 section 22.1.3.23). */
  function SplitOn(s: string, sep: string): (r: seq<string>)
    requires sep != []
    ensures |r| >= 1
    decreases |s|
  {
    if |s| < |sep| then [s]
    else if s[..|sep|] == sep then [""] + SplitOn(s[|sep|..], sep)
    else
      var rest := SplitOn(s[1..], sep);
      [[s[0]] + rest[0]] + rest[1..]
  }

  /** `c` occurs in `sep` exactly once, at `m`: no run free of `c` can
      complete an occurrence of `sep` together with a following one. */
  predicate MarkedAt(sep: string, c: char, m: nat) {
    m < |sep| && sep[m] == c && forall k :: 0 <= k < |sep| && k != m ==> sep[k] != c
  }

  /** A run without the marker holds no separator. */
  lemma {:induction false} SplitOnPlain(p: string, sep: string, c: char, m: nat)
    requires MarkedAt(sep, c, m) && c !in p
    ensures SplitOn(p, sep) == [p]
    decreases |p|
  {
    if |p| >= |sep| {
      assert p[..|sep|][m] == p[m];
      SplitOnPlain(p[1..], sep, c, m);
      assert [p[0]] + p[1..] == p;
    }
  }

  /** The first separator of `p + sep + rest` is the one after `p`. */
  lemma {:induction false} SplitOnFirst(p: string, sep: string, rest: string, c: char, m: nat)
    requires MarkedAt(sep, c, m) && c !in p
    ensures SplitOn(p + sep + rest, sep) == [p] + SplitOn(rest, sep)
    decreases |p|
  {
    var s := p + sep + rest;
    if p == [] {
      assert s == sep + rest;
      assert s[..|sep|] == sep && s[|sep|..] == rest;
    } else {
      assert s[..|sep|] != sep by {
        if m < |p| {
          assert s[..|sep|][m] == p[m];
        } else {
          assert s[..|sep|][m] == sep[m - |p|];
        }
      }
      var t := sep + rest;
      assert s == p + t && p[1..] + sep + rest == p[1..] + t;
      assert s[1..] == p[1..] + t;
      SplitOnFirst(p[1..], sep, rest, c, m);
      assert [p[0]] + p[1..] == p;
    }
  }

  /** Splitting a join recovers the parts when no part holds the
      separator's marker character. */
  lemma {:induction false} SplitOnJoin(parts: seq<string>, sep: string, c: char, m: nat)
    requires |parts| >= 1 && MarkedAt(sep, c, m)
    requires forall i :: 0 <= i < |parts| ==> c !in parts[i]
    ensures SplitOn(Join(parts, sep), sep) == parts
  {
    if |parts| == 1 {
      SplitOnPlain(parts[0], sep, c, m);
    } else {
      SplitOnFirst(parts[0], sep, Join(parts[1..], sep), c, m);
      SplitOnJoin(parts[1..], sep, c, m);
      assert parts == [parts[0]] + parts[1..];
    }
  }

  /** Splitting on one character is the one-character case of `SplitOn`. */
  lemma {:induction false} SplitIsSplitOn(s: string, d: char)
    ensures SplitOn(s, [d]) == Split(s, d)
    decreases |s|
  {
    match IndexOf(s, d)
    case None =>
      SplitOnPlain(s, [d], d, 0);
    case Some(i) =>
      assert s == s[..i] + [d] + s[i + 1..];
      SplitOnFirst(s[..i], [d], s[i + 1..], d, 0);
      SplitIsSplitOn(s[i + 1..], d);
  }
}
