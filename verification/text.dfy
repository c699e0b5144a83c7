/** String primitives of the Python runtime, restricted to ASCII for case
    mapping and decimal digits; white space and line breaks cover all of Unicode. */
module Text {

  datatype Option<+T> = None | Some(value: T)

  // ---------------------------------------------------------------- characters

  predicate IsDigit(c: char) { '0' <= c <= '9' }

  predicate IsHex(c: char) { IsDigit(c) || 'a' <= c <= 'f' || 'A' <= c <= 'F' }

  predicate IsUpperHex(c: char) { IsDigit(c) || 'A' <= c <= 'F' }

  predicate IsLowerLetter(c: char) { 'a' <= c <= 'z' }

  predicate IsAlphanumeric(c: char) { IsDigit(c) || 'A' <= c <= 'Z' || IsLowerLetter(c) }

  function HexDigitValue(c: char): (n: nat)
    requires IsHex(c)
    ensures n < 16
  {
    if IsDigit(c) then (c - '0') as nat
    else if 'a' <= c <= 'f' then (c - 'a') as nat + 10
    else (c - 'A') as nat + 10
  }

  /** str.isspace() and the regex class \s, on all Unicode characters. */
  predicate IsSpace(c: char) {
    || c == ' ' || '\t' <= c <= '\r' || '\U{1C}' <= c <= '\U{1F}'
    || c == '\U{85}' || c == '\U{A0}' || c == '\U{1680}' || '\U{2000}' <= c <= '\U{200A}'
    || c == '\U{2028}' || c == '\U{2029}' || c == '\U{202F}' || c == '\U{205F}' || c == '\U{3000}'
  }

  predicate NotSpace(c: char) { !IsSpace(c) }

  /** The characters at which str.splitlines() ends a line. */
  predicate IsLineBreak(c: char) {
    || '\n' <= c <= '\r' || '\U{1C}' <= c <= '\U{1E}'
    || c == '\U{85}' || c == '\U{2028}' || c == '\U{2029}'
  }

  function UpperChar(c: char): char {
    if IsLowerLetter(c) then c - 'a' + 'A' else c
  }

  function LowerChar(c: char): char {
    if 'A' <= c <= 'Z' then c - 'A' + 'a' else c
  }

  function Upper(s: string): string { seq(|s|, i requires 0 <= i < |s| => UpperChar(s[i])) }

  function Lower(s: string): string { seq(|s|, i requires 0 <= i < |s| => LowerChar(s[i])) }

  predicate AllHex(s: string) { forall i :: 0 <= i < |s| ==> IsHex(s[i]) }

  predicate AllUpperHex(s: string) { forall i :: 0 <= i < |s| ==> IsUpperHex(s[i]) }

  predicate AllLowerLetters(s: string) { forall i :: 0 <= i < |s| ==> IsLowerLetter(s[i]) }

  predicate AllDigits(s: string) { forall i :: 0 <= i < |s| ==> IsDigit(s[i]) }

  predicate All(s: string, p: char -> bool) { forall i :: 0 <= i < |s| ==> p(s[i]) }

  /** Equal except for letter case. */
  predicate SameUpToCase(a: string, b: string) {
    |a| == |b| && forall i :: 0 <= i < |a| ==> UpperChar(a[i]) == UpperChar(b[i])
  }

  lemma SameUpToCaseParts(s: string, a: string, b: string)
    requires SameUpToCase(s, a + b)
    ensures SameUpToCase(s[..|a|], a) && SameUpToCase(s[|a|..], b)
  {
    assert forall i :: 0 <= i < |a| ==> (a + b)[i] == a[i];
    assert forall i :: 0 <= i < |b| ==> (a + b)[|a| + i] == b[i];
  }

  lemma SameUpToCaseConcat(s: string, t: string, a: string, b: string)
    requires SameUpToCase(s, a) && SameUpToCase(t, b)
    ensures SameUpToCase(s + t, a + b)
  {
  }

  // ------------------------------------------------------------------- slicing

  /** s[:n] for a Python string: clipped, never out of range. */
  function Take<T>(s: seq<T>, n: nat): seq<T> { if n <= |s| then s[..n] else s }

  /** s[n:] for a Python string: clipped, never out of range. */
  function Drop<T>(s: seq<T>, n: nat): seq<T> { if n <= |s| then s[n..] else [] }

  predicate StartsWith<T(==)>(s: seq<T>, prefix: seq<T>) { prefix <= s }

  /** Length of the longest prefix of s whose characters all satisfy p. */
  function Span(s: string, p: char -> bool): (n: nat)
    ensures n <= |s| && All(s[..n], p)
    ensures n < |s| ==> !p(s[n])
  {
    if s == [] || !p(s[0]) then 0 else 1 + Span(s[1..], p)
  }

  lemma {:induction false} SpanUnique(a: string, b: string, p: char -> bool)
    requires All(a, p) && (b == [] || !p(b[0]))
    ensures Span(a + b, p) == |a|
  {
    if a == [] {
      assert a + b == b;
    } else {
      assert (a + b)[1..] == a[1..] + b;
      assert a == [a[0]] + a[1..];
      SpanUnique(a[1..], b, p);
    }
  }

  function LStrip(s: string, p: char -> bool): (r: string)
    ensures r == [] || !p(r[0])
  {
    s[Span(s, p)..]
  }

  function RStrip(s: string, p: char -> bool): (r: string)
    ensures r <= s && (r == [] || !p(r[|r| - 1]))
  {
    if s != [] && p(s[|s| - 1]) then RStrip(s[..|s| - 1], p) else s
  }

  function Strip(s: string, p: char -> bool): string { RStrip(LStrip(s, p), p) }

  lemma {:induction false} RStripSuffix(s: string, t: string, p: char -> bool)
    requires s == [] || !p(s[|s| - 1])
    requires All(t, p)
    ensures RStrip(s + t, p) == s
  {
    if t == [] {
      assert s + t == s;
    } else {
      assert (s + t)[..|s + t| - 1] == s + t[..|t| - 1];
      assert (s + t)[|s + t| - 1] == t[|t| - 1];
      RStripSuffix(s, t[..|t| - 1], p);
    }
  }

  lemma StripIdentity(s: string, p: char -> bool)
    requires s == [] || (!p(s[0]) && !p(s[|s| - 1]))
    ensures Strip(s, p) == s
  {
    RStripSuffix(s, [], p);
    assert s + [] == s;
  }

  /** v is what stands between the runs of p at the ends of s. */
  ghost predicate IsStripped(s: string, v: string, p: char -> bool) {
    && (v == "" || (!p(v[0]) && !p(v[|v| - 1])))
    && exists left, right :: s == left + (v + right) && All(left, p) && All(right, p)
  }

  lemma {:induction false} RStripParts(s: string, p: char -> bool)
    ensures All(s[|RStrip(s, p)|..], p)
  {
    if s != "" && p(s[|s| - 1]) {
      var t := s[..|s| - 1];
      RStripParts(t, p);
      var n := |RStrip(s, p)|;
      assert s[n..] == t[n..] + [s[|s| - 1]];
    }
  }

  lemma StripExact(s: string, v: string, p: char -> bool)
    ensures Strip(s, p) == v <==> IsStripped(s, v, p)
  {
    if Strip(s, p) == v {
      var n := Span(s, p);
      var t := LStrip(s, p);
      RStripParts(t, p);
      assert v <= t;
      assert s == s[..n] + (v + t[|v|..]);
      assert v != "" ==> v[0] == t[0];
    }
    if IsStripped(s, v, p) {
      var left, right :| s == left + (v + right) && All(left, p) && All(right, p);
      StripsTo(left, v, right, p);
    }
  }

  lemma StripsTo(left: string, v: string, right: string, p: char -> bool)
    requires All(left, p) && All(right, p) && (v == "" || (!p(v[0]) && !p(v[|v| - 1])))
    ensures Strip(left + (v + right), p) == v
  {
    hide RStrip;
    var s := left + (v + right);
    if v == "" {
      assert s == (left + right) + "";
      SpanUnique(left + right, "", p);
      assert LStrip(s, p) == "";
      RStripSuffix("", "", p);
      assert "" + "" == "";
    } else {
      assert (v + right)[0] == v[0];
      SpanUnique(left, v + right, p);
      RStripSuffix(v, right, p);
    }
  }

  // ------------------------------------------------------------ split and join

  function Split<T(==)>(s: seq<T>, sep: T): (r: seq<seq<T>>)
    ensures |r| >= 1
    ensures forall i :: 0 <= i < |r| ==> sep !in r[i]
  {
    if s == [] then [[]]
    else if s[0] == sep then [[]] + Split(s[1..], sep)
    else
      var r := Split(s[1..], sep);
      [[s[0]] + r[0]] + r[1..]
  }

  function Join<T>(parts: seq<seq<T>>, sep: seq<T>): seq<T> {
    if |parts| == 0 then []
    else if |parts| == 1 then parts[0]
    else parts[0] + sep + Join(parts[1..], sep)
  }

  lemma {:induction false} JoinOfSplit<T>(s: seq<T>, sep: T)
    ensures Join(Split(s, sep), [sep]) == s
  {
    if s != [] {
      JoinOfSplit(s[1..], sep);
      var r := Split(s[1..], sep);
      if s[0] == sep {
        assert ([[]] + r)[1..] == r;
        assert s == [sep] + s[1..];
      } else {
        assert ([[s[0]] + r[0]] + r[1..])[1..] == r[1..];
        assert s == [s[0]] + s[1..];
      }
    }
  }

  /** Splitting reads off the first separator-free piece and continues behind it. */
  lemma {:induction false} SplitPrefix<T>(a: seq<T>, b: seq<T>, sep: T)
    requires sep !in a
    ensures Split(a + [sep] + b, sep) == [a] + Split(b, sep)
  {
    if a == [] {
      assert (a + [sep] + b)[1..] == b;
    } else {
      assert (a + [sep] + b)[1..] == a[1..] + [sep] + b;
      SplitPrefix(a[1..], b, sep);
      assert [a[0]] + a[1..] == a;
    }
  }

  lemma {:induction false} SplitWhole<T>(a: seq<T>, sep: T)
    requires sep !in a
    ensures Split(a, sep) == [a]
  {
    if a != [] {
      SplitWhole(a[1..], sep);
      assert [a[0]] + a[1..] == a;
    }
  }

  lemma {:induction false} SplitOfJoin<T>(parts: seq<seq<T>>, sep: T)
    requires |parts| >= 1
    requires forall i :: 0 <= i < |parts| ==> sep !in parts[i]
    ensures Split(Join(parts, [sep]), sep) == parts
  {
    if |parts| == 1 {
      SplitWhole(parts[0], sep);
    } else {
      SplitOfJoin(parts[1..], sep);
      SplitPrefix(parts[0], Join(parts[1..], [sep]), sep);
      assert [parts[0]] + parts[1..] == parts;
    }
  }

  // ---------------------------------------------------------------------- lines

  predicate NotLineBreak(c: char) { !IsLineBreak(c) }

  /** How many characters the line break at the start of s takes: "\r\n" is one break. */
  function BreakLength(s: string): (n: nat)
    requires s != ""
    ensures 1 <= n <= |s|
  {
    if |s| >= 2 && s[0] == '\r' && s[1] == '\n' then 2 else 1
  }

  /** str.splitlines(). */
  function SplitLines(s: string): seq<string>
    decreases |s|
  {
    if s == "" then []
    else
      var n := Span(s, NotLineBreak);
      if n == |s| then [s] else [s[..n]] + SplitLines(s[n..][BreakLength(s[n..])..])
  }

  lemma SplitLinesStep(line: string, rest: string)
    requires All(line, NotLineBreak)
    ensures SplitLines(line + "\n" + rest) == [line] + SplitLines(rest)
  {
    var s := line + "\n" + rest;
    assert s == line + ("\n" + rest);
    SpanUnique(line, "\n" + rest, NotLineBreak);
    assert s[..|line|] == line && s[|line|..] == "\n" + rest;
    assert ("\n" + rest)[1..] == rest;
  }

  // ----------------------------------------------------------- decimal numbers

  function DigitChar(d: nat): char
    requires d < 10
  {
    '0' + d as char
  }

  function DigitValue(c: char): nat
    requires IsDigit(c)
  {
    (c - '0') as nat
  }

  /** str(n) for a natural number. */
  function Decimal(n: nat): (s: string)
    ensures |s| >= 1 && AllDigits(s)
    ensures s[0] == '0' ==> n == 0 && s == "0"
  {
    if n < 10 then [DigitChar(n)] else Decimal(n / 10) + [DigitChar(n % 10)]
  }

  /** int(s) for a string of decimal digits. */
  function DecimalValue(s: string): nat
    requires AllDigits(s)
  {
    if s == [] then 0 else DecimalValue(s[..|s| - 1]) * 10 + DigitValue(s[|s| - 1])
  }

  lemma {:induction false} DecimalRoundTrip(n: nat)
    ensures DecimalValue(Decimal(n)) == n
  {
    var s := Decimal(n);
    if n < 10 {
      assert s[..0] == [];
      assert DecimalValue(s[..0]) == 0;
    } else {
      DecimalRoundTrip(n / 10);
      assert s[..|s| - 1] == Decimal(n / 10);
    }
  }
}
