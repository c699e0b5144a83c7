/** json.dumps(..., ensure_ascii=True) and json.loads, following sections 4 to 7 of
    RFC 8259 and Python's conventions for surrogates and duplicate keys. */
module JsonText {
  import opened Text
  import opened Dicts
  import opened JsonValues

  // ------------------------------------------------------------------ surrogates

  predicate IsHigh(c: int) { 0xD800 <= c < 0xDC00 }

  predicate IsLow(c: int) { 0xDC00 <= c < 0xE000 }

  function JoinPair(hi: int, lo: int): (c: int)
    requires IsHigh(hi) && IsLow(lo)
    ensures 0x1_0000 <= c < 0x11_0000
  {
    0x1_0000 + (hi - 0xD800) * 0x400 + (lo - 0xDC00)
  }

  /** Adjacent surrogate pairs replaced, left to right, by the code point they encode. */
  function JoinPairs(s: PyStr): PyStr {
    if s == [] then []
    else if |s| >= 2 && IsHigh(s[0]) && IsLow(s[1]) then [JoinPair(s[0], s[1])] + JoinPairs(s[2..])
    else [s[0]] + JoinPairs(s[1..])
  }

  // ------------------------------------------------------------------- the writer

  datatype Style = Compact | Spaced

  /** separators=(",", ":") for Compact, the defaults ", " and ": " for Spaced. */
  function Pad(st: Style): string { if st.Compact? then "" else " " }

  function ItemSeparator(st: Style): string { "," + Pad(st) }

  function KeySeparator(st: Style): string { ":" + Pad(st) }

  function HexChar(n: nat): char
    requires n < 16
  {
    if n < 10 then '0' + n as char else 'a' + (n - 10) as char
  }

  function Hex4(n: nat): (s: string)
    requires n < 0x1_0000
    ensures |s| == 4
  {
    [HexChar(n / 0x1000), HexChar(n / 0x100 % 16), HexChar(n / 0x10 % 16), HexChar(n % 16)]
  }

  function EscapeUnit(n: nat): string
    requires n < 0x1_0000
  {
    "\\u" + Hex4(n)
  }

  function EscapeCode(c: int): string
    requires IsCode(c)
  {
    if c == 0x22 then "\\\""
    else if c == 0x5C then "\\\\"
    else if c == 8 then "\\b"
    else if c == 9 then "\\t"
    else if c == 10 then "\\n"
    else if c == 12 then "\\f"
    else if c == 13 then "\\r"
    else if 0x20 <= c < 0x7F then [c as char]
    else if c < 0x1_0000 then EscapeUnit(c)
    else EscapeUnit(0xD800 + (c - 0x1_0000) / 0x400) + EscapeUnit(0xDC00 + (c - 0x1_0000) % 0x400)
  }

  function Escape(s: PyStr): string
    requires IsPyStr(s)
  {
    if s == [] then "" else EscapeCode(s[0]) + Escape(s[1..])
  }

  function Quote(s: PyStr): string
    requires IsPyStr(s)
  {
    "\"" + (Escape(s) + "\"")
  }

  function IntText(n: int): string { if n < 0 then "-" + Decimal(-n) else Decimal(n) }

  function Write(j: Json, st: Style): string
    requires Printable(j)
    decreases j
  {
    match j
    case JNull => "null"
    case JBool(b) => if b then "true" else "false"
    case JInt(n) => IntText(n)
    case JStr(s) => Quote(s)
    case JArr(items) => "[" + (WriteItems(items, st) + "]")
    case JObj(ms) => "{" + (WriteMembers(ms, st) + "}")
  }

  function WriteItems(items: Items, st: Style): string
    requires PrintableItems(items)
    decreases items
  {
    if items.End? then ""
    else if items.rest.End? then Write(items.head, st)
    else Write(items.head, st) + (ItemSeparator(st) + WriteItems(items.rest, st))
  }

  function WriteMembers(ms: Dict<Json>, st: Style): string
    requires PrintableMembers(ms)
    decreases ms
  {
    if ms.Nil? then ""
    else
      var member := Quote(ms.key) + (KeySeparator(st) + Write(ms.value, st));
      if ms.tail.Nil? then member else member + (ItemSeparator(st) + WriteMembers(ms.tail, st))
  }

  // ------------------------------------------------------------------- the parser

  datatype Parsed<+T> = Fail | Ok(value: T, rest: string)

  predicate IsWs(c: char) { c == ' ' || c == '\t' || c == '\n' || c == '\r' }

  function SkipWs(s: string): (r: string)
    ensures |r| <= |s|
  {
    if s != [] && IsWs(s[0]) then SkipWs(s[1..]) else s
  }

  function UnitOfDigits(a: nat, b: nat, c: nat, d: nat): (n: nat)
    requires a < 16 && b < 16 && c < 16 && d < 16
    ensures n < 0x1_0000
  {
    a * 0x1000 + b * 0x100 + c * 0x10 + d
  }

  /** The unit of an escape at the start of s (backslash, u, four hex digits). */
  function UnitAt(s: string): (r: Option<nat>)
    ensures r.Some? ==> |s| >= 6 && r.value < 0x1_0000
  {
    if |s| >= 6 && s[0] == '\\' && s[1] == 'u' && IsHex(s[2]) && IsHex(s[3]) && IsHex(s[4]) && IsHex(s[5]) then
      Some(UnitOfDigits(HexDigitValue(s[2]), HexDigitValue(s[3]), HexDigitValue(s[4]), HexDigitValue(s[5])))
    else None
  }

  function ShortEscape(c: char): Option<int> {
    if c == '"' then Some(0x22)
    else if c == '\\' then Some(0x5C)
    else if c == '/' then Some(0x2F)
    else if c == 'b' then Some(8)
    else if c == 'f' then Some(12)
    else if c == 'n' then Some(10)
    else if c == 'r' then Some(13)
    else if c == 't' then Some(9)
    else None
  }

  /** One code point of a string body that does not start with the closing quote. */
  function NextCode(s: string): (r: Parsed<int>)
    requires s != []
    ensures r.Ok? ==> |r.rest| < |s|
  {
    if s[0] != '\\' then (if s[0] < ' ' then Fail else Ok(s[0] as int, s[1..]))
    else if |s| == 1 then Fail
    else if s[1] != 'u' then
      (var c := ShortEscape(s[1]);
       if c.None? then Fail else Ok(c.value, s[2..]))
    else
      var u := UnitAt(s);
      if u.None? then Fail
      else
        var lo := UnitAt(s[6..]);
        if IsHigh(u.value) && lo.Some? && IsLow(lo.value) then Ok(JoinPair(u.value, lo.value), s[12..])
        else Ok(u.value, s[6..])
  }

  /** A string body up to and including its closing quote. */
  function ParseString(s: string): (r: Parsed<PyStr>)
    ensures r.Ok? ==> |r.rest| < |s|
    decreases |s|
  {
    if s == [] then Fail
    else if s[0] == '"' then Ok([], s[1..])
    else
      var c := NextCode(s);
      if c.Fail? then Fail
      else
        var t := ParseString(c.rest);
        if t.Fail? then Fail else Ok([c.value] + t.value, t.rest)
  }

  /** Length of a fraction at the start of s, 0 when there is none. */
  function FractionLength(s: string): (n: nat)
    ensures n <= |s|
  {
    if |s| >= 2 && s[0] == '.' && IsDigit(s[1]) then 1 + Span(s[1..], IsDigit) else 0
  }

  function ExponentLength(s: string): (n: nat)
    ensures n <= |s|
  {
    if s == [] || !(s[0] == 'e' || s[0] == 'E') then 0
    else
      var sign := if |s| >= 2 && (s[1] == '+' || s[1] == '-') then 1 else 0;
      var digits := Span(s[1 + sign..], IsDigit);
      if digits == 0 then 0 else 1 + sign + digits
  }

  /** -?(0|[1-9][0-9]*)(\.[0-9]+)?([eE][-+]?[0-9]+)? */
  function ParseNumber(s: string): (r: Parsed<Json>)
    ensures r.Ok? ==> |r.rest| < |s|
  {
    ParseUnsigned(s, if s != [] && s[0] == '-' then 1 else 0)
  }

  /** The digits before a fraction: a zero alone, or all there are. */
  function WholeLength(t: string): (n: nat)
    requires t != [] && IsDigit(t[0])
    ensures 1 <= n <= |t| && AllDigits(t[..n])
  {
    var n := if t[0] == '0' then 1 else Span(t, IsDigit);
    DigitPrefix(t, n);
    n
  }

  /** The matched groups put together: a float keeps its text. */
  function NumberOf(minus: string, whole: string, frac: string, exp: string): Json
    requires AllDigits(whole)
  {
    if frac != "" || exp != "" then JFloat(minus + (whole + (frac + exp)))
    else JInt(if minus == "-" then -(DecimalValue(whole) as int) else DecimalValue(whole))
  }

  function ParseUnsigned(s: string, sign: nat): (r: Parsed<Json>)
    requires sign <= 1 && sign <= |s|
    ensures r.Ok? ==> |r.rest| < |s|
  {
    var t := s[sign..];
    if t == [] || !IsDigit(t[0]) then Fail
    else
      var whole := WholeLength(t);
      var t1 := t[whole..];
      var frac := FractionLength(t1);
      var t2 := t1[frac..];
      var exp := ExponentLength(t2);
      Ok(NumberOf(s[..sign], t[..whole], t1[..frac], t2[..exp]), t2[exp..])
  }

  lemma DigitPrefix(t: string, whole: nat)
    requires t != [] && IsDigit(t[0]) && whole == (if t[0] == '0' then 1 else Span(t, IsDigit))
    ensures 1 <= whole <= |t| && AllDigits(t[..whole])
  {
    if t[0] != '0' {
      assert whole < |t| ==> !IsDigit(t[whole]);
      assert All(t[..whole], IsDigit);
    }
  }

  function Keyword(s: string, word: string, j: Json): (r: Parsed<Json>)
    requires word != []
    ensures r.Ok? ==> |r.rest| < |s|
  {
    if word <= s then Ok(j, s[|word|..]) else Fail
  }

  function ParseValue(s: string): (r: Parsed<Json>)
    ensures r.Ok? ==> |r.rest| < |s|
    decreases |s|, 2
  {
    if s == [] then Fail
    else if s[0] == '"' then
      var t := ParseString(s[1..]);
      if t.Fail? then Fail else Ok(JStr(t.value), t.rest)
    else if s[0] == '{' then ParseObject(SkipWs(s[1..]))
    else if s[0] == '[' then ParseArray(SkipWs(s[1..]))
    else if s[0] == 'n' then Keyword(s, "null", JNull)
    else if s[0] == 't' then Keyword(s, "true", JBool(true))
    else if s[0] == 'f' then Keyword(s, "false", JBool(false))
    else if s[0] == 'N' then Keyword(s, "NaN", JFloat("NaN"))
    else if s[0] == 'I' then Keyword(s, "Infinity", JFloat("Infinity"))
    else if "-I" <= s then Keyword(s, "-Infinity", JFloat("-Infinity"))
    else ParseNumber(s)
  }

  /** What follows an opening bracket and white space. */
  function ParseArray(s: string): (r: Parsed<Json>)
    ensures r.Ok? ==> |r.rest| <= |s|
    decreases |s|, 4
  {
    if s != [] && s[0] == ']' then Ok(JArr(End), s[1..])
    else
      var t := ParseItems(s);
      if t.Fail? then Fail else Ok(JArr(t.value), t.rest)
  }

  function ParseItems(s: string): (r: Parsed<Items>)
    ensures r.Ok? ==> |r.rest| < |s|
    decreases |s|, 3
  {
    var v := ParseValue(s);
    if v.Fail? then Fail
    else
      var t := SkipWs(v.rest);
      if t == [] then Fail
      else if t[0] == ']' then Ok(More(v.value, End), t[1..])
      else if t[0] != ',' then Fail
      else
        var u := ParseItems(SkipWs(t[1..]));
        if u.Fail? then Fail else Ok(More(v.value, u.value), u.rest)
  }

  /** What follows an opening brace and white space. */
  function ParseObject(s: string): (r: Parsed<Json>)
    ensures r.Ok? ==> |r.rest| <= |s|
    decreases |s|, 4
  {
    if s != [] && s[0] == '}' then Ok(JObj(Nil), s[1..])
    else
      var t := ParseMembers(s);
      if t.Fail? then Fail else Ok(JObj(t.value), t.rest)
  }

  /** Members in order of appearance; duplicates are resolved afterwards. */
  function ParseMembers(s: string): (r: Parsed<Dict<Json>>)
    ensures r.Ok? ==> |r.rest| < |s|
    decreases |s|, 3
  {
    if s == [] || s[0] != '"' then Fail
    else
      var k := ParseString(s[1..]);
      if k.Fail? then Fail
      else
        var t := SkipWs(k.rest);
        if t == [] || t[0] != ':' then Fail
        else
          var v := ParseValue(SkipWs(t[1..]));
          if v.Fail? then Fail
          else
            var w := SkipWs(v.rest);
            if w == [] then Fail
            else if w[0] == '}' then Ok(Cons(k.value, v.value, Nil), w[1..])
            else if w[0] != ',' then Fail
            else
              var u := ParseMembers(SkipWs(w[1..]));
              if u.Fail? then Fail else Ok(Cons(k.value, v.value, u.value), u.rest)
  }

  /** One JSON value and nothing but white space around it. */
  function ParseDocument(s: string): Option<Json> {
    var v := ParseValue(SkipWs(s));
    if v.Ok? && SkipWs(v.rest) == [] then Some(v.value) else None
  }
}
