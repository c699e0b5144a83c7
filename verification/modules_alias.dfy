/** linux/modules_alias.py: alias rows, the usb: body parser and the field-wise
    matcher. A parsed body is the list of values of the first fields in their
    fixed order; that list is the dictionary the source fills, because the
    dictionary's keys are always a prefix of the field table. */
module ModulesAlias {
  import opened Text

  const FIELD_COUNT: nat := 10

  function Tag(i: nat): (t: string)
    requires i < FIELD_COUNT
    ensures 1 <= |t| <= 3 && AllLowerLetters(t)
  {
    match i
    case 0 => "v"
    case 1 => "p"
    case 2 => "d"
    case 3 => "dc"
    case 4 => "dsc"
    case 5 => "dp"
    case 6 => "ic"
    case 7 => "isc"
    case 8 => "ip"
    case _ => "in"
  }

  function Width(i: nat): nat { if i < 3 then 4 else 2 }

  // ------------------------------------------------------------- field values

  predicate IsConcrete(i: nat, v: string) { |v| == Width(i) && AllUpperHex(v) }

  predicate IsFieldValue(i: nat, v: string) { v == "*" || IsConcrete(i, v) }

  /** Values of fields i, i+1, ...: each one "*" or upper-case hex of its width. */
  predicate AreValues(i: nat, vs: seq<string>)
    ensures AreValues(i, vs) ==> i + |vs| <= FIELD_COUNT
    decreases |vs|
  {
    if vs == [] then i <= FIELD_COUNT
    else i < FIELD_COUNT && IsFieldValue(i, vs[0]) && AreValues(i + 1, vs[1..])
  }

  predicate AreConcrete(i: nat, vs: seq<string>)
    ensures AreConcrete(i, vs) ==> i + |vs| <= FIELD_COUNT
    decreases |vs|
  {
    if vs == [] then i <= FIELD_COUNT
    else i < FIELD_COUNT && IsConcrete(i, vs[0]) && AreConcrete(i + 1, vs[1..])
  }

  lemma {:induction false} ValueAt(i: nat, vs: seq<string>, k: nat)
    requires AreValues(i, vs) && k < |vs|
    ensures IsFieldValue(i + k, vs[k])
    decreases k
  {
    if k > 0 {
      ValueAt(i + 1, vs[1..], k - 1);
    }
  }

  /** The textual form of fields i, i+1, ...: each tag followed by its value. */
  function Render(i: nat, vs: seq<string>): string
    requires i + |vs| <= FIELD_COUNT
    decreases |vs|
  {
    if vs == [] then "" else Tag(i) + vs[0] + Render(i + 1, vs[1..])
  }

  // ------------------------------------------------------------ the body parser

  function ParseFields(i: nat, body: string): (r: Option<seq<string>>)
    requires i <= FIELD_COUNT
    ensures r.Some? ==> AreValues(i, r.value)
    decreases FIELD_COUNT - i
  {
    if body == [] then Some([])
    else if i == FIELD_COUNT then None
    else if Lower(Take(body, |Tag(i)|)) != Tag(i) then None
    else ParseValue(i, body[|Tag(i)|..])
  }

  function ParseValue(i: nat, rest: string): (r: Option<seq<string>>)
    requires i < FIELD_COUNT
    ensures r.Some? ==> AreValues(i, r.value)
    decreases FIELD_COUNT - i, 0
  {
    if rest != [] && rest[0] == '*' then Prepend("*", ParseFields(i + 1, rest[1..]))
    else if |rest| < Width(i) || !AllHex(rest[..Width(i)]) then None
    else Prepend(Upper(rest[..Width(i)]), ParseFields(i + 1, rest[Width(i)..]))
  }

  function Prepend(v: string, vs: Option<seq<string>>): Option<seq<string>> {
    if vs.None? then None else Some([v] + vs.value)
  }

  function ParseBody(body: string): (r: Option<seq<string>>)
    ensures r.Some? ==> AreValues(0, r.value)
  {
    if body == "*" then Some([]) else ParseFields(0, body)
  }

  /** The source's cursor loop computes ParseBody. */
  method ParseBodyLoop(body: string) returns (r: Option<seq<string>>)
    ensures r == ParseBody(body)
  {
    if body == "*" {
      return Some([]);
    }
    r := FieldsLoop(body);
  }

  method FieldsLoop(body: string) returns (r: Option<seq<string>>)
    ensures r == ParseFields(0, body)
  {
    var fields: seq<string> := [];
    var pos: nat := 0;
    var rest := body;
    PrefixedNil(ParseFields(0, body));
    hide *;
    for i := 0 to FIELD_COUNT
      invariant pos + |rest| == |body| && |fields| == i
      invariant ParseFields(0, body) == Prefixed(fields, ParseFields(i, rest))
    {
      if pos >= |body| {
        break;
      }
      var field := ReadField(i, rest);
      if field.None? {
        return None;
      }
      PrefixedAssoc(fields, field.value.0, ParseFields(i + 1, rest[field.value.1..]));
      rest := rest[field.value.1..];
      fields := fields + [field.value.0];
      pos := pos + field.value.1;
    }
    LoopEnd(|fields|, rest, fields);
    return if pos != |body| then None else Some(fields);
  }

  /** One round of the cursor loop: the value of field i and the cursor's advance. */
  method ReadField(i: nat, s: string) returns (r: Option<(string, nat)>)
    requires i < FIELD_COUNT && s != []
    ensures r.None? ==> ParseFields(i, s) == None
    ensures r.Some? ==> r.value.1 <= |s| && ParseFields(i, s) == Prepend(r.value.0, ParseFields(i + 1, s[r.value.1..]))
  {
    hide ParseFields, AreValues, AllHex, Upper, Lower;
    var tag := Tag(i);
    var token := Take(s, |tag|);
    if Lower(token) != tag {
      BadTag(i, s);
      return None;
    }
    LowerLength(token);
    var rest := s[|tag|..];
    if rest != [] && rest[0] == '*' {
      FieldStep(i, s, rest, 1, "*");
      assert rest[1..] == s[|tag| + 1..];
      return Some(("*", |tag| + 1));
    }
    var take := Take(rest, Width(i));
    if |take| != Width(i) || !AllHex(take) {
      BadValue(i, s, rest);
      return None;
    }
    FieldStep(i, s, rest, Width(i), Upper(take));
    assert rest[Width(i)..] == s[|tag| + Width(i)..];
    return Some((Upper(take), |tag| + Width(i)));
  }

  lemma LowerLength(s: string)
    ensures |Lower(s)| == |s|
  {
  }

  lemma BadTag(i: nat, s: string)
    requires i < FIELD_COUNT && s != [] && Lower(Take(s, |Tag(i)|)) != Tag(i)
    ensures ParseFields(i, s) == None
  {
    hide Tag, Lower;
  }

  lemma BadValue(i: nat, s: string, rest: string)
    requires i < FIELD_COUNT && s != [] && |Tag(i)| <= |s| && rest == s[|Tag(i)|..]
    requires rest == [] || rest[0] != '*'
    requires |Take(rest, Width(i))| != Width(i) || !AllHex(Take(rest, Width(i)))
    ensures ParseFields(i, s) == None
  {
    hide Tag, Lower, AllHex;
  }

  lemma FieldStep(i: nat, s: string, rest: string, w: nat, v: string)
    requires i < FIELD_COUNT && s != [] && |Tag(i)| <= |s| && rest == s[|Tag(i)|..]
    requires Lower(Take(s, |Tag(i)|)) == Tag(i) && w <= |rest|
    requires if rest != [] && rest[0] == '*' then w == 1 && v == "*"
             else w == Width(i) && AllHex(rest[..w]) && v == Upper(rest[..w])
    ensures ParseFields(i, s) == Prepend(v, ParseFields(i + 1, rest[w..]))
  {
    hide Tag, AllHex, Upper, Lower;
    assert ParseFields(i, s) == ParseValue(i, rest);
  }

  lemma LoopEnd(i: nat, s: string, done: seq<string>)
    requires i <= FIELD_COUNT
    ensures s == [] ==> Prefixed(done, ParseFields(i, s)) == Some(done)
    ensures s != [] && i == FIELD_COUNT ==> Prefixed(done, ParseFields(i, s)) == None
  {
    assert done + [] == done;
  }

  ghost function Prefixed(done: seq<string>, rest: Option<seq<string>>): Option<seq<string>> {
    if rest.None? then None else Some(done + rest.value)
  }

  lemma PrefixedNil(rest: Option<seq<string>>)
    ensures Prefixed([], rest) == rest
  {
    if rest.Some? {
      assert [] + rest.value == rest.value;
    }
  }

  lemma PrefixedAssoc(done: seq<string>, v: string, rest: Option<seq<string>>)
    ensures Prefixed(done, Prepend(v, rest)) == Prefixed(done + [v], rest)
  {
    if rest.Some? {
      assert done + ([v] + rest.value) == done + [v] + rest.value;
    }
  }

  // ---------------------------------------------------- parser versus printer

  lemma LowerMeetsTag(i: nat, token: string)
    requires i < FIELD_COUNT
    ensures Lower(token) == Tag(i) <==> SameUpToCase(token, Tag(i))
  {
    var tag := Tag(i);
    if SameUpToCase(token, tag) {
      assert forall k :: 0 <= k < |token| ==> Lower(token)[k] == tag[k];
    }
    if Lower(token) == tag {
      assert forall k :: 0 <= k < |token| ==> LowerChar(token[k]) == Lower(token)[k];
    }
  }

  lemma UpperOfCaseVariant(b: string, v: string)
    requires SameUpToCase(b, v) && AllUpperHex(v)
    ensures Upper(b) == v && AllHex(b)
  {
    assert forall k :: 0 <= k < |v| ==> IsUpperHex(v[k]) && UpperChar(b[k]) == v[k];
  }

  lemma ParseValueOf(i: nat, v: string, b: string, rest: string)
    requires i < FIELD_COUNT && IsFieldValue(i, v) && SameUpToCase(b, v)
    ensures ParseValue(i, b + rest) == Prepend(v, ParseFields(i + 1, rest))
  {
    var s := b + rest;
    assert s[..|b|] == b && s[|b|..] == rest;
    if v == "*" {
      assert UpperChar(b[0]) == '*';
    } else {
      UpperOfCaseVariant(b, v);
      assert s[0] == b[0] && IsHex(b[0]);
    }
  }

  lemma ParseFieldsStep(i: nat, token: string, rest: string)
    requires i < FIELD_COUNT && SameUpToCase(token, Tag(i))
    ensures ParseFields(i, token + rest) == ParseValue(i, rest)
  {
    hide ParseValue;
    LowerMeetsTag(i, token);
    assert Take(token + rest, |token|) == token && (token + rest)[|token|..] == rest;
  }

  /** A spelling of a non-empty rendering falls apart into spellings of its pieces. */
  lemma SplitSpelling(i: nat, vs: seq<string>, body: string) returns (t: string, b: string, rest: string)
    requires i + |vs| <= FIELD_COUNT && vs != []
    requires SameUpToCase(body, Render(i, vs))
    ensures body == t + (b + rest) && SameUpToCase(t, Tag(i)) && SameUpToCase(b, vs[0])
    ensures SameUpToCase(rest, Render(i + 1, vs[1..]))
  {
    hide Tag;
    var tag, v, tail := Tag(i), vs[0], Render(i + 1, vs[1..]);
    assert Render(i, vs) == tag + (v + tail);
    SameUpToCaseParts(body, tag, v + tail);
    assert |tag| <= |body|;
    SameUpToCaseParts(body[|tag|..], v, tail);
    t, b, rest := body[..|tag|], body[|tag|..][..|v|], body[|tag|..][|v|..];
  }

  lemma EmptySpelling(i: nat, body: string)
    requires i <= FIELD_COUNT && SameUpToCase(body, Render(i, []))
    ensures ParseFields(i, body) == Some([])
  {
  }

  lemma PrependSome(vs: seq<string>)
    requires vs != []
    ensures Prepend(vs[0], Some(vs[1..])) == Some(vs)
  {
    assert [vs[0]] + vs[1..] == vs;
  }

  /** Parsing undoes printing: whatever case a rendering is written in, its
      values come back. */
  lemma {:induction false} ParseOfRender(i: nat, vs: seq<string>, body: string)
    requires AreValues(i, vs)
    requires SameUpToCase(body, Render(i, vs))
    ensures ParseFields(i, body) == Some(vs)
    decreases |vs|
  {
    hide Tag, Render, SameUpToCase, IsFieldValue, ParseFields, ParseValue, Prepend;
    if vs == [] {
      EmptySpelling(i, body);
    } else {
      var t, b, rest := SplitSpelling(i, vs, body);
      ParseFieldsStep(i, t, b + rest);
      ParseValueOf(i, vs[0], b, rest);
      ParseOfRender(i + 1, vs[1..], rest);
      PrependSome(vs);
    }
  }

  /** Parsing accepts nothing but renderings, up to letter case. */
  lemma {:induction false} ParseIsRender(i: nat, body: string)
    requires i <= FIELD_COUNT && ParseFields(i, body).Some?
    ensures SameUpToCase(body, Render(i, ParseFields(i, body).value))
    decreases FIELD_COUNT - i
  {
    if body != [] {
      hide Tag, AreValues;
      var tag := Tag(i);
      LowerMeetsTag(i, body[..|tag|]);
      var v, w := ParsedValue(i, body[|tag|..]);
      var rest := body[|tag|..][w..];
      ParseIsRender(i + 1, rest);
      RespellStep(i, body, v, w, ParseFields(i + 1, rest).value);
    }
  }

  lemma ParsedValue(i: nat, s: string) returns (v: string, w: nat)
    requires i < FIELD_COUNT && ParseValue(i, s).Some?
    ensures w <= |s| && SameUpToCase(s[..w], v)
    ensures ParseValue(i, s) == Prepend(v, ParseFields(i + 1, s[w..]))
  {
    hide ParseFields, AreValues;
    w := if s[0] == '*' then 1 else Width(i);
    v := if s[0] == '*' then "*" else Upper(s[..w]);
  }

  lemma RenderOf(i: nat, v: string, tail: seq<string>)
    requires i + |tail| < FIELD_COUNT
    ensures Render(i, [v] + tail) == Tag(i) + (v + Render(i + 1, tail))
  {
    hide Tag;
    assert ([v] + tail)[1..] == tail;
  }

  lemma RespellStep(i: nat, body: string, v: string, w: nat, tail: seq<string>)
    requires i + |tail| < FIELD_COUNT && |Tag(i)| + w <= |body|
    requires SameUpToCase(body[..|Tag(i)|], Tag(i)) && SameUpToCase(body[|Tag(i)|..][..w], v)
    requires SameUpToCase(body[|Tag(i)|..][w..], Render(i + 1, tail))
    ensures SameUpToCase(body, Render(i, [v] + tail))
  {
    hide *;
    var token, rest := body[..|Tag(i)|], body[|Tag(i)|..];
    RenderOf(i, v, tail);
    SameUpToCaseConcat(rest[..w], rest[w..], v, Render(i + 1, tail));
    assert rest[..w] + rest[w..] == rest && token + rest == body;
    SameUpToCaseConcat(token, rest, Tag(i), v + Render(i + 1, tail));
  }

  /** ParseBody is a two-sided inverse of printing, up to letter case: it yields
      vs exactly for the case variants of the rendering of vs, and the bare star
      is the only extra spelling (of the empty constraint list). */
  lemma ParseBodyExact(body: string, vs: seq<string>)
    ensures ParseBody(body) == Some(vs) <==>
              AreValues(0, vs) && (SameUpToCase(body, Render(0, vs)) || (body == "*" && vs == []))
  {
    if ParseBody(body) == Some(vs) && body != "*" {
      ParseIsRender(0, body);
    }
    if AreValues(0, vs) && SameUpToCase(body, Render(0, vs)) {
      ParseOfRender(0, vs, body);
      if vs != [] {
        assert |Render(0, vs)| >= 2;
      }
    }
  }

  // --------------------------------------------------------------- the matcher

  /** '*' or an absent pattern field is unconstrained; a concrete one must equal
      the modalias field, which must therefore be present. */
  predicate FieldsMatch(ps: seq<string>, ms: seq<string>) {
    forall i :: 0 <= i < |ps| ==> FieldMatches(ps[i], ms, i)
  }

  predicate FieldMatches(p: string, ms: seq<string>, i: nat) {
    p == "*" || (i < |ms| && ms[i] == p)
  }

  function DecodePattern(pattern: string): Option<seq<string>> {
    if !StartsWith(Lower(pattern), "usb:") || |pattern| <= 4 then None else ParseBody(Drop(pattern, 4))
  }

  predicate PatternMatches(pattern: string, modalias: string) {
    var pf := DecodePattern(pattern);
    var mf := ParseBody(Drop(modalias, 4));
    pf.Some? && mf.Some? && FieldsMatch(pf.value, mf.value)
  }

  method PatternMatchesLoop(pattern: string, modalias: string) returns (r: bool)
    ensures r == PatternMatches(pattern, modalias)
  {
    if !StartsWith(Lower(pattern), "usb:") || |pattern| <= 4 {
      return false;
    }
    var pf := ParseBodyLoop(Drop(pattern, 4));
    var mf := ParseBodyLoop(Drop(modalias, 4));
    if pf.None? || mf.None? {
      return false;
    }
    r := FieldsMatchLoop(pf.value, mf.value);
  }

  method FieldsMatchLoop(pf: seq<string>, mf: seq<string>) returns (r: bool)
    requires |pf| <= FIELD_COUNT
    ensures r == FieldsMatch(pf, mf)
  {
    for i := 0 to FIELD_COUNT
      invariant forall k :: 0 <= k < i && k < |pf| ==> FieldMatches(pf[k], mf, k)
    {
      var pv := if i < |pf| then Some(pf[i]) else None;
      if pv.None? || pv.value == "*" {
        continue;
      }
      var mv := if i < |mf| then Some(mf[i]) else None;
      if mv.None? || mv.value != pv.value {
        assert !FieldMatches(pf[i], mf, i);
        return false;
      }
    }
    return true;
  }

  // ------------------------------------------------------ the modalias grammar

  function HexGroup(tag: string, width: nat, s: string): Option<string> {
    if !StartsWith(s, tag) || |s| < |tag| + width || !AllHex(s[|tag|..|tag| + width]) then None
    else Some(s[|tag| + width..])
  }

  /** Optional groups i..9 of the grammar, then the end; from ic onwards the
      value may also be a star. Each group may be present or skipped. */
  predicate OptionalGroups(i: nat, s: string)
    requires 3 <= i <= FIELD_COUNT
    decreases FIELD_COUNT - i
  {
    if i == FIELD_COUNT then s == []
    else
      || OptionalGroups(i + 1, s)
      || (var hex := HexGroup(Tag(i), 2, s);
          hex.Some? && OptionalGroups(i + 1, hex.value))
      || (i >= 6 && StartsWith(s, Tag(i) + "*") && OptionalGroups(i + 1, s[|Tag(i)| + 1..]))
  }

  predicate IsModalias(s: string) {
    && StartsWith(s, "usb:")
    && var v := HexGroup("v", 4, s[4..]);
    && v.Some?
    && var p := HexGroup("p", 4, v.value);
    && p.Some?
    && var d := HexGroup("d", 4, p.value);
    && d.Some?
    && OptionalGroups(3, d.value)
  }

  function SanitizeModalias(value: string): Option<string> {
    var v := Strip(value, IsSpace);
    if IsModalias(v) then Some(Upper(v)) else None
  }

  /** The fields of a modalias that passes the grammar and the parser. */
  function DecodeModalias(modalias: string): Option<seq<string>> {
    var mod := SanitizeModalias(modalias);
    if mod.None? then None else ParseBody(Drop(mod.value, 4))
  }

  /** What match_with_lines asks of one row: sanitize, then compare. */
  predicate Claims(pattern: string, modalias: string) {
    var mod := SanitizeModalias(modalias);
    mod.Some? && PatternMatches(pattern, mod.value)
  }

  // ---------------------------------------------------------------- alias rows

  datatype AliasLine = AliasLine(pattern: string, module_: string, raw: string)

  predicate IsRowSpace(c: char) { IsSpace(c) && c != '\n' }

  predicate IsRowMargin(c: char) { c == '\r' || c == '\n' || c == '\t' || c == ' ' }

  /** The longest non-empty run of p at the front, and what follows it. */
  function Run(s: string, p: char -> bool): (r: Option<(string, string)>)
    ensures r.Some? ==> r.value.0 != "" && All(r.value.0, p) && s == r.value.0 + r.value.1
  {
    var n := Span(s, p);
    if n == 0 then None else Some((s[..n], s[n..]))
  }

  function AfterRun(s: string, p: char -> bool): Option<string> {
    match Run(s, p)
    case None => None
    case Some((_, rest)) => Some(rest)
  }

  /** The row expression: "alias", spaces, a word, spaces, a word, spaces, end.
      The character classes are disjoint, so the longest runs are the only ones. */
  function MatchRow(s: string): Option<(string, string)> {
    if !StartsWith(s, "alias") then None
    else
      match AfterRun(s[5..], IsRowSpace)
      case None => None
      case Some(s1) =>
        match Run(s1, NotSpace)
        case None => None
        case Some((pattern, s2)) =>
          match AfterRun(s2, IsRowSpace)
          case None => None
          case Some(s3) =>
            match Run(s3, NotSpace)
            case None => None
            case Some((name, s4)) => if All(s4, IsRowSpace) then Some((pattern, name)) else None
  }

  function ParseRow(raw: string): seq<AliasLine> {
    var m := MatchRow(Strip(raw, IsRowMargin));
    if m.Some? && StartsWith(m.value.0, "usb:") then [AliasLine(m.value.0, m.value.1, raw)] else []
  }

  function ParseRows(lines: seq<string>): seq<AliasLine> {
    if lines == [] then [] else ParseRow(lines[0]) + ParseRows(lines[1..])
  }

  method ParseAliasLines(lines: seq<string>) returns (out: seq<AliasLine>)
    ensures out == ParseRows(lines)
  {
    hide ParseRow;
    out := [];
    assert lines[0..] == lines;
    for k := 0 to |lines|
      invariant ParseRows(lines) == out + ParseRows(lines[k..])
    {
      var row := ParseRow(lines[k]);
      assert lines[k..][1..] == lines[k + 1..];
      assert ParseRows(lines[k..]) == row + ParseRows(lines[k + 1..]);
      assert out + (row + ParseRows(lines[k + 1..])) == (out + row) + ParseRows(lines[k + 1..]);
      out := out + row;
    }
  }

  function Claimed(mod: string, row: AliasLine): seq<AliasLine> {
    if PatternMatches(row.pattern, mod) then [row] else []
  }

  function Claiming(mod: string, rows: seq<AliasLine>): seq<AliasLine> {
    if rows == [] then []
    else Claimed(mod, rows[0]) + Claiming(mod, rows[1..])
  }

  function MatchWithLines(modalias: string, lines: seq<string>): seq<AliasLine> {
    var mod := SanitizeModalias(modalias);
    if mod.None? then [] else Claiming(mod.value, ParseRows(lines))
  }

  // ------------------------------------------------------------ laws of the rows

  /** A row, spelled out: "alias", spaces, pattern, spaces, module, spaces. */
  function RowText(a: string, pattern: string, b: string, name: string, c: string): string {
    "alias" + (a + (pattern + (b + (name + c))))
  }

  predicate IsRowSpaces(s: string) { All(s, IsRowSpace) }

  predicate IsWord(s: string) { s != "" && All(s, NotSpace) }

  lemma SpacesBeforeWord(a: string, w: string, rest: string)
    requires a != "" && IsRowSpaces(a) && IsWord(w)
    ensures Run(a + (w + rest), IsRowSpace) == Some((a, w + rest))
  {
    hide IsSpace;
    assert (w + rest)[0] == w[0] && NotSpace(w[0]);
    SpanUnique(a, w + rest, IsRowSpace);
  }

  lemma WordBeforeSpaces(w: string, b: string, rest: string)
    requires IsWord(w) && IsRowSpaces(b) && (b != "" || rest == "")
    ensures Run(w + (b + rest), NotSpace) == Some((w, b + rest))
  {
    hide IsSpace;
    assert b != "" ==> (b + rest)[0] == b[0] && IsRowSpace(b[0]);
    SpanUnique(w, b + rest, NotSpace);
  }

  /** Every spelled-out row is read back. */
  lemma RowReads(a: string, pattern: string, b: string, name: string, c: string)
    requires a != "" && b != "" && IsRowSpaces(a) && IsRowSpaces(b) && IsRowSpaces(c) && IsWord(pattern) && IsWord(name)
    ensures MatchRow(RowText(a, pattern, b, name, c)) == Some((pattern, name))
  {
    hide Run, All, IsWord, IsRowSpace, NotSpace;
    var s := RowText(a, pattern, b, name, c);
    assert s[5..] == a + (pattern + (b + (name + c)));
    SpacesBeforeWord(a, pattern, b + (name + c));
    WordBeforeSpaces(pattern, b, name + c);
    SpacesBeforeWord(b, name, c);
    assert c + "" == c;
    WordBeforeSpaces(name, c, "");
  }

  /** And nothing else is: an accepted line is such a row. */
  lemma RowIsSpelled(s: string) returns (a: string, b: string, c: string)
    requires MatchRow(s).Some?
    ensures var (pattern, name) := MatchRow(s).value;
            && s == RowText(a, pattern, b, name, c) && a != "" && b != "" && IsWord(pattern) && IsWord(name)
            && IsRowSpaces(a) && IsRowSpaces(b) && IsRowSpaces(c)
  {
    hide Run, All, IsRowSpace, NotSpace;
    var s0 := s[5..];
    assert s == "alias" + s0;
    var r0 := Run(s0, IsRowSpace).value;
    var r1 := Run(r0.1, NotSpace).value;
    var r2 := Run(r1.1, IsRowSpace).value;
    var r3 := Run(r2.1, NotSpace).value;
    a, b, c := r0.0, r2.0, r3.1;
  }

  /** A line of the file as a row: its text between margins, with a pattern that starts
      with "usb:". */
  ghost predicate IsRowLine(line: string, pattern: string, name: string) {
    && "usb:" <= pattern && IsWord(pattern) && IsWord(name)
    && exists left, a, b, c, right ::
         && line == left + (RowText(a, pattern, b, name, c) + right) && All(left, IsRowMargin) && All(right, IsRowMargin)
         && a != "" && b != "" && IsRowSpaces(a) && IsRowSpaces(b) && IsRowSpaces(c)
  }

  /** Which rows a line gives: the one it spells, or none. */
  lemma RowExact(line: string, row: AliasLine)
    ensures ParseRow(line) == [row] <==> IsRowLine(line, row.pattern, row.module_) && row.raw == line
    ensures |ParseRow(line)| <= 1
  {
    ParseRowCases(line, row);
    hide ParseRow, MatchRow, Strip, IsRowLine;
    if ParseRow(line) == [row] {
      RowIsLine(line, row.pattern, row.module_);
    }
    if IsRowLine(line, row.pattern, row.module_) {
      LineIsRow(line, row.pattern, row.module_);
    }
  }

  lemma ParseRowCases(line: string, row: AliasLine)
    ensures |ParseRow(line)| <= 1
    ensures ParseRow(line) == [row] <==>
              MatchRow(Strip(line, IsRowMargin)) == Some((row.pattern, row.module_)) && "usb:" <= row.pattern && row.raw == line
  {
    hide MatchRow, Strip;
    if ParseRow(line) == [row] {
      assert ParseRow(line)[0] == row;
    }
  }

  lemma RowIsLine(line: string, pattern: string, name: string)
    requires MatchRow(Strip(line, IsRowMargin)) == Some((pattern, name)) && "usb:" <= pattern
    ensures IsRowLine(line, pattern, name)
  {
    hide MatchRow, Strip, All, IsWord, IsRowMargin, IsRowSpaces, RowText;
    var s := Strip(line, IsRowMargin);
    var a, b, c := RowIsSpelled(s);
    StripExact(line, s, IsRowMargin);
    var left, right :| line == left + (s + right) && All(left, IsRowMargin) && All(right, IsRowMargin);
  }

  lemma LineIsRow(line: string, pattern: string, name: string)
    requires IsRowLine(line, pattern, name)
    ensures MatchRow(Strip(line, IsRowMargin)) == Some((pattern, name)) && "usb:" <= pattern
  {
    hide MatchRow, Strip, All, IsWord, IsRowMargin, IsRowSpaces, RowText;
    var left, a, b, c, right :|
         && line == left + (RowText(a, pattern, b, name, c) + right) && All(left, IsRowMargin) && All(right, IsRowMargin)
         && a != "" && b != "" && IsRowSpaces(a) && IsRowSpaces(b) && IsRowSpaces(c);
    RowBetweenMargins(left, a, pattern, b, name, c, right);
  }

  /** Spaces at the end of a row may count as its own or as margin; it is read alike. */
  lemma RowBetweenMargins(left: string, a: string, pattern: string, b: string, name: string, c: string, right: string)
    requires All(left, IsRowMargin) && All(right, IsRowMargin)
    requires a != "" && b != "" && IsRowSpaces(a) && IsRowSpaces(b) && IsRowSpaces(c) && IsWord(pattern) && IsWord(name)
    ensures MatchRow(Strip(left + (RowText(a, pattern, b, name, c) + right), IsRowMargin)) == Some((pattern, name))
  {
    var kept := RStrip(c, IsRowMargin);
    var cut := c[|kept|..];
    RStripParts(c, IsRowMargin);
    assert IsRowSpaces(kept);
    var t := RowText(a, pattern, b, name, kept);
    RowEnds(a, pattern, b, name, kept);
    hide RStrip, IsWord, IsRowSpaces, RowText, IsRowMargin, Strip, MatchRow;
    RowTailSplits(a, pattern, b, name, kept, cut);
    assert c == kept + cut;
    assert All(cut + right, IsRowMargin) by {
      MarginConcat(cut, right);
    }
    assert left + (RowText(a, pattern, b, name, c) + right) == left + (t + (cut + right));
    StripsTo(left, t, cut + right, IsRowMargin);
    RowReads(a, pattern, b, name, kept);
  }

  lemma MarginConcat(a: string, b: string)
    requires All(a, IsRowMargin) && All(b, IsRowMargin)
    ensures All(a + b, IsRowMargin)
  {
  }

  lemma RowTailSplits(a: string, pattern: string, b: string, name: string, kept: string, cut: string)
    ensures RowText(a, pattern, b, name, kept + cut) == RowText(a, pattern, b, name, kept) + cut
  {
    assert name + (kept + cut) == (name + kept) + cut;
    assert b + ((name + kept) + cut) == (b + (name + kept)) + cut;
    assert pattern + ((b + (name + kept)) + cut) == (pattern + (b + (name + kept))) + cut;
    assert a + ((pattern + (b + (name + kept))) + cut) == (a + (pattern + (b + (name + kept)))) + cut;
  }

  lemma RowEnds(a: string, pattern: string, b: string, name: string, kept: string)
    requires IsWord(name) && (kept == "" || !IsRowMargin(kept[|kept| - 1]))
    ensures var t := RowText(a, pattern, b, name, kept); t != "" && !IsRowMargin(t[0]) && !IsRowMargin(t[|t| - 1])
  {
    assert NotSpace(name[|name| - 1]);
    assert !IsRowMargin(name[|name| - 1]);
    hide IsRowMargin, NotSpace, IsSpace;
    var tail := name + kept;
    assert tail[|tail| - 1] == if kept == "" then name[|name| - 1] else kept[|kept| - 1];
    var t := RowText(a, pattern, b, name, kept);
    assert t == ("alias" + (a + (pattern + b))) + tail;
    assert t[|t| - 1] == tail[|tail| - 1];
    assert t[0] == 'a' && !IsRowMargin('a') by { LetterIsNoMargin(); }
  }

  lemma LetterIsNoMargin()
    ensures !IsRowMargin('a')
  {
  }

  lemma {:induction false} ParseRowsConcat(xs: seq<string>, ys: seq<string>)
    ensures ParseRows(xs + ys) == ParseRows(xs) + ParseRows(ys)
  {
    hide ParseRow;
    if xs == [] {
      assert xs + ys == ys;
    } else {
      assert (xs + ys)[0] == xs[0] && (xs + ys)[1..] == xs[1..] + ys;
      ParseRowsConcat(xs[1..], ys);
    }
  }

  lemma ClaimingNothing(mod: string)
    ensures Claiming(mod, []) == []
  {
  }

  lemma ClaimingStep(mod: string, row: AliasLine, rows: seq<AliasLine>)
    ensures Claiming(mod, [row] + rows) == Claimed(mod, row) + Claiming(mod, rows)
  {
    hide Claimed;
    assert ([row] + rows)[1..] == rows;
  }

  lemma {:induction false} ClaimingConcat(mod: string, xs: seq<AliasLine>, ys: seq<AliasLine>)
    ensures Claiming(mod, xs + ys) == Claiming(mod, xs) + Claiming(mod, ys)
  {
    hide *;
    if xs == [] {
      ClaimingNothing(mod);
      assert xs + ys == ys;
    } else {
      var rest := xs[1..];
      ClaimingConcat(mod, rest, ys);
      ClaimingStep(mod, xs[0], rest);
      ClaimingStep(mod, xs[0], rest + ys);
      assert xs == [xs[0]] + rest;
      assert xs + ys == [xs[0]] + (rest + ys);
    }
  }

  lemma {:induction false} ClaimingMembers(mod: string, rows: seq<AliasLine>, row: AliasLine)
    ensures row in Claiming(mod, rows) <==> row in rows && PatternMatches(row.pattern, mod)
  {
    hide PatternMatches;
    if rows != [] {
      ClaimingMembers(mod, rows[1..], row);
      assert rows == [rows[0]] + rows[1..];
    }
  }

  /** Matching keeps file order and duplicates, line by line, and returns exactly
      the rows that claim the modalias. */
  lemma MatchIsPerLine(modalias: string, xs: seq<string>, ys: seq<string>, row: AliasLine)
    ensures MatchWithLines(modalias, xs + ys) == MatchWithLines(modalias, xs) + MatchWithLines(modalias, ys)
    ensures row in MatchWithLines(modalias, xs) <==> row in ParseRows(xs) && Claims(row.pattern, modalias)
  {
    hide ParseRows, Claiming, SanitizeModalias, PatternMatches;
    ParseRowsConcat(xs, ys);
    var mod := SanitizeModalias(modalias);
    if mod.Some? {
      ClaimingConcat(mod.value, ParseRows(xs), ParseRows(ys));
      ClaimingMembers(mod.value, ParseRows(xs), row);
    }
  }
}
