/** Which devices an enumeration yields, field by field, and how their numbers are read. */
module EnumerationLaws {
  import opened Text
  import opened Dicts
  import opened ModulesAlias
  import opened AliasPrinters
  import opened Knowledge
  import opened Enumeration

  // ------------------------------------------------------------ attribute values

  /** The attribute can be read, and v is its text. */
  ghost predicate IsRead(raw: Option<string>, v: string) { raw.Some? && v != "" && IsStripped(raw.value, v, IsSpace) }

  lemma AttributeExact(raw: Option<string>, v: string)
    ensures Attribute(raw) == Some(v) <==> IsRead(raw, v)
  {
    if raw.Some? {
      StripExact(raw.value, v, IsSpace);
    }
    hide Strip, IsStripped;
  }

  // --------------------------------------------------------------- class numbers

  /** Hex digits in groups, one underscore between two groups. */
  predicate IsGrouped(s: string) {
    && s != "" && IsHex(s[0]) && IsHex(s[|s| - 1])
    && (forall i :: 0 <= i < |s| ==> IsHex(s[i]) || s[i] == '_')
    && forall i :: 0 <= i < |s| - 1 ==> s[i] != '_' || IsHex(s[i + 1])
  }

  function Digits(s: string): string {
    if s == "" then "" else (if s[0] == '_' then "" else [s[0]]) + Digits(s[1..])
  }

  lemma {:induction false} DigitsOfGroups(s: string)
    requires forall i :: 0 <= i < |s| ==> IsHex(s[i]) || s[i] == '_'
    ensures AllHex(Digits(s))
  {
    hide IsHex;
    if s != "" {
      DigitsOfGroups(s[1..]);
    }
  }

  lemma UpperIsUpperHex(s: string)
    requires AllHex(s)
    ensures AllUpperHex(Upper(s))
  {
  }

  lemma HexValueSnoc(p: string, c: char)
    requires AllUpperHex(p) && IsHex(c)
    ensures AllUpperHex(p + [UpperChar(c)]) && HexValue(p + [UpperChar(c)]) == HexValue(p) * 16 + HexDigitValue(c)
  {
    var s := p + [UpperChar(c)];
    assert s[..|s| - 1] == p;
  }

  lemma GroupedTail(s: string)
    requires |s| >= 2
    ensures s[1] == '_' ==> (IsGrouped(s) <==> IsHex(s[0]) && IsGrouped(s[2..]))
    ensures s[1] != '_' ==> (IsGrouped(s) <==> IsHex(s[0]) && IsGrouped(s[1..]))
  {
    assert !IsHex('_');
    hide IsHex;
    var t, u := s[1..], s[2..];
    assert forall i :: 0 <= i < |t| ==> t[i] == s[i + 1];
    assert forall i :: 0 <= i < |u| ==> u[i] == s[i + 2];
    assert forall i :: 1 <= i < |s| ==> s[i] == t[i - 1];
    assert forall i :: 2 <= i < |s| ==> s[i] == u[i - 2];
    if s[1] == '_' && IsHex(s[0]) {
      if IsGrouped(s) {
        assert IsHex(s[2]);
      }
    }
  }

  lemma {:induction false} HexDigitsExact(s: string, p: string)
    requires AllUpperHex(p)
    ensures !IsGrouped(s) ==> HexDigitsValue(s, HexValue(p)) == None
    ensures IsGrouped(s) ==> AllUpperHex(Upper(Digits(s))) && AllUpperHex(p + Upper(Digits(s)))
                             && HexDigitsValue(s, HexValue(p)) == Some(HexValue(p + Upper(Digits(s))))
    decreases |s|
  {
    hide IsHex, HexValue, HexDigitValue, AllUpperHex, Upper, IsGrouped;
    if s != "" && IsHex(s[0]) {
      var c := s[0];
      HexValueSnoc(p, c);
      var q := p + [UpperChar(c)];
      DigitsHead(s);
      if |s| == 1 {
        OneDigit(s);
        assert Upper(Digits(s)) == [UpperChar(c)] by { UpperOne(c); }
      } else {
        GroupedTail(s);
        var rest := if s[1] == '_' then s[2..] else s[1..];
        HexDigitsExact(rest, q);
        UpperCons(c, Digits(rest));
        assert q + Upper(Digits(rest)) == p + ([UpperChar(c)] + Upper(Digits(rest)));
        if IsGrouped(s) {
          UpperIsHexText(s);
        }
      }
    } else {
      NoGroup(s);
    }
  }

  lemma NoGroup(s: string)
    requires s == "" || !IsHex(s[0])
    ensures !IsGrouped(s)
  {
  }

  lemma OneDigit(s: string)
    requires |s| == 1 && IsHex(s[0])
    ensures IsGrouped(s) && AllUpperHex(Upper(Digits(s)))
  {
    assert s[1..] == "";
    assert Digits(s) == [s[0]];
  }

  lemma DigitsHead(s: string)
    requires s != "" && IsHex(s[0])
    ensures |s| == 1 ==> Digits(s) == [s[0]]
    ensures |s| >= 2 ==> Digits(s) == [s[0]] + Digits(if s[1] == '_' then s[2..] else s[1..])
  {
    if |s| >= 2 {
      assert s[1..][1..] == s[2..];
    }
  }

  lemma UpperOne(c: char)
    ensures Upper([c]) == [UpperChar(c)]
  {
  }

  lemma UpperCons(c: char, s: string)
    ensures Upper([c] + s) == [UpperChar(c)] + Upper(s)
  {
  }

  lemma UpperIsHexText(s: string)
    requires IsGrouped(s)
    ensures AllUpperHex(Upper(Digits(s)))
  {
    DigitsOfGroups(s);
    UpperIsUpperHex(Digits(s));
  }

  predicate IsPrefix(p: string) { p == "" || p == "0x" || p == "0X" || p == "0x_" || p == "0X_" }

  /** A hexadecimal number as int(text, 16) takes it: a sign or none, 0x or none, then
      groups of digits, the first of which an underscore may precede behind 0x. */
  ghost predicate IsHexNumber(s: string, v: int) {
    exists sign, prefix, body ::
      && s == sign + (prefix + body) && (sign == "" || sign == "+" || sign == "-") && IsPrefix(prefix)
      && IsGrouped(body) && AllUpperHex(Upper(Digits(body)))
      && v == if sign == "-" then -(HexValue(Upper(Digits(body))) as int) else HexValue(Upper(Digits(body)))
  }

  lemma GroupsValue(body: string)
    ensures HexDigitsValue(body, 0).Some? <==> IsGrouped(body)
    ensures IsGrouped(body) ==> AllUpperHex(Upper(Digits(body))) && HexDigitsValue(body, 0) == Some(HexValue(Upper(Digits(body))))
  {
    HexDigitsExact(body, "");
    assert HexValue("") == 0;
    hide HexDigitsValue, HexValue, IsGrouped, AllUpperHex;
    assert "" + Upper(Digits(body)) == Upper(Digits(body));
  }

  lemma PrefixOfGroups(prefix: string, body: string)
    requires IsPrefix(prefix) && IsGrouped(body)
    ensures PrefixLength(prefix + body) == |prefix| && (prefix + body)[|prefix|..] == body
  {
    GroupStart(body);
    hide IsGrouped;
    var s := prefix + body;
    if prefix == "" {
      assert s == body;
    } else {
      assert s[0] == prefix[0] && s[1] == prefix[1];
      assert s[|prefix|] == body[0];
      assert |prefix| == 3 ==> s[2] == prefix[2];
    }
  }

  lemma GroupStart(body: string)
    requires IsGrouped(body)
    ensures body != "" && body[0] != '_' && (|body| >= 2 ==> body[1] != 'x' && body[1] != 'X')
  {
    assert !IsHex('x') && !IsHex('X') && !IsHex('_');
    hide IsHex;
    assert |body| >= 2 ==> IsHex(body[1]) || body[1] == '_';
  }

  lemma UnsignedHexExact(prefix: string, body: string)
    requires IsPrefix(prefix) && IsGrouped(body)
    ensures AllUpperHex(Upper(Digits(body))) && UnsignedHex(prefix + body) == Some(HexValue(Upper(Digits(body))))
  {
    PrefixOfGroups(prefix, body);
    GroupsValue(body);
    hide IsPrefix, IsGrouped, HexDigitsValue, PrefixLength, HexValue, AllUpperHex;
  }

  lemma UnsignedHexSound(s: string) returns (prefix: string, body: string)
    requires UnsignedHex(s).Some?
    ensures IsPrefix(prefix) && s == prefix + body && IsGrouped(body)
  {
    var n := PrefixLength(s);
    prefix, body := s[..n], s[n..];
    PrefixText(s);
    GroupsValue(body);
    hide IsPrefix, IsGrouped, HexDigitsValue, PrefixLength;
  }

  lemma PrefixText(s: string)
    ensures IsPrefix(s[..PrefixLength(s)])
  {
    var p := s[..PrefixLength(s)];
    assert p != "" ==> p[0] == '0' && p[1] == s[1];
    if |p| == 2 {
      assert p == ['0', s[1]];
    } else if |p| == 3 {
      assert p == ['0', s[1], '_'];
    }
  }

  /** The class numbers are read as int(text, 16) reads them, and nothing else is. */
  lemma HexIntExact(s: string, v: int)
    ensures HexInt(s) == Some(v) <==> IsHexNumber(s, v)
  {
    hide UnsignedHex, IsGrouped, HexValue, Upper, Digits, AllUpperHex, IsPrefix;
    if HexInt(s) == Some(v) {
      var signed := s != "" && (s[0] == '-' || s[0] == '+');
      var sign, t := if signed then s[..1] else "", if signed then s[1..] else s;
      var prefix, body := UnsignedHexSound(t);
      UnsignedHexExact(prefix, body);
      assert s == sign + t;
      assert signed ==> sign == [s[0]];
      EmptyIsNoNumber();
    }
    if sign, prefix, body :|
         && s == sign + (prefix + body) && (sign == "" || sign == "+" || sign == "-") && IsPrefix(prefix)
         && IsGrouped(body) && AllUpperHex(Upper(Digits(body)))
         && v == if sign == "-" then -(HexValue(Upper(Digits(body))) as int) else HexValue(Upper(Digits(body))) {
      UnsignedHexExact(prefix, body);
      UnsignedStart(prefix, body);
      assert sign == "" ==> s == prefix + body;
      assert sign != "" ==> s[0] == sign[0] && s[1..] == prefix + body;
    }
  }

  lemma EmptyIsNoNumber()
    ensures UnsignedHex("") == None
  {
  }

  lemma UnsignedStart(prefix: string, body: string)
    requires IsPrefix(prefix) && IsGrouped(body)
    ensures prefix + body != "" && (prefix + body)[0] != '-' && (prefix + body)[0] != '+'
  {
    assert prefix == "" ==> prefix + body == body;
    assert prefix != "" ==> (prefix + body)[0] == '0';
  }

  /** A class attribute: zero when it is missing or empty. */
  ghost predicate IsClassNumber(raw: Option<string>, v: int) {
    ((forall t :: !IsRead(raw, t)) && v == 0) || exists t :: IsRead(raw, t) && IsHexNumber(t, v)
  }

  lemma ClassNumberExact(raw: Option<string>, v: int)
    ensures ClassNumber(raw) == Some(v) <==> IsClassNumber(raw, v)
  {
    hide Attribute, IsRead, IsHexNumber, HexInt;
    forall t
      ensures Attribute(raw) == Some(t) <==> IsRead(raw, t)
    {
      AttributeExact(raw, t);
    }
    if Attribute(raw).Some? {
      var t := Attribute(raw).value;
      HexIntExact(t, v);
      assert IsRead(raw, t);
    }
  }

  // ------------------------------------------------------------------ the devices

  /** u is what the loop builds of the entry of its name. */
  predicate IsBuiltFrom(d: Dict<Node>, u: UsbDevice) {
    var n := Lookup(d, u.name);
    n.Some? && IsCandidate(u.name, n.value) && HasReadableClass(n.value) && u == BuildDevice(u.name, n.value)
  }

  predicate Ascending(us: seq<UsbDevice>) { forall i, j :: 0 <= i < j < |us| ==> Less(us[i].name, us[j].name) }

  lemma {:induction false} EnumerateFromHolds(d: Dict<Node>, u: UsbDevice)
    requires Sorted(d) && EnumerateFrom(d).Some?
    ensures u in EnumerateFrom(d).value <==> IsBuiltFrom(d, u)
  {
    hide IsCandidate, HasReadableClass, BuildDevice;
    if d.Cons? {
      EnumerateFromHolds(d.tail, u);
      SortedDistinct(d);
      assert u.name != d.key ==> Lookup(d, u.name) == Lookup(d.tail, u.name);
      assert u.name == d.key ==> Lookup(d, u.name) == Some(d.value) && Lookup(d.tail, u.name) == None;
      BuiltName(d.key, d.value);
    }
  }

  lemma BuiltName(name: PyStr, n: Node)
    ensures IsCandidate(name, n) && HasReadableClass(n) ==> BuildDevice(name, n).name == name
  {
  }

  lemma {:induction false} EnumerateFromAscends(d: Dict<Node>)
    requires Sorted(d) && EnumerateFrom(d).Some?
    ensures Ascending(EnumerateFrom(d).value)
  {
    hide IsCandidate, HasReadableClass, BuildDevice;
    if d.Cons? {
      EnumerateFromAscends(d.tail);
      BuiltName(d.key, d.value);
      var rest := EnumerateFrom(d.tail).value;
      forall j | 0 <= j < |rest|
        ensures Less(d.key, rest[j].name)
      {
        EnumerateFromHolds(d.tail, rest[j]);
        SortedAbove(d, rest[j].name);
      }
    }
  }

  /** u is the device of the entry of its name, field by field. */
  ghost predicate IsDeviceOf(d: Dict<Node>, u: UsbDevice) {
    && Lookup(d, u.name).Some?
    && ':' as int !in u.name && !(Codes("usb") <= u.name)
    && exists vid, pid, bcd :: IsDeviceWith(Lookup(d, u.name).value, u, vid, pid, bcd)
  }

  ghost predicate IsDeviceWith(n: Node, u: UsbDevice, vid: string, pid: string, bcd: string) {
    && IsRead(n.idVendor, vid) && IsRead(n.idProduct, pid) && IsRead(n.bcdDevice, bcd)
    && IsHex4(vid) && IsHex4(pid) && IsHex4(bcd)
    && IsClassNumber(n.deviceClass, u.dc) && IsClassNumber(n.subClass, u.dsc) && IsClassNumber(n.protocol, u.dp)
    && u.id == Device(Lower(vid), Lower(pid), Some(BuildDeviceModalias(vid, pid, bcd, u.dc, u.dsc, u.dp)))
    && u.bcd == Lower(bcd)
  }

  lemma BuildDeviceIs(name: PyStr, n: Node)
    requires IsComplete(n) && HasReadableClass(n)
    ensures var vid, pid, bcd := Attribute(n.idVendor).value, Attribute(n.idProduct).value, Attribute(n.bcdDevice).value;
            var dc, dsc, dp := ClassNumber(n.deviceClass).value, ClassNumber(n.subClass).value, ClassNumber(n.protocol).value;
            BuildDevice(name, n) ==
              UsbDevice(name, Device(Lower(vid), Lower(pid), Some(BuildDeviceModalias(vid, pid, bcd, dc, dsc, dp))),
                        Lower(bcd), dc, dsc, dp)
  {
    hide Attribute, ClassNumber, IsHex4, BuildDeviceModalias, Lower;
  }

  lemma ReadExactly(n: Node, vid: string, pid: string, bcd: string)
    ensures Attribute(n.idVendor) == Some(vid) <==> IsRead(n.idVendor, vid)
    ensures Attribute(n.idProduct) == Some(pid) <==> IsRead(n.idProduct, pid)
    ensures Attribute(n.bcdDevice) == Some(bcd) <==> IsRead(n.bcdDevice, bcd)
  {
    AttributeExact(n.idVendor, vid);
    AttributeExact(n.idProduct, pid);
    AttributeExact(n.bcdDevice, bcd);
  }

  lemma NumbersExactly(n: Node, dc: int, dsc: int, dp: int)
    ensures ClassNumber(n.deviceClass) == Some(dc) <==> IsClassNumber(n.deviceClass, dc)
    ensures ClassNumber(n.subClass) == Some(dsc) <==> IsClassNumber(n.subClass, dsc)
    ensures ClassNumber(n.protocol) == Some(dp) <==> IsClassNumber(n.protocol, dp)
  {
    ClassNumberExact(n.deviceClass, dc);
    ClassNumberExact(n.subClass, dsc);
    ClassNumberExact(n.protocol, dp);
  }

  lemma BuiltIsDevice(d: Dict<Node>, u: UsbDevice)
    ensures IsBuiltFrom(d, u) <==> IsDeviceOf(d, u)
  {
    hide Attribute, IsRead, IsClassNumber, ClassNumber, IsHex4, Lower, BuildDeviceModalias, Codes, Lookup, BuildDevice;
    var l := Lookup(d, u.name);
    if IsBuiltFrom(d, u) {
      var n := l.value;
      BuildDeviceIs(u.name, n);
      var vid, pid, bcd := Attribute(n.idVendor).value, Attribute(n.idProduct).value, Attribute(n.bcdDevice).value;
      ReadExactly(n, vid, pid, bcd);
      NumbersExactly(n, u.dc, u.dsc, u.dp);
      assert IsDeviceWith(n, u, vid, pid, bcd);
    }
    if IsDeviceOf(d, u) {
      var n := l.value;
      var vid, pid, bcd :| IsDeviceWith(n, u, vid, pid, bcd);
      ReadExactly(n, vid, pid, bcd);
      NumbersExactly(n, u.dc, u.dsc, u.dp);
      BuildDeviceIs(u.name, n);
    }
  }

  /** Which devices there are, and in which order: one for each complete device node, with
      its vendor id, product id, revision and three class numbers where they belong, by
      ascending name. */
  lemma EnumeratedExactly(d: Dict<Node>, u: UsbDevice)
    requires Distinct(d) && Enumerate(Some(d)).Some?
    ensures u in Enumerate(Some(d)).value <==> IsDeviceOf(d, u)
    ensures Ascending(Enumerate(Some(d)).value)
  {
    SortProperties(d);
    BuiltIsDevice(d, u);
    hide EnumerateFrom, IsCandidate, HasReadableClass, Sort, BuildDevice, Ascending, IsDeviceOf;
    EnumerateFromHolds(Sort(d), u);
    EnumerateFromAscends(Sort(d));
    assert Lookup(Sort(d), u.name) == Lookup(d, u.name);
  }

  /** An enumerated device has valid ids, and its modalias decodes exactly when its three
      class numbers fit a byte each: to the upper-case forms of the ids and the revision,
      and the printed class numbers. */
  lemma EnumeratedDevice(d: Dict<Node>, u: UsbDevice)
    requires Distinct(d) && Enumerate(Some(d)).Some? && u in Enumerate(Some(d)).value
    ensures ValidDevice(u.id) && u.id.modalias.Some?
    ensures DecodeModalias(u.id.modalias.value) ==
              if IsByte(u.dc) && IsByte(u.dsc) && IsByte(u.dp)
              then Some([Upper(u.id.vid), Upper(u.id.pid), Upper(u.bcd), Hex02(u.dc), Hex02(u.dsc), Hex02(u.dp)])
              else None
  {
    EnumeratedExactly(d, u);
    var n := Lookup(d, u.name).value;
    hide Enumerate, Lookup, Codes, IsDeviceWith;
    var vid, pid, bcd :| IsDeviceWith(n, u, vid, pid, bcd);
    DeviceFacts(n, u, vid, pid, bcd);
  }

  lemma DeviceFacts(n: Node, u: UsbDevice, vid: string, pid: string, bcd: string)
    requires IsDeviceWith(n, u, vid, pid, bcd)
    ensures ValidDevice(u.id) && u.id.modalias.Some?
    ensures DecodeModalias(u.id.modalias.value) ==
              if IsByte(u.dc) && IsByte(u.dsc) && IsByte(u.dp)
              then Some([Upper(u.id.vid), Upper(u.id.pid), Upper(u.bcd), Hex02(u.dc), Hex02(u.dsc), Hex02(u.dp)])
              else None
  {
    LowerHex4(vid);
    LowerHex4(pid);
    UpperOfLower(vid);
    UpperOfLower(pid);
    UpperOfLower(bcd);
    hide IsRead, IsClassNumber, IsHex4, Lower, Upper, BuildDeviceModalias, DecodeModalias, Hex02, SameUpToCase;
    DeviceModaliasDecodes(vid, pid, bcd, u.dc, u.dsc, u.dp);
  }

  lemma UpperOfLower(s: string)
    ensures Upper(Lower(s)) == Upper(s)
  {
    var a, b := Upper(Lower(s)), Upper(s);
    forall k | 0 <= k < |s|
      ensures a[k] == b[k]
    {
      assert UpperChar(LowerChar(s[k])) == UpperChar(s[k]);
    }
  }
}
