/** usb/enumeration.py: which sysfs entries become devices, and in which order. */
module Enumeration {
  import opened Text
  import opened Dicts
  import opened ModulesAlias
  import opened AliasPrinters
  import opened Knowledge

  /** What reading an entry's attributes gives; None for a host error. */
  datatype Node = Node(
    idVendor: Option<string>, idProduct: Option<string>, bcdDevice: Option<string>,
    deviceClass: Option<string>, subClass: Option<string>, protocol: Option<string>)

  /** _read_attr: stripped, and an empty value counts as missing. */
  function Attribute(raw: Option<string>): Option<string> {
    if raw.None? || Strip(raw.value, IsSpace) == "" then None else Some(Strip(raw.value, IsSpace))
  }

  /** Device nodes are neither interfaces (with a colon) nor root hubs (usbN). */
  predicate IsDeviceNode(name: PyStr) { ':' as int !in name && !(Codes("usb") <= name) }

  predicate IsComplete(n: Node) {
    && Attribute(n.idVendor).Some? && IsHex4(Attribute(n.idVendor).value)
    && Attribute(n.idProduct).Some? && IsHex4(Attribute(n.idProduct).value)
    && Attribute(n.bcdDevice).Some? && IsHex4(Attribute(n.bcdDevice).value)
  }

  // --------------------------------------------------------------- int(text, 16)

  /** Hex digits with single underscores between them. */
  function HexDigitsValue(s: string, acc: nat): Option<nat>
    decreases |s|
  {
    if s == "" || !IsHex(s[0]) then None
    else
      var v := acc * 16 + HexDigitValue(s[0]);
      if |s| == 1 then Some(v)
      else if s[1] == '_' then HexDigitsValue(s[2..], v)
      else HexDigitsValue(s[1..], v)
  }

  /** The length of a leading 0x, and of the underscore that may follow it. */
  function PrefixLength(s: string): (n: nat)
    ensures n <= |s|
  {
    if |s| >= 2 && s[0] == '0' && (s[1] == 'x' || s[1] == 'X') then (if |s| >= 3 && s[2] == '_' then 3 else 2) else 0
  }

  function UnsignedHex(s: string): Option<nat> { HexDigitsValue(s[PrefixLength(s)..], 0) }

  /** int(s, 16) of a stripped text; None stands for its ValueError. */
  function HexInt(s: string): Option<int> {
    var sign := s != "" && (s[0] == '-' || s[0] == '+');
    var v := UnsignedHex(if sign then s[1..] else s);
    if v.None? then None else Some(if s[0] == '-' then -(v.value as int) else v.value)
  }

  /** int(attribute or "0", 16). */
  function ClassNumber(raw: Option<string>): Option<int> {
    if Attribute(raw).None? then Some(0) else HexInt(Attribute(raw).value)
  }

  predicate HasReadableClass(n: Node) {
    ClassNumber(n.deviceClass).Some? && ClassNumber(n.subClass).Some? && ClassNumber(n.protocol).Some?
  }

  // ---------------------------------------------------------------- enumeration

  datatype UsbDevice = UsbDevice(name: PyStr, id: Device, bcd: string, dc: int, dsc: int, dp: int)

  function BuildDevice(name: PyStr, n: Node): UsbDevice
    requires IsComplete(n) && HasReadableClass(n)
  {
    var vid, pid, bcd := Attribute(n.idVendor).value, Attribute(n.idProduct).value, Attribute(n.bcdDevice).value;
    var dc, dsc, dp := ClassNumber(n.deviceClass).value, ClassNumber(n.subClass).value, ClassNumber(n.protocol).value;
    UsbDevice(name, MakeDevice(vid, pid, Some(BuildDeviceModalias(vid, pid, bcd, dc, dsc, dp))).value, Lower(bcd), dc, dsc, dp)
  }

  predicate IsCandidate(name: PyStr, n: Node) { IsDeviceNode(name) && IsComplete(n) }

  /** The loop over entries in the given order; None when int() raises. */
  function EnumerateFrom(entries: Dict<Node>): Option<seq<UsbDevice>> {
    match entries
    case Nil => Some([])
    case Cons(name, n, t) =>
      if !IsCandidate(name, n) then EnumerateFrom(t)
      else if !HasReadableClass(n) then None
      else
        var rest := EnumerateFrom(t);
        if rest.None? then None else Some([BuildDevice(name, n)] + rest.value)
  }

  /** enumerate_usb_devices: an unreadable root gives no devices; entries are taken
      in sorted order whatever order the directory lists them in. */
  function Enumerate(root: Option<Dict<Node>>): Option<seq<UsbDevice>> {
    if root.None? then Some([]) else EnumerateFrom(Sort(root.value))
  }

  method EnumerateUsbDevices(root: Option<Dict<Node>>) returns (devices: Option<seq<UsbDevice>>)
    ensures devices == Enumerate(root)
  {
    hide IsCandidate, HasReadableClass, BuildDevice, Sort;
    if root.None? {
      return Some([]);
    }
    var out: seq<UsbDevice> := [];
    var rest := Sort(root.value);
    PrefixedNothing(EnumerateFrom(rest));
    while rest.Cons?
      invariant Enumerate(root) == Prefixed(out, EnumerateFrom(rest))
      decreases rest
    {
      if IsCandidate(rest.key, rest.value) {
        if !HasReadableClass(rest.value) {
          return None;
        }
        CandidateIsComplete(rest.key, rest.value);
        PrefixedStep(out, BuildDevice(rest.key, rest.value), EnumerateFrom(rest.tail));
        out := out + [BuildDevice(rest.key, rest.value)];
      }
      rest := rest.tail;
    }
    assert out + [] == out;
    return Some(out);
  }

  lemma CandidateIsComplete(name: PyStr, n: Node)
    requires IsCandidate(name, n)
    ensures IsComplete(n)
  {
  }

  function Prefixed(done: seq<UsbDevice>, rest: Option<seq<UsbDevice>>): Option<seq<UsbDevice>> {
    if rest.None? then None else Some(done + rest.value)
  }

  lemma PrefixedNothing(rest: Option<seq<UsbDevice>>)
    ensures Prefixed([], rest) == rest
  {
    if rest.Some? {
      assert [] + rest.value == rest.value;
    }
  }

  lemma PrefixedStep(done: seq<UsbDevice>, d: UsbDevice, rest: Option<seq<UsbDevice>>)
    ensures Prefixed(done, if rest.None? then None else Some([d] + rest.value)) == Prefixed(done + [d], rest)
  {
    if rest.Some? {
      assert done + ([d] + rest.value) == done + [d] + rest.value;
    }
  }

  /** The result does not depend on the order the directory is listed in. */
  lemma ListingOrderIsIrrelevant(a: Dict<Node>, b: Dict<Node>)
    requires Distinct(a) && Distinct(b) && SameLookups(a, b)
    ensures Enumerate(Some(a)) == Enumerate(Some(b))
  {
    SortProperties(a);
    SortProperties(b);
    assert forall k :: Lookup(a, k) == Lookup(b, k);
    SortedUnique(Sort(a), Sort(b));
  }

  ghost predicate Derails(d: Dict<Node>, name: PyStr) {
    var n := Lookup(d, name);
    n.Some? && IsCandidate(name, n.value) && !HasReadableClass(n.value)
  }

  lemma {:induction false} EnumerateFromRaises(d: Dict<Node>)
    requires Distinct(d)
    ensures EnumerateFrom(d) == None <==> exists name :: Derails(d, name)
  {
    hide IsCandidate, HasReadableClass, BuildDevice;
    if d.Cons? {
      EnumerateFromRaises(d.tail);
      assert Lookup(d, d.key) == Some(d.value);
      assert forall k :: k in Keys(d.tail) ==> Lookup(d, k) == Lookup(d.tail, k);
      if name :| Derails(d.tail, name) {
        assert Derails(d, name);
      }
      if name :| Derails(d, name) {
        assert name == d.key || Derails(d.tail, name);
      }
      assert IsCandidate(d.key, d.value) && !HasReadableClass(d.value) ==> Derails(d, d.key);
    }
  }

  /** Incomplete entries are skipped, but one complete entry with an unreadable class
      number makes the whole enumeration raise; nothing else does. */
  lemma EnumerationRaisesExactly(d: Dict<Node>)
    requires Distinct(d)
    ensures Enumerate(Some(d)) == None <==> exists name :: Derails(d, name)
  {
    hide EnumerateFrom, IsCandidate, HasReadableClass, Sort;
    SortProperties(d);
    SortedDistinct(Sort(d));
    EnumerateFromRaises(Sort(d));
    assert forall name :: Lookup(Sort(d), name) == Lookup(d, name);
    if name :| Derails(d, name) {
      assert Lookup(Sort(d), name) == Lookup(d, name);
      assert Derails(Sort(d), name);
    }
    if name :| Derails(Sort(d), name) {
      assert Lookup(Sort(d), name) == Lookup(d, name);
      assert Derails(d, name);
    }
  }
}
