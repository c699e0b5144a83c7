/** The knowledge base, the device identity and the evidence the diagnosis
    pipeline passes along. The KB is any value of the documented shape. */
module Knowledge {
  import opened Text
  import opened AliasPrinters

  datatype Confidence = CONFIRMED | HIGH_CONFIDENCE | PROBABLE | POSSIBLE | UNKNOWN_CONFIDENCE

  /** What an evidence line is about; its wording is not modelled. */
  datatype Evidence =
    | AliasRowClaims(module_: string, raw: string)
    | EntryListsModule(chipset: string, module_: string)
    | EntryListsId(vidPid: string, chipset: string)
    | AliasConfirms
    | ClaimedButUnnamed(vidPid: string)
    | NothingKnown(vidPid: string)
    | Cited(source: string, detail: string)
    | OwnsFirmware(file: string, chipset: string)

  datatype KbEntry = KbEntry(
    chipset: string,
    usbIds: seq<string>,
    modules: seq<string>,
    firmware: seq<string>,
    packages: seq<string>,
    newIdFeasible: Option<bool>,
    preferredModule: Option<string>,
    newIdModules: seq<string>,
    confidence: Option<Confidence>,
    evidence: seq<Evidence>)

  type Kb = seq<KbEntry>

  /** types.UsbDevice: ids of four hex digits, stored in lower case. */
  datatype Device = Device(vid: string, pid: string, modalias: Option<string>)

  predicate IsLowerHex4(s: string) { IsHex4(s) && Lower(s) == s }

  predicate ValidDevice(d: Device) { IsLowerHex4(d.vid) && IsLowerHex4(d.pid) }

  /** The constructor; None stands for its ValueError. */
  function MakeDevice(vid: string, pid: string, modalias: Option<string>): (r: Option<Device>)
    ensures r.Some? <==> IsHex4(vid) && IsHex4(pid)
    ensures r.Some? ==> ValidDevice(r.value) && SameUpToCase(r.value.vid, vid) && SameUpToCase(r.value.pid, pid)
  {
    if IsHex4(vid) && IsHex4(pid) then
      LowerHex4(vid);
      LowerHex4(pid);
      Some(Device(Lower(vid), Lower(pid), modalias))
    else None
  }

  lemma LowerHex4(s: string)
    requires IsHex4(s)
    ensures IsLowerHex4(Lower(s)) && SameUpToCase(Lower(s), s)
  {
  }

  function VidPid(d: Device): string { d.vid + ":" + d.pid }

  function LowerAll(ids: seq<string>): seq<string> { seq(|ids|, i requires 0 <= i < |ids| => Lower(ids[i])) }

  /** First entry that lists the id, ignoring case. */
  function FindById(kb: Kb, target: string): (r: Option<KbEntry>)
    ensures r.Some? ==> r.value in kb && target in LowerAll(r.value.usbIds)
    ensures r.None? ==> forall e :: e in kb ==> target !in LowerAll(e.usbIds)
  {
    if kb == [] then None
    else if target in LowerAll(kb[0].usbIds) then Some(kb[0])
    else FindById(kb[1..], target)
  }

  /** First entry with the chipset name. */
  function FindByName(kb: Kb, name: string): (r: Option<KbEntry>)
    ensures r.Some? ==> r.value in kb && r.value.chipset == name
    ensures r.None? ==> forall e :: e in kb ==> e.chipset != name
  {
    if kb == [] then None
    else if kb[0].chipset == name then Some(kb[0])
    else FindByName(kb[1..], name)
  }

  /** e is the first entry that lists the id, in whatever case. */
  ghost predicate IsFirstListing(kb: Kb, target: string, e: KbEntry) {
    exists i :: 0 <= i < |kb| && kb[i] == e && Lists(kb[i], target) && forall j :: 0 <= j < i ==> !Lists(kb[j], target)
  }

  ghost predicate Lists(e: KbEntry, target: string) {
    exists k :: 0 <= k < |e.usbIds| && Lower(e.usbIds[k]) == target
  }

  /** e is the first entry of that name. */
  ghost predicate IsFirstNamed(kb: Kb, name: string, e: KbEntry) {
    exists i :: 0 <= i < |kb| && kb[i] == e && kb[i].chipset == name && forall j :: 0 <= j < i ==> kb[j].chipset != name
  }

  lemma ListsExact(e: KbEntry, target: string)
    ensures target in LowerAll(e.usbIds) <==> Lists(e, target)
  {
    hide Lower;
    var ls := LowerAll(e.usbIds);
    if target in ls {
      var k :| 0 <= k < |ls| && ls[k] == target;
      assert Lower(e.usbIds[k]) == target;
    }
    if k :| 0 <= k < |e.usbIds| && Lower(e.usbIds[k]) == target {
      assert ls[k] == target;
    }
  }

  /** Both lookups return the first entry there is, and none only when there is none. */
  lemma {:induction false} FindByIdExact(kb: Kb, target: string, e: KbEntry)
    ensures FindById(kb, target) == Some(e) <==> IsFirstListing(kb, target, e)
    ensures FindById(kb, target) == None <==> forall i :: 0 <= i < |kb| ==> !Lists(kb[i], target)
  {
    hide Lists, LowerAll;
    if kb != [] {
      ListsExact(kb[0], target);
      FindByIdExact(kb[1..], target, e);
      assert forall i :: 1 <= i < |kb| ==> kb[i] == kb[1..][i - 1];
      assert forall i :: 0 <= i < |kb[1..]| ==> kb[1..][i] == kb[i + 1];
      FirstListingTail(kb, target, e);
    }
  }

  lemma FirstListingTail(kb: Kb, target: string, e: KbEntry)
    requires kb != []
    ensures Lists(kb[0], target) ==> (IsFirstListing(kb, target, e) <==> kb[0] == e)
    ensures !Lists(kb[0], target) ==> (IsFirstListing(kb, target, e) <==> IsFirstListing(kb[1..], target, e))
  {
    hide Lists;
    var t := kb[1..];
    if i :| 0 <= i < |kb| && kb[i] == e && Lists(kb[i], target) && forall j :: 0 <= j < i ==> !Lists(kb[j], target) {
      if i > 0 {
        assert t[i - 1] == e && forall j :: 0 <= j < i - 1 ==> t[j] == kb[j + 1];
      }
    }
    if !Lists(kb[0], target) && IsFirstListing(t, target, e) {
      var i :| 0 <= i < |t| && t[i] == e && Lists(t[i], target) && forall j :: 0 <= j < i ==> !Lists(t[j], target);
      assert kb[i + 1] == e && forall j :: 1 <= j < i + 1 ==> kb[j] == t[j - 1];
    }
    assert Lists(kb[0], target) && kb[0] == e ==> IsFirstListing(kb, target, e);
  }

  lemma {:induction false} FindByNameExact(kb: Kb, name: string, e: KbEntry)
    ensures FindByName(kb, name) == Some(e) <==> IsFirstNamed(kb, name, e)
    ensures FindByName(kb, name) == None <==> forall i :: 0 <= i < |kb| ==> kb[i].chipset != name
  {
    if kb != [] {
      var t := kb[1..];
      FindByNameExact(t, name, e);
      assert forall i :: 0 <= i < |t| ==> t[i] == kb[i + 1];
      assert forall i :: 1 <= i < |kb| ==> kb[i] == t[i - 1];
      FirstNamedTail(kb, name, e);
      hide IsFirstNamed;
    }
  }

  lemma FirstNamedTail(kb: Kb, name: string, e: KbEntry)
    requires kb != []
    ensures kb[0].chipset == name ==> (IsFirstNamed(kb, name, e) <==> kb[0] == e)
    ensures kb[0].chipset != name ==> (IsFirstNamed(kb, name, e) <==> IsFirstNamed(kb[1..], name, e))
  {
    var t := kb[1..];
    if i :| 0 <= i < |kb| && kb[i] == e && kb[i].chipset == name && forall j :: 0 <= j < i ==> kb[j].chipset != name {
      if i > 0 {
        assert t[i - 1] == e && forall j :: 0 <= j < i - 1 ==> t[j] == kb[j + 1];
      }
    }
    if kb[0].chipset != name && IsFirstNamed(t, name, e) {
      var i :| 0 <= i < |t| && t[i] == e && t[i].chipset == name && forall j :: 0 <= j < i ==> t[j].chipset != name;
      assert kb[i + 1] == e && forall j :: 1 <= j < i + 1 ==> kb[j] == t[j - 1];
    }
  }

  const UNKNOWN_CHIPSET: string := "UNKNOWN"

  /** Chipset names are a key of the knowledge base, and none is reserved. */
  ghost predicate ProperNames(kb: Kb) {
    && (forall i, j :: 0 <= i < j < |kb| ==> kb[i].chipset != kb[j].chipset)
    && (forall i :: 0 <= i < |kb| ==> kb[i].chipset != UNKNOWN_CHIPSET)
  }

  /** With names as a key, an entry is found again under its own name. */
  lemma {:induction false} NameFindsEntry(kb: Kb, e: KbEntry)
    requires ProperNames(kb) && e in kb
    ensures FindByName(kb, e.chipset) == Some(e)
  {
    if kb[0] != e {
      assert e in kb[1..];
      var i :| 1 <= i < |kb| && kb[i] == e;
      assert kb[0].chipset != kb[i].chipset;
      assert ProperNames(kb[1..]);
      NameFindsEntry(kb[1..], e);
    }
  }

  lemma UnknownIsNoName(kb: Kb)
    requires ProperNames(kb)
    ensures FindByName(kb, UNKNOWN_CHIPSET) == None
  {
    assert forall e :: e in kb ==> exists i :: 0 <= i < |kb| && kb[i] == e && kb[i].chipset != UNKNOWN_CHIPSET;
  }
}
