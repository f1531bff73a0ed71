/**
 VLAN flips of a switch port: comparing a read-back with a request, the drivers' template
 (check, push, check again), and the Junos and NXOS commands.
 */
module SwitchPort {
  import opened Prelude
  import opened Text
  import opened VlanRange

  /** The `switch_port_mode` texts. */
  datatype Mode = Access | Trunk | OtherMode(text: string)

  datatype FlipVlan = FlipVlan(tag: string, isNative: bool)

  /** What reaches a driver: every VLAN by its tag text. */
  datatype Flip = Flip(mode: Mode, vlans: seq<FlipVlan>)

  /** Junos answers with a list, NXOS and EOS with a text, for the one access VLAN. */
  datatype AccessVlan = ListForm(tags: seq<string>) | TextForm(text: string)

  /** `get_vlans_on_interface`. */
  datatype VlanData = VlanData(mode: Mode, native: Option<string>, trunk: Option<seq<string>>,
      access: Option<AccessVlan>)

  datatype DriverError =
    | InvalidMode
    | TrafficAboveThreshold
    | InterfaceNotFound
    | ReadFailed
    | VlanSuspended
    | VlansNotOnDevice
    | BadMember
    | MoreThanOneAccessVlan
    | NoVlans
    | NoNativeVlan
    | PushFailed
    | PostChangeValidation
    | ChangeStopActive

  function AsSet(texts: seq<string>): set<string> {
    set x | x in texts
  }

  // ----- the request

  /** `get_requested_vlans`. */
  function RequestedTags(vlans: seq<FlipVlan>): (r: seq<string>)
    ensures forall x :: x in r <==> x != "" && exists v | v in vlans :: v.tag == x
  {
    if vlans == [] then []
    else
      var n := |vlans| - 1;
      assert vlans == vlans[..n] + [vlans[n]];
      RequestedTags(vlans[..n]) + if vlans[n].tag != "" then [vlans[n].tag] else []
  }

  method GetRequestedVlans(vlans: seq<FlipVlan>) returns (tags: seq<string>)
    ensures tags == RequestedTags(vlans)
  {
    tags := [];
    for k := 0 to |vlans|
      invariant tags == RequestedTags(vlans[..k])
    {
      assert vlans[..k + 1][..k] == vlans[..k];
      if vlans[k].tag != "" {
        tags := tags + [vlans[k].tag];
      }
    }
    assert vlans[..|vlans|] == vlans;
  }

  /** `_get_requested_native_vlan`: the comparison looks for the first native VLAN. */
  function FirstNative(vlans: seq<FlipVlan>): (r: Option<string>)
    ensures r.None? <==> forall v | v in vlans :: !v.isNative
    ensures r.Some? ==> exists v | v in vlans :: v.isNative && v.tag == r.value
  {
    if vlans == [] then None
    else
      assert vlans == [vlans[0]] + vlans[1..];
      if vlans[0].isNative then Some(vlans[0].tag) else FirstNative(vlans[1..])
  }

  /** The push loop keeps the last native VLAN; an empty tag counts as none. */
  function LastNative(vlans: seq<FlipVlan>): (r: Option<string>)
    ensures r.None? <==> forall v | v in vlans :: !v.isNative
    ensures r.Some? ==> exists v | v in vlans :: v.isNative && v.tag == r.value
  {
    if vlans == [] then None
    else
      var n := |vlans| - 1;
      assert vlans == vlans[..n] + [vlans[n]];
      if vlans[n].isNative then Some(vlans[n].tag) else LastNative(vlans[..n])
  }

  /** The tags as the pushes list them, empty ones included. */
  function TagTexts(vlans: seq<FlipVlan>): (r: seq<string>)
    ensures |r| == |vlans| && forall k | 0 <= k < |r| :: r[k] == vlans[k].tag
  {
    seq(|vlans|, k requires 0 <= k < |vlans| => vlans[k].tag)
  }

  /** The flip has commands: one access VLAN, or a native one. */
  predicate Sendable(f: Flip) {
    if f.mode == Access then |f.vlans| == 1 else LastNative(f.vlans).Some? && LastNative(f.vlans).value != ""
  }

  predicate Numerals(vlans: seq<FlipVlan>) {
    forall v | v in vlans :: IsNumeral(v.tag)
  }

  lemma TagTextsAreNumerals(vlans: seq<FlipVlan>)
    requires Numerals(vlans)
    ensures forall t | t in TagTexts(vlans) :: IsNumeral(t)
  {
    forall t | t in TagTexts(vlans) ensures IsNumeral(t) {
      var k :| 0 <= k < |vlans| && TagTexts(vlans)[k] == t;
      assert vlans[k] in vlans;
    }
  }

  lemma TagTextsAreRequested(vlans: seq<FlipVlan>)
    requires Numerals(vlans)
    ensures AsSet(TagTexts(vlans)) == AsSet(RequestedTags(vlans))
  {
    forall x
      ensures x in TagTexts(vlans) <==> x in RequestedTags(vlans)
    {
      if x in TagTexts(vlans) {
        var k :| 0 <= k < |vlans| && vlans[k].tag == x;
        assert vlans[k] in vlans;
      }
      if x in RequestedTags(vlans) {
        var v :| v in vlans && v.tag == x;
        var k :| 0 <= k < |vlans| && vlans[k] == v;
        assert TagTexts(vlans)[k] == x;
      }
    }
  }

  // ----- compare_vlan_config

  /** The trunk members expanded; an absent or empty list stays empty. */
  function ExpandedTrunk(d: VlanData): Result<seq<string>, DriverError> {
    if d.trunk.None? || d.trunk.value == [] then Ok([])
    else
      match Collect(ValidatorMember, d.trunk.value)
      case Ok(tags) => Ok(tags)
      case Raised(_) => Raised(BadMember)
  }

  /** `set(access_vlan)`: of a list its elements, of a text its characters. */
  function AccessSet(a: AccessVlan): set<string> {
    match a
    case ListForm(tags) => AsSet(tags)
    case TextForm(text) => set c | c in text :: [c]
  }

  predicate AccessGiven(d: VlanData) {
    d.access.Some? && (match d.access.value case ListForm(tags) => tags != [] case TextForm(text) => text != "")
  }

  /** `compare_vlan_config`. An empty expansion and an absent access VLAN skip their comparison. */
  function Compare(f: Flip, d: VlanData): Result<bool, DriverError> {
    match ExpandedTrunk(d)
    case Raised(e) => Raised(e)
    case Ok(trunk) =>
      var tags := AsSet(RequestedTags(f.vlans));
      var requestedNative := match FirstNative(f.vlans) case Some(tag) => tag case None => "None";
      if f.mode != d.mode then Ok(false)
      else if trunk != [] && AsSet(trunk) != tags then Ok(false)
      else if AccessGiven(d) && AccessSet(d.access.value) != tags then Ok(false)
      else if d.native != Some(requestedNative) && d.mode == Trunk then Ok(false)
      else Ok(true)
  }

  /** The comparison fails exactly on a trunk read-back with a member it cannot expand. */
  lemma CompareRaises(f: Flip, d: VlanData)
    ensures Compare(f, d).Raised?
            <==> d.trunk.Some? && exists m | m in d.trunk.value :: ValidatorMember(m).Raised?
    ensures Compare(f, d).Raised? ==> Compare(f, d).error == BadMember
  {
    if d.trunk.Some? {
      CollectRaises(ValidatorMember, d.trunk.value);
    }
  }

  lemma TrunkAccepted(f: Flip, d: VlanData)
    requires f.mode == Trunk && d.mode == Trunk && d.access.None?
    requires ExpandedTrunk(d).Ok? && AsSet(ExpandedTrunk(d).value) == AsSet(RequestedTags(f.vlans))
    requires FirstNative(f.vlans).Some?
    ensures Compare(f, d) == Ok(true) <==> d.native == FirstNative(f.vlans)
  {
  }

  lemma AccessAccepted(f: Flip, d: VlanData)
    requires f.mode == Access && d.mode == Access && d.trunk.None?
    requires d.access.Some? && AccessSet(d.access.value) == AsSet(RequestedTags(f.vlans))
    ensures Compare(f, d) == Ok(true)
  {
  }

  // ----- what an accepted read-back is worth

  /** A trunk read-back carries members and no access VLAN, an access read-back a list of VLANs and no members. */
  predicate WellShaped(d: VlanData) {
    && (d.mode == Trunk ==> d.trunk.Some? && d.access.None?)
    && (d.mode == Access ==> d.trunk.None? && d.access.Some? && d.access.value.ListForm? && d.access.value.tags != [])
  }

  /** The members a read-back lists. */
  function MembersRead(d: VlanData): seq<string> {
    if d.mode == Access && d.access.Some? then
      match d.access.value case ListForm(tags) => tags case TextForm(text) => [text]
    else if d.trunk.Some? then d.trunk.value
    else []
  }

  /** The VLANs they denote, those known by name included. */
  function Carried(d: VlanData): set<Vlan> {
    DenotesAll(MembersRead(d))
  }

  predicate AllPlain(members: seq<string>) {
    forall m | m in members :: Plain(m)
  }

  /** The tags a request asks for. */
  function Requested(vlans: seq<FlipVlan>): set<nat> {
    set v | v in vlans && IsNumeral(v.tag) :: ParseNat(v.tag)
  }

  lemma RequestedTexts(vlans: seq<FlipVlan>)
    requires Numerals(vlans)
    ensures forall x | x in RequestedTags(vlans) :: IsNumeral(x)
    ensures TagsOf(RequestedTags(vlans)) == Tags(Requested(vlans))
  {
    forall v | v in vlans
      ensures Tag(ParseNat(v.tag)) in TagsOf(RequestedTags(vlans))
    {
      assert v.tag in RequestedTags(vlans);
    }
  }

  /** Numerals denote their own numbers. */
  lemma NumeralsDenote(members: seq<string>)
    requires forall m | m in members :: IsNumeral(m)
    ensures DenotesAll(members) == TagsOf(members)
  {
    assert forall m | m in members :: Tag(ParseNat(m)) in Denotes(m);
  }

  lemma SameTextsSameTags(some: seq<string>, others: seq<string>)
    requires AsSet(some) == AsSet(others)
    ensures TagsOf(some) == TagsOf(others)
    ensures forall x :: x in some <==> x in others
  {
    forall x
      ensures x in some <==> x in others
    {
      assert x in some <==> x in AsSet(some);
      assert x in others <==> x in AsSet(others);
    }
  }

  /** When the comparison accepts, mode and native VLAN agree; and the port carries exactly the requested
      VLANs if and only if every member read is a numeral or a well-formed range, and they denote any VLAN. */
  lemma AcceptedMeansAgreement(f: Flip, d: VlanData)
    requires Compare(f, d) == Ok(true) && WellShaped(d) && (f.mode == Trunk || f.mode == Access)
    requires Numerals(f.vlans) && f.vlans != []
    ensures d.mode == f.mode
    ensures f.mode == Trunk ==> d.native == Some(match FirstNative(f.vlans) case Some(tag) => tag case None => "None")
    ensures Carried(d) == Tags(Requested(f.vlans)) <==> AllPlain(MembersRead(d)) && Carried(d) != {}
  {
    RequestedTexts(f.vlans);
    assert Tag(ParseNat(f.vlans[0].tag)) in Tags(Requested(f.vlans));
    if Carried(d) == Tags(Requested(f.vlans)) {
      NamesHaveNoTag(MembersRead(d), Requested(f.vlans));
    }
    if AllPlain(MembersRead(d)) && Carried(d) != {} {
      AcceptedPlain(f, d);
    }
  }

  lemma AcceptedPlain(f: Flip, d: VlanData)
    requires Compare(f, d) == Ok(true) && WellShaped(d) && (f.mode == Trunk || f.mode == Access)
    requires Numerals(f.vlans) && AllPlain(MembersRead(d)) && Carried(d) != {}
    ensures Carried(d) == Tags(Requested(f.vlans))
  {
    RequestedTexts(f.vlans);
    if f.mode == Trunk {
      PlainMembersExpand(d.trunk.value);
      assert Carried(d) == TagsOf(ExpandedTrunk(d).value);
      SameTextsSameTags(ExpandedTrunk(d).value, RequestedTags(f.vlans));
    } else {
      var tags := d.access.value.tags;
      SameTextsSameTags(tags, RequestedTags(f.vlans));
      NumeralsDenote(tags);
    }
  }

  /** One way to miss: an NXOS trunk that allows "none" is taken for any request with its native VLAN. */
  lemma NoneAcceptsAnything(tag: string)
    requires tag != "" && tag != "10"
    ensures var f := Flip(Trunk, [FlipVlan("10", true), FlipVlan(tag, false)]);
            var d := VlanData(Trunk, Some("10"), Some(["none"]), None);
            Compare(f, d) == Ok(true) && Carried(d) == {Name("none")} && tag in RequestedTags(f.vlans)
  {
    var none := "none";
    NoneIsAName();
    var vlans := [FlipVlan("10", true), FlipVlan(tag, false)];
    assert vlans[1] in vlans;
    assert [none][..0] == [];
    assert Collect(ValidatorMember, [none]) == Ok([] + []);
    assert Name(none) in Denotes(none);
  }

  lemma NoneIsAName()
    ensures ValidatorMember("none") == Ok([]) && !Plain("none")
  {
    var none := "none";
    assert none[0] == 'n' && none[1] == 'o' && none[2] == 'n' && none[3] == 'e' && |none| == 4;
    SplitSingle(none, '-');
  }

  /** The other: beside a number, a member given by name is not seen at all. */
  lemma NamedMemberIsInvisible()
    ensures var f := Flip(Trunk, [FlipVlan("10", true)]);
            var d := VlanData(Trunk, Some("10"), Some(["10", "prod"]), None);
            Compare(f, d) == Ok(true) && WellShaped(d)
            && Requested(f.vlans) == {10} && Carried(d) == {Tag(10), Name("prod")}
  {
    var ten := "10";
    TenIsTen();
    TenAndProd();
    var vlans := [FlipVlan(ten, true)];
    assert vlans[0] in vlans;
    assert AsSet([ten]) == AsSet(RequestedTags(vlans)) by {
      assert vlans[..0] == [];
      assert RequestedTags(vlans) == [] + [ten];
    }
  }

  lemma TenAndProd()
    ensures Collect(ValidatorMember, ["10", "prod"]) == Ok(["10"])
    ensures DenotesAll(["10", "prod"]) == {Tag(10), Name("prod")}
  {
    var ten, prod := "10", "prod";
    TenIsTen();
    ProdIsAName();
    var members := [ten, prod];
    assert [ten][..0] == [] && members[..1] == [ten];
    assert [] + [ten] == [ten] + [] == [ten];
    assert Collect(ValidatorMember, [ten]) == Ok([ten]);
    assert members[0] in members && members[1] in members;
    assert Tag(10) in Denotes(ten) && Name(prod) in Denotes(prod);
  }

  lemma TenIsTen()
    ensures IsNumeral("10") && ParseNat("10") == 10 && ValidatorMember("10") == Ok(["10"])
  {
    var ten := "10";
    assert ten[..1] == "1";
    assert ParseNat("1") == 1;
  }

  lemma ProdIsAName()
    ensures ValidatorMember("prod") == Ok([]) && !Plain("prod")
  {
    var prod := "prod";
    assert prod[0] == 'p' && prod[1] == 'r' && prod[2] == 'o' && prod[3] == 'd' && |prod| == 4;
    SplitSingle(prod, '-');
  }

  /** Of a text the comparison takes the set of its characters: an access request is accepted exactly if
      nothing is shown, or the tag has one digit and the VLAN shown repeats it (1 is taken for 11). */
  lemma TextFormAcceptsRepeatedDigits(v: FlipVlan, native: Option<string>, shown: string)
    requires v.tag != ""
    ensures Compare(Flip(Access, [v]), VlanData(Access, native, None, Some(TextForm(shown)))) == Ok(true)
            <==> shown == "" || (|v.tag| == 1 && forall i | 0 <= i < |shown| :: shown[i] == v.tag[0])
  {
    var vlans := [v];
    assert vlans[0] in vlans;
    assert AsSet(RequestedTags(vlans)) == {v.tag};
    if shown != "" {
      assert [shown[0]] in AccessSet(TextForm(shown));
      if |v.tag| == 1 && forall i | 0 <= i < |shown| :: shown[i] == v.tag[0] {
        assert [v.tag[0]] == v.tag;
        assert AccessSet(TextForm(shown)) == {v.tag};
      }
      if AccessSet(TextForm(shown)) == {v.tag} {
        forall i | 0 <= i < |shown|
          ensures [shown[i]] == v.tag
        {
          assert [shown[i]] in AccessSet(TextForm(shown));
        }
      }
    }
  }

  // ----- the template, for any driver

  /** A driver over a device state D, for one interface: what `update_switch_port_vlans` calls. The read
      after the push is a second one, which may fail where the first did not. */
  datatype Driver<!D> = Driver(
    traffic: D -> Option<DriverError>,
    read: D -> Result<VlanData, DriverError>,
    checkTags: (D, seq<string>) -> Option<DriverError>,
    push: (D, Flip) -> (D, Option<DriverError>),
    reread: D -> Result<VlanData, DriverError>)

  datatype Outcome = NothingToDo | Pushed

  /** `pre_check_update_switch_port_vlans`: whether a push is needed. */
  function PreCheck<D>(dr: Driver<D>, d: D, f: Flip): Result<bool, DriverError> {
    if f.mode != Access && f.mode != Trunk then Raised(InvalidMode)
    else if dr.traffic(d).Some? then Raised(dr.traffic(d).value)
    else
      match dr.read(d)
      case Raised(e) => Raised(e)
      case Ok(data) =>
        if dr.checkTags(d, RequestedTags(f.vlans)).Some? then Raised(dr.checkTags(d, RequestedTags(f.vlans)).value)
        else
          match Compare(f, data)
          case Raised(e) => Raised(e)
          case Ok(same) => Ok(!same)
  }

  /** `post_check_update_switch_port_vlans`. */
  function PostCheck<D>(dr: Driver<D>, d: D, f: Flip): Option<DriverError> {
    match dr.reread(d)
    case Raised(e) => Some(e)
    case Ok(data) =>
      match Compare(f, data)
      case Raised(e) => Some(e)
      case Ok(same) => if same then None else Some(PostChangeValidation)
  }

  /** `update_switch_port_vlans`: the device it leaves and its outcome. */
  function Update<D>(dr: Driver<D>, d: D, f: Flip): (D, Result<Outcome, DriverError>) {
    match PreCheck(dr, d, f)
    case Raised(e) => (d, Raised(e))
    case Ok(false) => (d, Ok(NothingToDo))
    case Ok(true) =>
      var (d', e) := dr.push(d, f);
      if e.Some? then (d', Raised(e.value))
      else
        match PostCheck(dr, d', f)
        case Some(e) => (d', Raised(e))
        case None => (d', Ok(Pushed))
  }

  /** A mode that is neither access nor trunk, a busy port, a failed read and a VLAN the switch has not or has
      suspended raise in this order, and the device is left alone. */
  lemma RefusedUpdates<D>(dr: Driver<D>, d: D, f: Flip)
    ensures f.mode.OtherMode? ==> Update(dr, d, f) == (d, Raised(InvalidMode))
    ensures !f.mode.OtherMode? && dr.traffic(d).Some? ==> Update(dr, d, f) == (d, Raised(dr.traffic(d).value))
    ensures !f.mode.OtherMode? && dr.traffic(d).None? && dr.read(d).Raised? ==>
              Update(dr, d, f) == (d, Raised(dr.read(d).error))
    ensures !f.mode.OtherMode? && dr.traffic(d).None? && dr.read(d).Ok? ==>
              var wrong := dr.checkTags(d, RequestedTags(f.vlans));
              wrong.Some? ==> Update(dr, d, f) == (d, Raised(wrong.value))
  {
  }

  /** After a push without an exception the second read and the comparison of what it gives decide, and the
      device stays as pushed. */
  lemma PushedUpdates<D>(dr: Driver<D>, d: D, f: Flip)
    requires PreCheck(dr, d, f) == Ok(true)
    ensures var (d', failed), (left, outcome) := dr.push(d, f), Update(dr, d, f);
            && left == d'
            && outcome == (if failed.Some? then Raised(failed.value)
                           else if dr.reread(d').Raised? then Raised(dr.reread(d').error)
                           else if Compare(f, dr.reread(d').value).Raised? then Raised(BadMember)
                           else if Compare(f, dr.reread(d').value) == Ok(true) then Ok(Pushed)
                           else Raised(PostChangeValidation))
  {
    var d' := dr.push(d, f).0;
    if dr.reread(d').Ok? {
      CompareRaises(f, dr.reread(d').value);
    }
  }

  /** An update that needs a push is that push and the check after it. */
  lemma NeededUpdate<D>(dr: Driver<D>, d: D, f: Flip, d': D, e: Option<DriverError>)
    requires PreCheck(dr, d, f) == Ok(true) && dr.push(d, f) == (d', e)
    ensures Update(dr, d, f).0 == d' && (Update(dr, d, f).1.Ok? <==> e == None && PostCheck(dr, d', f) == None)
  {
  }

  class Switch<D> {
    const driver: Driver<D>
    var device: D

    constructor (driver: Driver<D>, device: D)
      ensures this.driver == driver && this.device == device
    {
      this.driver, this.device := driver, device;
    }

    method PreCheckUpdate(f: Flip) returns (r: Result<bool, DriverError>)
      ensures r == PreCheck(driver, device, f)
    {
      if f.mode != Access && f.mode != Trunk {
        return Raised(InvalidMode);
      }
      var busy := driver.traffic(device);
      if busy.Some? {
        return Raised(busy.value);
      }
      var requested := GetRequestedVlans(f.vlans);
      var current := driver.read(device);
      if current.Raised? {
        return Raised(current.error);
      }
      var invalid := driver.checkTags(device, requested);
      if invalid.Some? {
        return Raised(invalid.value);
      }
      var same := Compare(f, current.value);
      return match same case Raised(e) => Raised(e) case Ok(b) => Ok(!b);
    }

    method PostCheckUpdate(f: Flip) returns (e: Option<DriverError>)
      ensures e == PostCheck(driver, device, f)
    {
      var current := driver.reread(device);
      if current.Raised? {
        return Some(current.error);
      }
      var same := Compare(f, current.value);
      if same.Raised? {
        return Some(same.error);
      }
      return if same.value then None else Some(PostChangeValidation);
    }

    method UpdateSwitchPortVlans(f: Flip) returns (r: Result<Outcome, DriverError>)
      modifies this
      ensures (device, r) == Update(driver, old(device), f)
    {
      var needed := PreCheckUpdate(f);
      if needed.Raised? {
        return Raised(needed.error);
      }
      if !needed.value {
        return Ok(NothingToDo);
      }
      var (after, failed) := driver.push(device, f);
      device := after;
      if failed.Some? {
        return Raised(failed.value);
      }
      var wrong := PostCheckUpdate(f);
      if wrong.Some? {
        return Raised(wrong.value);
      }
      return Ok(Pushed);
    }
  }

  /** A push changes the port, not the switch's VLAN table nor its traffic. */
  ghost predicate PushLeavesTheRestAlone<D(!new)>(dr: Driver<D>) {
    forall d: D, f: Flip ::
      dr.traffic(dr.push(d, f).0) == dr.traffic(d)
      && forall tags :: dr.checkTags(dr.push(d, f).0, tags) == dr.checkTags(d, tags)
  }

  /** A second read that succeeds reports what the first one would. */
  ghost predicate ReadsTheDevice<D(!new)>(dr: Driver<D>) {
    forall d: D :: dr.reread(d).Ok? ==> dr.reread(d) == dr.read(d)
  }

  /** Repeating a flip that returned finds nothing to do and leaves the device as it is, for every driver. */
  lemma FlipIsIdempotent<D(!new)>(dr: Driver<D>, d: D, f: Flip)
    requires PushLeavesTheRestAlone(dr) && ReadsTheDevice(dr) && Update(dr, d, f).1.Ok?
    ensures var d' := Update(dr, d, f).0; Update(dr, d', f) == (d', Ok(NothingToDo))
  {
    assert dr.traffic(dr.push(d, f).0) == dr.traffic(d);
  }

  /** A flip that returned, pushed or not, leaves a device whose read-back the comparison accepts. */
  lemma ReturnedMeansAccepted<D(!new)>(dr: Driver<D>, d: D, f: Flip)
    requires ReadsTheDevice(dr) && Update(dr, d, f).1.Ok?
    ensures var read := dr.read(Update(dr, d, f).0);
            (f.mode == Access || f.mode == Trunk) && read.Ok? && Compare(f, read.value) == Ok(true)
  {
  }

  /** So it carries the requested mode and native VLAN, and exactly the requested VLANs if and only if its
      members are numbers and ranges that denote any. */
  lemma ReturnedMeansAgreement<D(!new)>(dr: Driver<D>, d: D, f: Flip)
    requires ReadsTheDevice(dr) && Update(dr, d, f).1.Ok? && Numerals(f.vlans) && f.vlans != []
    requires dr.read(Update(dr, d, f).0).Ok? ==> WellShaped(dr.read(Update(dr, d, f).0).value)
    ensures dr.read(Update(dr, d, f).0).Ok?
    ensures var data := dr.read(Update(dr, d, f).0).value;
            && data.mode == f.mode
            && (f.mode == Trunk ==>
                  data.native == Some(match FirstNative(f.vlans) case Some(tag) => tag case None => "None"))
            && (Carried(data) == Tags(Requested(f.vlans)) <==> AllPlain(MembersRead(data)) && Carried(data) != {})
  {
    ReturnedMeansAccepted(dr, d, f);
    AcceptedMeansAgreement(f, dr.read(Update(dr, d, f).0).value);
  }
}
