/** The Junos driver's port commands: what they mean to the switch, and that they do what was asked. */
module JunosPort {
  import opened Interpreter
  import opened Prelude
  import opened Text
  import opened VlanRange
  import opened SwitchPort

  /** The Ethernet-switching part of an interface's configuration; members keep their order. */
  datatype PortConfig = PortConfig(mode: Mode, native: Option<string>, members: seq<string>)

  datatype DeviceVlan = DeviceVlan(tag: string, suspended: bool)

  datatype Device = Device(ports: map<string, PortConfig>, vlans: seq<DeviceVlan>)

  datatype Command =
    | DeleteNativeVlanId
    | DeleteVlanMembers
    | SetAccess(member: string)
    | SetTrunk(native: string, members: seq<string>)

  // ----- the switch: `set ... vlan members` adds to the members there are

  function AddMembers(members: seq<string>, more: seq<string>): (r: seq<string>)
    ensures AsSet(r) == AsSet(members) + AsSet(more)
    decreases |more|
  {
    if more == [] then members
    else
      assert AsSet(more) == {more[0]} + AsSet(more[1..]);
      AddMembers(if more[0] in members then members else members + [more[0]], more[1..])
  }

  predicate Distinct(members: seq<string>) {
    forall i, j | 0 <= i < j < |members| :: members[i] != members[j]
  }

  /** A member that is there already is not listed again. */
  lemma {:induction false} AddedOnce(members: seq<string>, more: seq<string>)
    requires Distinct(members)
    ensures Distinct(AddMembers(members, more))
    decreases |more|
  {
    if more != [] {
      AddedOnce(if more[0] in members then members else members + [more[0]], more[1..]);
    }
  }

  function Execute(p: PortConfig, c: Command): PortConfig {
    match c
    case DeleteNativeVlanId => p.(native := None)
    case DeleteVlanMembers => p.(members := [])
    case SetAccess(member) => p.(mode := Access, members := AddMembers(p.members, [member]))
    case SetTrunk(native, members) => PortConfig(Trunk, Some(native), AddMembers(p.members, members))
  }

  /** `get_vlans_on_interface`; a port without members cannot be read. */
  function Read(d: Device, interface: string): Result<VlanData, DriverError> {
    if interface !in d.ports then Raised(InterfaceNotFound)
    else
      var p := d.ports[interface];
      if p.members == [] then Raised(ReadFailed)
      else if p.mode == Access then Ok(VlanData(p.mode, p.native, None, Some(ListForm([p.members[0]]))))
      else Ok(VlanData(p.mode, p.native, Some(p.members), None))
  }

  // ----- the VLAN table check

  /** `_validate_vlan_tags`: any suspended VLAN on the switch fails a request that names a tag. */
  function CheckTags(d: Device, tags: seq<string>): Option<DriverError> {
    if tags != [] && (exists v | v in d.vlans :: v.suspended) then Some(VlanSuspended)
    else if forall tag | tag in tags :: exists v | v in d.vlans :: v.tag == tag then None
    else Some(VlansNotOnDevice)
  }

  method ValidateVlanTags(d: Device, tags: seq<string>) returns (e: Option<DriverError>)
    ensures e == CheckTags(d, tags)
  {
    var valid: seq<string> := [];
    for i := 0 to |tags|
      invariant forall x :: x in valid <==> x in tags[..i] && exists v | v in d.vlans :: v.tag == x
      invariant i > 0 ==> forall v | v in d.vlans :: !v.suspended
    {
      var tag := tags[i];
      ghost var before := valid;
      for j := 0 to |d.vlans|
        invariant forall v | v in d.vlans[..j] :: !v.suspended
        invariant forall x :: x in valid <==> x in before || (x == tag && exists v | v in d.vlans[..j] :: v.tag == tag)
      {
        var vlan := d.vlans[j];
        assert d.vlans[..j + 1] == d.vlans[..j] + [vlan];
        if vlan.suspended {
          assert vlan in d.vlans && tags[i] in tags;
          return Some(VlanSuspended);
        }
        if tag == vlan.tag {
          valid := valid + [tag];
        }
      }
      assert d.vlans[..|d.vlans|] == d.vlans;
      assert tags[..i + 1] == tags[..i] + [tag];
    }
    assert tags[..|tags|] == tags;
    if AsSet(valid) == AsSet(tags) {
      assert forall tag | tag in tags :: tag in AsSet(valid);
      return None;
    }
    assert exists tag | tag in tags :: tag !in valid;
    return Some(VlansNotOnDevice);
  }

  /** A request that names a tag fails on a switch with any suspended VLAN, whichever; otherwise it passes
      exactly if the switch has a VLAN of every text asked for. */
  lemma CheckTagsExactly(d: Device, tags: seq<string>)
    ensures CheckTags(d, tags) == Some(VlanSuspended) <==> tags != [] && exists v | v in d.vlans :: v.suspended
    ensures CheckTags(d, tags) == None
            <==> tags == [] || (&& (forall v | v in d.vlans :: !v.suspended)
                                && forall tag | tag in tags :: exists v | v in d.vlans :: v.tag == tag)
    ensures CheckTags(d, tags).Some? && CheckTags(d, tags) != Some(VlanSuspended) ==>
              CheckTags(d, tags) == Some(VlansNotOnDevice)
  {
  }

  // ----- update_switch_port_vlans_on_device

  function AccessCommands(hasNative: bool, tag: string): seq<Command> {
    (if hasNative then [DeleteNativeVlanId] else []) + [DeleteVlanMembers, SetAccess(tag)]
  }

  /** The commands for a flip of a port that has or has not a native VLAN. */
  function Commands(f: Flip, hasNative: bool): Result<seq<Command>, DriverError> {
    if f.mode == Access then
      if |f.vlans| > 1 then Raised(MoreThanOneAccessVlan)
      else if f.vlans == [] then Raised(NoVlans)
      else Ok(AccessCommands(hasNative, f.vlans[0].tag))
    else
      match LastNative(f.vlans)
      case Some(native) =>
        if native == "" then Raised(NoNativeVlan) else Ok([DeleteVlanMembers, SetTrunk(native, TagTexts(f.vlans))])
      case None => Raised(NoNativeVlan)
  }

  /** The push: read for the native VLAN in access mode, then load and commit, which may be lost before
      or after it took effect. */
  function Push(d: Device, interface: string, f: Flip, commit: Fault): (Device, Option<DriverError>) {
    if f.mode == Access && |f.vlans| == 1 && Read(d, interface).Raised? then (d, Some(Read(d, interface).error))
    else
      var hasNative := f.mode == Access && |f.vlans| == 1 && Read(d, interface).value.native.Some?;
      match Commands(f, hasNative)
      case Raised(e) => (d, Some(e))
      case Ok(commands) =>
        if interface !in d.ports then (d, Some(PushFailed))
        else
          var pushed := WithPort(d, interface, ExecuteAll(Execute, d.ports[interface], commands));
          (if commit == Healthy || commit == LostAfter then pushed else d,
           if commit == LostBefore || commit == LostAfter then Some(PushFailed) else None)
  }

  function WithPort(d: Device, interface: string, p: PortConfig): Device {
    d.(ports := d.ports[interface := p])
  }

  /** The flips without commands, by exception: several VLANs or none for an access port, and no native VLAN, or
      one without a tag, for the others. */
  lemma CommandsExactly(f: Flip, hasNative: bool)
    ensures Commands(f, hasNative).Ok? <==> Sendable(f)
    ensures !Sendable(f) ==>
              Commands(f, hasNative) == Raised(if f.mode != Access then NoNativeVlan
                                           else if f.vlans == [] then NoVlans
                                           else MoreThanOneAccessVlan)
  {
  }

  class JunosSwitch {
    var device: Device

    constructor (device: Device)
      ensures this.device == device
    {
      this.device := device;
    }

    method BuildCommands(f: Flip, interface: string) returns (r: Result<seq<Command>, DriverError>)
      ensures f.mode == Access && |f.vlans| == 1 && Read(device, interface).Raised? ==>
                r == Raised(Read(device, interface).error)
      ensures f.mode == Access && |f.vlans| == 1 && Read(device, interface).Ok? ==>
                r == Commands(f, Read(device, interface).value.native.Some?)
      ensures !(f.mode == Access && |f.vlans| == 1) ==> r == Commands(f, false)
    {
      if f.mode != Access {
        r := BuildTrunkCommands(f);
        return;
      }
      if |f.vlans| > 1 {
        return Raised(MoreThanOneAccessVlan);
      }
      if |f.vlans| == 0 {
        return Raised(NoVlans);
      }
      var current := Read(device, interface);
      if current.Raised? {
        return Raised(current.error);
      }
      var commands: seq<Command> := [];
      if current.value.native.Some? {
        commands := commands + [DeleteNativeVlanId];
      }
      commands := commands + [DeleteVlanMembers, SetAccess(f.vlans[0].tag)];
      assert commands == AccessCommands(current.value.native.Some?, f.vlans[0].tag);
      return Ok(commands);
    }

    method BuildTrunkCommands(f: Flip) returns (r: Result<seq<Command>, DriverError>)
      requires f.mode != Access
      ensures r == Commands(f, false)
    {
      var vlansAllowed: seq<string> := [];
      var nativeVlan: Option<string> := None;
      for k := 0 to |f.vlans|
        invariant vlansAllowed == TagTexts(f.vlans[..k])
        invariant nativeVlan == LastNative(f.vlans[..k])
      {
        assert f.vlans[..k + 1][..k] == f.vlans[..k];
        vlansAllowed := vlansAllowed + [f.vlans[k].tag];
        if f.vlans[k].isNative {
          nativeVlan := Some(f.vlans[k].tag);
        }
      }
      assert f.vlans[..|f.vlans|] == f.vlans;
      if nativeVlan.None? || nativeVlan.value == "" {
        return Raised(NoNativeVlan);
      }
      return Ok([DeleteVlanMembers, SetTrunk(nativeVlan.value, vlansAllowed)]);
    }

    method UpdateSwitchPortVlansOnDevice(interface: string, f: Flip, commit: Fault) returns (e: Option<DriverError>)
      modifies this
      ensures (device, e) == Push(old(device), interface, f, commit)
    {
      var commands := BuildCommands(f, interface);
      if commands.Raised? {
        return Some(commands.error);
      }
      if interface !in device.ports {
        return Some(PushFailed);
      }
      if commit == Healthy || commit == LostAfter {
        device := WithPort(device, interface, ExecuteAll(Execute, device.ports[interface], commands.value));
      }
      return if commit == LostBefore || commit == LostAfter then Some(PushFailed) else None;
    }
  }

  // ----- the commands mean what was asked

  lemma {:induction false} NumeralsExpandToThemselves(members: seq<string>)
    requires forall m | m in members :: IsNumeral(m)
    ensures Collect(ValidatorMember, members) == Ok(members)
  {
    if members != [] {
      var n := |members| - 1;
      assert members[n] in members && forall m | m in members[..n] :: m in members;
      NumeralsExpandToThemselves(members[..n]);
      assert members == members[..n] + [members[n]];
    }
  }

  /** The port those commands make, whatever it was. */
  function Target(f: Flip): PortConfig
    requires Sendable(f)
  {
    if f.mode == Access then PortConfig(Access, None, [f.vlans[0].tag])
    else PortConfig(Trunk, LastNative(f.vlans), AddMembers([], TagTexts(f.vlans)))
  }

  lemma AccessState(p: PortConfig, tag: string)
    ensures ExecuteAll(Execute, p, AccessCommands(p.native.Some?, tag)) == PortConfig(Access, None, [tag])
  {
    var head: seq<Command> := if p.native.Some? then [DeleteNativeVlanId] else [];
    assert AddMembers([], [tag]) == [tag] by {
      assert [tag][1..] == [];
    }
    ExecuteTwo(Execute, p, DeleteNativeVlanId, DeleteVlanMembers);
    ExecuteSnoc(Execute, p, head, DeleteVlanMembers);
    ExecuteSnoc(Execute, p, head + [DeleteVlanMembers], SetAccess(tag));
    assert head + [DeleteVlanMembers] + [SetAccess(tag)] == head + [DeleteVlanMembers, SetAccess(tag)];
  }

  lemma TrunkState(p: PortConfig, native: string, tags: seq<string>)
    ensures ExecuteAll(Execute, p, [DeleteVlanMembers, SetTrunk(native, tags)])
            == PortConfig(Trunk, Some(native), AddMembers([], tags))
  {
    ExecuteTwo(Execute, p, DeleteVlanMembers, SetTrunk(native, tags));
  }

  /** From every prior state the commands make the same port, or none are sent. */
  lemma PushMakesTarget(d: Device, interface: string, f: Flip, commit: Fault)
    requires Read(d, interface).Ok? && (f.mode == Access || f.mode == Trunk)
    ensures var (d', e) := Push(d, interface, f, commit);
            if !Sendable(f) then d' == d && e.Some?
            else
              && d' == (if commit == Healthy || commit == LostAfter then WithPort(d, interface, Target(f)) else d)
              && e == (if commit == LostBefore || commit == LostAfter then Some(PushFailed) else None)
  {
    if Sendable(f) {
      if f.mode == Access {
        AccessState(d.ports[interface], f.vlans[0].tag);
      } else {
        TrunkState(d.ports[interface], LastNative(f.vlans).value, TagTexts(f.vlans));
      }
    }
  }

  /** On a port that cannot be read an access push with one VLAN ends by that exception and any other flip
      without commands by its own; a trunk push does not read, and fails only on a port that is not there. */
  lemma UnreadPushExactly(d: Device, interface: string, f: Flip, commit: Fault)
    requires Read(d, interface).Raised? && (f.mode == Access || f.mode == Trunk)
    ensures var (d', e) := Push(d, interface, f, commit);
            if !Sendable(f) then d' == d && e == Some(Commands(f, false).error)
            else if f.mode == Access then d' == d && e == Some(Read(d, interface).error)
            else if interface !in d.ports then d' == d && e == Some(PushFailed)
            else
              && d' == (if commit == Healthy || commit == LostAfter then WithPort(d, interface, Target(f)) else d)
              && e == (if commit == LostBefore || commit == LostAfter then Some(PushFailed) else None)
  {
    if f.mode == Trunk && Sendable(f) && interface in d.ports {
      TrunkState(d.ports[interface], LastNative(f.vlans).value, TagTexts(f.vlans));
    }
  }

  /** A port whose members are numbers and ranges that denote some VLAN, whose native VLAN is a number, and
      which as an access port has a single member. */
  predicate Regular(p: PortConfig) {
    && p.members != [] && AllPlain(p.members) && DenotesAll(p.members) != {}
    && (p.native.Some? ==> IsNumeral(p.native.value))
    && (p.mode == Access ==> |p.members| == 1)
  }

  /** Trunk ports listing canonical numbers and ranges are regular. */
  lemma CanonicalIsRegular(native: nat, ms: seq<Member>)
    requires Numbers(ms) != []
    ensures Regular(PortConfig(Trunk, Some(Decimal(native)), RenderAll(ms)))
    ensures DenotesAll(RenderAll(ms)) == set n | n in Numbers(ms) :: Tag(n)
  {
    RenderedDenotes(ms);
    assert Numbers(ms)[0] in Numbers(ms);
    assert Tag(Numbers(ms)[0]) in DenotesAll(RenderAll(ms));
  }

  lemma ReadsWhatItCarries(d: Device, interface: string)
    requires Read(d, interface).Ok? && Regular(d.ports[interface])
    ensures var data := Read(d, interface).value;
            WellShaped(data) && MembersRead(data) == d.ports[interface].members
                && data.native == d.ports[interface].native
  {
  }

  /** The target port carries exactly the requested VLANs. */
  lemma TargetIsRegular(f: Flip)
    requires Sendable(f) && Numerals(f.vlans) && (f.mode == Access || f.mode == Trunk)
    ensures Regular(Target(f)) && DenotesAll(Target(f).members) == Tags(Requested(f.vlans))
  {
    var members := Target(f).members;
    TargetMembers(f);
    NumeralsDenote(members);
    RequestedTexts(f.vlans);
    SameTextsSameTags(members, RequestedTags(f.vlans));
    assert Tag(ParseNat(members[0])) in TagsOf(members);
    if f.mode == Trunk {
      var v :| v in f.vlans && v.isNative && v.tag == LastNative(f.vlans).value;
    }
  }

  lemma TargetMembers(f: Flip)
    requires Sendable(f) && Numerals(f.vlans) && (f.mode == Access || f.mode == Trunk)
    ensures Target(f).members != [] && forall m | m in Target(f).members :: IsNumeral(m)
    ensures AsSet(Target(f).members) == AsSet(RequestedTags(f.vlans))
  {
    TagTextsAreNumerals(f.vlans);
    TagTextsAreRequested(f.vlans);
    var members, tags := Target(f).members, TagTexts(f.vlans);
    if f.mode == Access {
      assert tags == [f.vlans[0].tag];
    } else {
      assert AsSet(members) == AsSet(tags);
      assert tags[0] in AsSet(tags);
    }
    assert forall m | m in members :: m in AsSet(tags);
  }

  /** The comparison accepts it exactly when the first and the last VLAN marked native of a trunk request
      carry the same tag: the push keeps the last one, the comparison looks for the first. */
  lemma TargetAccepted(d: Device, interface: string, f: Flip)
    requires Sendable(f) && Numerals(f.vlans) && (f.mode == Access || f.mode == Trunk)
    requires interface in d.ports && d.ports[interface] == Target(f)
    ensures Read(d, interface).Ok? && Compare(f, Read(d, interface).value).Ok?
    ensures Compare(f, Read(d, interface).value) == Ok(true)
            <==> (f.mode == Trunk ==> FirstNative(f.vlans) == LastNative(f.vlans))
  {
    var members := Target(f).members;
    TargetMembers(f);
    NumeralsExpandToThemselves(members);
    if f.mode == Access {
      AccessAccepted(f, Read(d, interface).value);
    } else {
      TrunkAccepted(f, Read(d, interface).value);
    }
  }

  /** From every prior state that can be read, an access push gives a port with that one VLAN and no
      native VLAN, which reads back as requested; the rest of the switch is as before. */
  lemma AccessPushMeans(d: Device, interface: string, f: Flip)
    requires f.mode == Access && |f.vlans| == 1 && IsNumeral(f.vlans[0].tag)
    requires Read(d, interface).Ok?
    ensures var (d', e) := Push(d, interface, f, Healthy);
            && e == None && d' == WithPort(d, interface, PortConfig(Access, None, [f.vlans[0].tag]))
            && Read(d', interface).Ok? && Compare(f, Read(d', interface).value) == Ok(true)
            && DenotesAll(d'.ports[interface].members) == Tags(Requested(f.vlans))
  {
    PushMakesTarget(d, interface, f, Healthy);
    TargetIsRegular(f);
    TargetAccepted(Push(d, interface, f, Healthy).0, interface, f);
  }

  /** From every prior state a trunk push with a native VLAN gives a port that carries exactly the requested
      VLANs, and is accepted exactly when the first and the last VLAN marked native carry the same tag. */
  lemma TrunkPushMeans(d: Device, interface: string, f: Flip)
    requires f.mode == Trunk && Numerals(f.vlans) && LastNative(f.vlans).Some?
    requires Read(d, interface).Ok?
    ensures var (d', e) := Push(d, interface, f, Healthy);
            && e == None && d' == WithPort(d, interface, d'.ports[interface])
               && d'.ports[interface].native == LastNative(f.vlans)
            && Read(d', interface).Ok? && DenotesAll(d'.ports[interface].members) == Tags(Requested(f.vlans))
            && (Compare(f, Read(d', interface).value) == Ok(true) <==> FirstNative(f.vlans) == LastNative(f.vlans))
  {
    var v :| v in f.vlans && v.isNative && v.tag == LastNative(f.vlans).value;
    PushMakesTarget(d, interface, f, Healthy);
    TargetIsRegular(f);
    TargetAccepted(Push(d, interface, f, Healthy).0, interface, f);
  }

  /** One native VLAN is enough. */
  lemma {:induction false} SingleNative(vlans: seq<FlipVlan>, k: nat)
    requires k < |vlans| && forall j | 0 <= j < |vlans| :: vlans[j].isNative <==> j == k
    ensures FirstNative(vlans) == Some(vlans[k].tag) == LastNative(vlans)
  {
    assert vlans[k] in vlans;
    var first :| first in vlans && first.isNative && Some(first.tag) == FirstNative(vlans);
    var last :| last in vlans && last.isNative && Some(last.tag) == LastNative(vlans);
  }

  // ----- the whole update

  /** The connection during one update: whether the reads before and after the push succeed, and how the
      commit goes. */
  datatype Link = Link(firstRead: bool, commit: Fault, secondRead: bool)

  /** The driver the template runs with. */
  function JunosDriver(interface: string, link: Link): Driver<Device> {
    Driver(
      (d: Device) => None,
      (d: Device) => if link.firstRead then Read(d, interface) else Raised(ReadFailed),
      (d: Device, tags: seq<string>) => CheckTags(d, tags),
      (d: Device, f: Flip) => Push(d, interface, f, link.commit),
      (d: Device) => if link.secondRead then Read(d, interface) else Raised(ReadFailed))
  }

  /** The update asks for a push, has commands, and the commit takes effect. */
  predicate Applies(d: Device, interface: string, f: Flip, link: Link) {
    PreCheck(JunosDriver(interface, link), d, f) == Ok(true) && Sendable(f)
        && (link.commit == Healthy || link.commit == LostAfter)
  }

  /** The commit reports success, the port can be read again, and the comparison finds what it looks for. */
  predicate Confirmed(f: Flip, link: Link) {
    link.commit == Healthy && link.secondRead && (f.mode == Trunk ==> FirstNative(f.vlans) == LastNative(f.vlans))
  }

  /** What an update does, at every exit: the switch has the target port exactly when the push applies, and
      then the update returns exactly when that is confirmed; otherwise the switch is as before. */
  lemma UpdateExactly(d: Device, interface: string, f: Flip, link: Link)
    requires Numerals(f.vlans)
    ensures var (d', outcome) := Update(JunosDriver(interface, link), d, f);
            && d' == (if Applies(d, interface, f, link) then WithPort(d, interface, Target(f)) else d)
            && (outcome == Ok(Pushed) <==> Applies(d, interface, f, link) && Confirmed(f, link))
            && (outcome == Ok(NothingToDo) <==> PreCheck(JunosDriver(interface, link), d, f) == Ok(false))
  {
    if PreCheck(JunosDriver(interface, link), d, f) == Ok(true) {
      PushMakesTarget(d, interface, f, link.commit);
      if Applies(d, interface, f, link) {
        TargetAccepted(WithPort(d, interface, Target(f)), interface, f);
      }
    }
  }

  /** An update that raised has left the switch as it was if and only if it did not apply, or the port was
      already the one its commands make. */
  lemma RaisedLeavesSwitchExactly(d: Device, interface: string, f: Flip, link: Link)
    requires Numerals(f.vlans) && Update(JunosDriver(interface, link), d, f).1.Raised?
    ensures Update(JunosDriver(interface, link), d, f).0 == d
            <==> !Applies(d, interface, f, link) || d.ports[interface] == Target(f)
  {
    UpdateExactly(d, interface, f, link);
    if Applies(d, interface, f, link) {
      assert d.ports[interface := d.ports[interface]] == d.ports;
    }
  }

  /** An access port in VLAN 10 of a switch that also has VLAN 20. */
  function TenAccess(): Device {
    Device(map["ge-0/0/1" := PortConfig(Access, None, ["10"])], [DeviceVlan("20", false)])
  }

  function ToTwenty(): Flip {
    Flip(Access, [FlipVlan("20", false)])
  }

  lemma TwentyIsNeeded(link: Link)
    requires link.firstRead
    ensures Numerals(ToTwenty().vlans) && PreCheck(JunosDriver("ge-0/0/1", link), TenAccess(), ToTwenty()) == Ok(true)
  {
    var ten, twenty := "10", "20";
    assert IsNumeral(twenty) && ten[0] != twenty[0];
    var f := ToTwenty();
    assert f.vlans[..0] == [];
    assert RequestedTags(f.vlans) == [] + [twenty];
    assert TenAccess().vlans[0] in TenAccess().vlans;
    assert ten in AsSet([ten]) && ten !in AsSet([twenty]);
  }

  /** A commit that took effect before the connection was lost, and a port that cannot be read again, both
      raise with the port flipped. */
  lemma LostConnectionStrandsTheFlip(secondRead: bool)
    ensures var link := Link(true, if secondRead then LostAfter else Healthy, secondRead);
            var (d', outcome) := Update(JunosDriver("ge-0/0/1", link), TenAccess(), ToTwenty());
            outcome.Raised? && d' == WithPort(TenAccess(), "ge-0/0/1", PortConfig(Access, None, ["20"]))
  {
    var link := Link(true, if secondRead then LostAfter else Healthy, secondRead);
    TwentyIsNeeded(link);
    UpdateExactly(TenAccess(), "ge-0/0/1", ToTwenty(), link);
  }

  /** An update changes one port of the switch at most, and leaves a regular port regular. */
  lemma UpdateFrame(d: Device, interface: string, f: Flip, link: Link)
    requires Numerals(f.vlans)
    ensures var d' := Update(JunosDriver(interface, link), d, f).0;
            && (forall other | other in d.ports && other != interface ::
               other in d'.ports && d'.ports[other] == d.ports[other])
            && (interface in d.ports && Regular(d.ports[interface])
               ==> interface in d'.ports && Regular(d'.ports[interface]))
  {
    UpdateExactly(d, interface, f, link);
    if Applies(d, interface, f, link) {
      TargetIsRegular(f);
    }
  }

  /** The driver has no change tickets. */
  lemma NeverStops(d: Device, interface: string, f: Flip, link: Link)
    ensures Update(JunosDriver(interface, link), d, f).1 != Raised(ChangeStopActive)
  {
  }

  /** The Junos driver meets the conditions of idempotence. */
  lemma JunosPushLeavesTheRestAlone(interface: string, link: Link)
    ensures PushLeavesTheRestAlone(JunosDriver(interface, link))
    ensures link.firstRead ==> ReadsTheDevice(JunosDriver(interface, link))
  {
  }

  /** Every Junos read-back has the list form the comparison needs. */
  lemma JunosReadsAreWellShaped(d: Device, interface: string)
    requires Read(d, interface).Ok?
    ensures WellShaped(Read(d, interface).value)
  {
  }
}
