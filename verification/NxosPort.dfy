/** The NXOS driver's port commands and its whole update, on a switch that applies each command as it comes. */
module NxosPort {
  import opened Interpreter
  import opened Prelude
  import opened Text
  import opened VlanRange
  import opened SwitchPort

  /** A switch port; VLAN 1 is the default access and native VLAN. */
  datatype Port = Port(mode: Mode, access: nat, native: nat, allowed: set<nat>)

  /** The ports, and the VLANs with whether each is suspended. */
  datatype Device = Device(ports: map<string, Port>, vlans: map<nat, bool>)

  const ALL_VLANS: set<nat> := set n: nat | 1 <= n <= 4094

  datatype Command =
    | NoTrunkAllowedVlan
    | NoTrunkNativeVlan
    | AccessVlan(tag: string)
    | SwitchportModeAccess
    | NoSwitchportAccessVlan
    | SwitchportModeTrunk
    | TrunkNativeVlan(tag: string)
    | TrunkAllowedVlan(tags: seq<string>)

  function Values(tags: seq<string>): set<nat>
    requires forall t | t in tags :: IsNumeral(t)
  {
    set t | t in tags :: ParseNat(t)
  }

  /** `switchport trunk allowed vlan` replaces the allowed set; a tag that is no number is refused. */
  function Execute(p: Port, c: Command): Port {
    match c
    case NoTrunkAllowedVlan => p.(allowed := ALL_VLANS)
    case NoTrunkNativeVlan => p.(native := 1)
    case AccessVlan(tag) => if IsNumeral(tag) then p.(access := ParseNat(tag)) else p
    case SwitchportModeAccess => p.(mode := Access)
    case NoSwitchportAccessVlan => p.(access := 1)
    case SwitchportModeTrunk => p.(mode := Trunk)
    case TrunkNativeVlan(tag) => if IsNumeral(tag) then p.(native := ParseNat(tag)) else p
    case TrunkAllowedVlan(tags) => if forall t | t in tags :: IsNumeral(t) then p.(allowed := Values(tags)) else p
  }

  /** How the switch writes a set of VLANs: any list of numbers and ranges for it. */
  type Rendering = set<nat> -> seq<Member>

  ghost predicate Renders(render: Rendering) {
    forall s: set<nat> :: s == set n | n in Numbers(render(s))
  }

  /** `get_vlans_on_interface`: the one access VLAN as a text, or the split text of the allowed VLANs. */
  function ReadPort(p: Port, render: Rendering): VlanData {
    if p.mode == Access then VlanData(Access, Some(Decimal(p.native)), None, Some(TextForm(Decimal(p.access))))
    else VlanData(p.mode, Some(Decimal(p.native)),
        Some(if p.allowed == {} then ["none"] else RenderAll(render(p.allowed))), None)
  }

  function Read(d: Device, interface: string, render: Rendering): Result<VlanData, DriverError> {
    if interface in d.ports then Ok(ReadPort(d.ports[interface], render)) else Raised(InterfaceNotFound)
  }

  /** `_validate_vlan_tags` looks at the requested VLANs only, in order. */
  function CheckTags(d: Device, tags: seq<string>): Option<DriverError> {
    if tags == [] then None
    else if !IsNumeral(tags[0]) || ParseNat(tags[0]) !in d.vlans then Some(VlansNotOnDevice)
    else if d.vlans[ParseNat(tags[0])] then Some(VlanSuspended)
    else CheckTags(d, tags[1..])
  }

  method ValidateVlanTags(d: Device, tags: seq<string>) returns (e: Option<DriverError>)
    ensures e == CheckTags(d, tags)
  {
    for k := 0 to |tags|
      invariant CheckTags(d, tags) == CheckTags(d, tags[k..])
    {
      assert tags[k..][1..] == tags[k + 1..];
      if !IsNumeral(tags[k]) || ParseNat(tags[k]) !in d.vlans {
        return Some(VlansNotOnDevice);
      }
      if d.vlans[ParseNat(tags[k])] {
        return Some(VlanSuspended);
      }
    }
    return None;
  }

  /** It passes exactly when every requested VLAN exists and is not suspended. */
  lemma {:induction false} CheckTagsExactly(d: Device, tags: seq<string>)
    ensures CheckTags(d, tags) == None <==>
            forall t | t in tags :: IsNumeral(t) && ParseNat(t) in d.vlans && !d.vlans[ParseNat(t)]
  {
    if tags == [] {
      assert CheckTags(d, []) == None;
    } else {
      CheckTagsExactly(d, tags[1..]);
      assert tags == [tags[0]] + tags[1..];
    }
  }

  /** VLAN k is the first one asked for that is missing or suspended, and decides the exception. */
  lemma {:induction false} FirstBadTag(d: Device, tags: seq<string>, k: nat)
    requires k < |tags| && forall j | 0 <= j < k ::
             IsNumeral(tags[j]) && ParseNat(tags[j]) in d.vlans && !d.vlans[ParseNat(tags[j])]
    requires !IsNumeral(tags[k]) || ParseNat(tags[k]) !in d.vlans || d.vlans[ParseNat(tags[k])]
    ensures CheckTags(d, tags)
            == Some(if IsNumeral(tags[k]) && ParseNat(tags[k]) in d.vlans then VlanSuspended else VlansNotOnDevice)
  {
    if k > 0 {
      FirstBadTag(d, tags[1..], k - 1);
    }
  }

  // ----- the commands

  function AccessCommands(tag: string): seq<Command> {
    [NoTrunkAllowedVlan, NoTrunkNativeVlan, AccessVlan(tag), SwitchportModeAccess]
  }

  /** The trunk commands; `always` sets the native VLAN whatever the current one is. */
  function TrunkCommands(f: Flip, currentNative: Option<string>, always: bool): Result<seq<Command>, DriverError> {
    match LastNative(f.vlans)
    case None => Raised(NoNativeVlan)
    case Some(native) =>
      if native == "" then Raised(NoNativeVlan)
      else Ok([NoSwitchportAccessVlan, SwitchportModeTrunk]
              + (if always || currentNative != Some(native) then [TrunkNativeVlan(native)] else [])
              + [TrunkAllowedVlan(TagTexts(f.vlans))])
  }

  function Commands(f: Flip, currentNative: Option<string>): Result<seq<Command>, DriverError> {
    if f.mode == Access then
      if |f.vlans| > 1 then Raised(MoreThanOneAccessVlan)
      else if f.vlans == [] then Raised(NoVlans)
      else Ok(AccessCommands(f.vlans[0].tag))
    else TrunkCommands(f, currentNative, false)
  }

  /** The flips without commands, by exception: several VLANs or none for an access port, and no native VLAN, or
      one without a tag, for the others. */
  lemma CommandsExactly(f: Flip, currentNative: Option<string>)
    ensures Commands(f, currentNative).Ok? <==> Sendable(f)
    ensures !Sendable(f) ==>
              Commands(f, currentNative) == Raised(if f.mode != Access then NoNativeVlan
                                           else if f.vlans == [] then NoVlans
                                           else MoreThanOneAccessVlan)
  {
  }

  /** The trunk branch of `update_switch_port_vlans_on_device`, building its command list. */
  method BuildTrunkCommands(f: Flip, currentNative: Option<string>) returns (r: Result<seq<Command>, DriverError>)
    ensures r == TrunkCommands(f, currentNative, false)
  {
    var commands: seq<Command> := [];
    var vlansAllowed: seq<string> := [];
    var nativeVlan: Option<string> := None;
    for k := 0 to |f.vlans|
      invariant vlansAllowed == TagTexts(f.vlans[..k])
      invariant nativeVlan == LastNative(f.vlans[..k])
    {
      assert f.vlans[..k + 1][..k] == f.vlans[..k];
      vlansAllowed := vlansAllowed + [f.vlans[k].tag];
      if f.vlans[k].isNative {
        nativeVlan := Some(f.vlans[k].tag);
      }
    }
    assert f.vlans[..|f.vlans|] == f.vlans;
    if nativeVlan.None? || nativeVlan.value == "" {
      return Raised(NoNativeVlan);
    }
    commands := commands + [NoSwitchportAccessVlan];
    commands := commands + [SwitchportModeTrunk];
    if currentNative != nativeVlan {
      commands := commands + [TrunkNativeVlan(nativeVlan.value)];
    }
    commands := commands + [TrunkAllowedVlan(vlansAllowed)];
    ghost var middle: seq<Command> := if currentNative != nativeVlan then [TrunkNativeVlan(nativeVlan.value)] else [];
    assert commands == [NoSwitchportAccessVlan, SwitchportModeTrunk] + middle + [TrunkAllowedVlan(vlansAllowed)];
    return Ok(commands);
  }

  /** The command list for a port with the given native VLAN. */
  method BuildCommands(f: Flip, currentNative: Option<string>) returns (r: Result<seq<Command>, DriverError>)
    ensures r == Commands(f, currentNative)
  {
    if f.mode != Access {
      r := BuildTrunkCommands(f, currentNative);
      return;
    }
    if |f.vlans| > 1 {
      return Raised(MoreThanOneAccessVlan);
    }
    if |f.vlans| == 0 {
      return Raised(NoVlans);
    }
    var commands: seq<Command> := [];
    commands := commands + [NoTrunkAllowedVlan];
    commands := commands + [NoTrunkNativeVlan];
    commands := commands + [AccessVlan(f.vlans[0].tag)];
    commands := commands + [SwitchportModeAccess];
    assert commands == AccessCommands(f.vlans[0].tag);
    return Ok(commands);
  }

  lemma AccessState(p: Port, tag: string)
    requires IsNumeral(tag)
    ensures ExecuteAll(Execute, p, AccessCommands(tag)) == Port(Access, ParseNat(tag), 1, ALL_VLANS)
  {
    var first, second, third: Command := NoTrunkAllowedVlan, NoTrunkNativeVlan, AccessVlan(tag);
    ExecuteTwo(Execute, p, first, second);
    ExecuteSnoc(Execute, p, [first, second], third);
    ExecuteSnoc(Execute, p, [first, second] + [third], SwitchportModeAccess);
    assert [first, second] + [third] + [SwitchportModeAccess] == AccessCommands(tag);
  }

  lemma TrunkHeadState(p: Port, middle: seq<Command>, last: Command)
    requires middle == [] || exists c :: middle == [c]
    ensures var port := p.(access := 1, mode := Trunk);
            ExecuteAll(Execute, p, [NoSwitchportAccessVlan, SwitchportModeTrunk] + middle + [last])
            == Execute(if middle == [] then port else Execute(port, middle[0]), last)
  {
    var head: seq<Command> := [NoSwitchportAccessVlan, SwitchportModeTrunk];
    ExecuteTwo(Execute, p, NoSwitchportAccessVlan, SwitchportModeTrunk);
    if middle == [] {
      assert head + middle == head;
    } else {
      ExecuteSnoc(Execute, p, head, middle[0]);
    }
    ExecuteSnoc(Execute, p, head + middle, last);
  }

  lemma TrunkState(p: Port, f: Flip, currentNative: Option<string>, always: bool)
    requires TrunkCommands(f, currentNative, always).Ok? && Numerals(f.vlans)
    requires currentNative == Some(Decimal(p.native))
    ensures ExecuteAll(Execute, p, TrunkCommands(f, currentNative, always).value)
            == Port(Trunk, 1, ParseNat(LastNative(f.vlans).value), Requested(f.vlans))
  {
    var native := LastNative(f.vlans).value;
    var middle: seq<Command> := if always || currentNative != Some(native) then [TrunkNativeVlan(native)] else [];
    TrunkHeadState(p, middle, TrunkAllowedVlan(TagTexts(f.vlans)));
    if middle == [] {
      ParseDecimal(p.native);
    }
    ValuesAreRequested(f.vlans);
  }

  lemma ValuesAreRequested(vlans: seq<FlipVlan>)
    requires Numerals(vlans)
    ensures forall t | t in TagTexts(vlans) :: IsNumeral(t)
    ensures Values(TagTexts(vlans)) == Requested(vlans)
  {
    TagTextsAreNumerals(vlans);
    var tags := TagTexts(vlans);
    forall n
      ensures n in Values(tags) <==> n in Requested(vlans)
    {
      if n in Values(tags) {
        var t :| t in tags && ParseNat(t) == n;
        var k :| 0 <= k < |tags| && tags[k] == t;
        assert vlans[k] in vlans;
      }
      if n in Requested(vlans) {
        var v :| v in vlans && IsNumeral(v.tag) && ParseNat(v.tag) == n;
        var k :| 0 <= k < |vlans| && vlans[k] == v;
        assert tags[k] in tags;
      }
    }
  }

  /** Setting the native VLAN only if it differs reaches the state that always setting it does. */
  lemma ConditionalNativeIsAlwaysNative(p: Port, f: Flip)
    requires Numerals(f.vlans) && TrunkCommands(f, Some(Decimal(p.native)), true).Ok?
    ensures ExecuteAll(Execute, p, TrunkCommands(f, Some(Decimal(p.native)), false).value)
            == ExecuteAll(Execute, p, TrunkCommands(f, Some(Decimal(p.native)), true).value)
  {
    TrunkState(p, f, Some(Decimal(p.native)), false);
    TrunkState(p, f, Some(Decimal(p.native)), true);
  }

  // ----- what the comparison makes of a port

  /** The port reads back with exactly its allowed VLANs, however the switch renders them, unless it has none. */
  lemma TrunkReadBack(p: Port, render: Rendering)
    requires p.mode == Trunk && p.allowed != {} && Renders(render)
    ensures ExpandedTrunk(ReadPort(p, render)).Ok? && ExpandedTrunk(ReadPort(p, render)).value != []
    ensures AsSet(ExpandedTrunk(ReadPort(p, render)).value) == set n | n in p.allowed :: Decimal(n)
    ensures Carried(ReadPort(p, render)) == Tags(p.allowed)
  {
    var members := render(p.allowed);
    var n :| n in p.allowed;
    assert n in Numbers(members);
    ExpandersAgree(members);
    RenderedDenotes(members);
    DecimalTexts(Numbers(members));
    assert Decimal(n) in AsSet(Decimals(Numbers(members)));
  }

  lemma DecimalTexts(numbers: seq<nat>)
    ensures AsSet(Decimals(numbers)) == set n | n in numbers :: Decimal(n)
  {
    forall n | n in numbers
      ensures Decimal(n) in Decimals(numbers)
    {
      var k :| 0 <= k < |numbers| && numbers[k] == n;
      assert Decimals(numbers)[k] == Decimal(n);
    }
    forall x | x in Decimals(numbers)
      ensures exists n | n in numbers :: Decimal(n) == x
    {
      var k :| 0 <= k < |numbers| && Decimals(numbers)[k] == x;
      assert numbers[k] in numbers;
    }
  }

  /** The tags are written without leading zeros, as the switch writes them. */
  predicate CanonicalTags(vlans: seq<FlipVlan>)
    requires Numerals(vlans)
  {
    forall v | v in vlans :: v.tag == Decimal(ParseNat(v.tag))
  }

  /** The texts asked for are the ones the switch shows for their numbers exactly if they are canonical. */
  lemma CanonicalExactly(vlans: seq<FlipVlan>)
    requires Numerals(vlans)
    ensures AsSet(RequestedTags(vlans)) == (set n | n in Requested(vlans) :: Decimal(n)) <==> CanonicalTags(vlans)
  {
    var shown := set n | n in Requested(vlans) :: Decimal(n);
    forall v | v in vlans
      ensures ParseNat(v.tag) in Requested(vlans) && v.tag in AsSet(RequestedTags(vlans))
      ensures v.tag in shown ==> v.tag == Decimal(ParseNat(v.tag))
    {
      ShownIsCanonical(v.tag, Requested(vlans));
    }
  }

  lemma ShownIsCanonical(tag: string, numbers: set<nat>)
    requires IsNumeral(tag)
    ensures tag in (set n | n in numbers :: Decimal(n)) ==> tag == Decimal(ParseNat(tag))
  {
    forall n: nat | tag == Decimal(n)
      ensures ParseNat(tag) == n
    {
      ParseDecimal(n);
    }
  }

  lemma DecimalsDiffer(some: set<nat>, others: set<nat>)
    ensures (set n | n in some :: Decimal(n)) == (set n | n in others :: Decimal(n)) ==> some == others
  {
    var shown, asked := set n | n in some :: Decimal(n), set n | n in others :: Decimal(n);
    forall n: nat
      ensures n in some <==> Decimal(n) in shown
      ensures n in others <==> Decimal(n) in asked
    {
      forall m: nat | Decimal(m) == Decimal(n)
        ensures m == n
      {
        ParseDecimal(m);
        ParseDecimal(n);
      }
    }
  }

  /** The texts shown for the VLANs allowed are those asked for exactly if the VLANs are, canonically. */
  lemma AllowedAreRequested(allowed: set<nat>, vlans: seq<FlipVlan>)
    requires Numerals(vlans)
    ensures (set n | n in allowed :: Decimal(n)) == AsSet(RequestedTags(vlans))
            <==> allowed == Requested(vlans) && CanonicalTags(vlans)
  {
    CanonicalExactly(vlans);
    if (set n | n in allowed :: Decimal(n)) == AsSet(RequestedTags(vlans)) {
      ShownAreCanonical(allowed, vlans);
      DecimalsDiffer(allowed, Requested(vlans));
    }
  }

  lemma ShownAreCanonical(allowed: set<nat>, vlans: seq<FlipVlan>)
    requires Numerals(vlans) && AsSet(RequestedTags(vlans)) == set n | n in allowed :: Decimal(n)
    ensures CanonicalTags(vlans)
  {
    forall v | v in vlans
      ensures v.tag == Decimal(ParseNat(v.tag))
    {
      assert v.tag in AsSet(RequestedTags(vlans));
      ShownIsCanonical(v.tag, allowed);
    }
  }

  lemma NoneIsNoDecimal(n: nat)
    ensures Decimal(n) != "None"
  {
    ParseDecimal(n);
    assert !IsDigit("None"[0]);
  }

  /** What the comparison takes for the port asked for. */
  predicate InPlace(p: Port, f: Flip)
    requires Numerals(f.vlans)
  {
    if f.mode == Access then
      p.mode == Access && AccessSet(TextForm(Decimal(p.access))) == AsSet(RequestedTags(f.vlans))
    else
      && p.mode == Trunk && FirstNative(f.vlans) == Some(Decimal(p.native))
      && (p.allowed == {} || (p.allowed == Requested(f.vlans) && CanonicalTags(f.vlans)))
  }

  lemma ListedVlansExpand(p: Port, render: Rendering)
    requires p.mode != Access
    ensures ExpandedTrunk(ReadPort(p, render)).Ok?
    ensures p.allowed == {} ==> ExpandedTrunk(ReadPort(p, render)).value == []
  {
    if p.allowed == {} {
      NoneIsAName();
      assert ["none"][..0] == [];
      assert Collect(ValidatorMember, ["none"]) == Ok([] + []);
    } else {
      ExpandersAgree(render(p.allowed));
    }
  }

  /** It accepts a trunk port exactly when its native VLAN is the first one marked native, and it allows no
      VLAN at all or exactly the requested ones, asked for by canonical texts; an access port exactly when
      the characters of the VLAN shown are the tags. */
  lemma ComparedInPlace(p: Port, f: Flip, render: Rendering)
    requires (f.mode == Access || f.mode == Trunk) && Numerals(f.vlans) && Renders(render)
    ensures Compare(f, ReadPort(p, render)) == Ok(InPlace(p, f))
  {
    NoneIsNoDecimal(p.native);
    if p.mode == Access {
      ParseDecimal(p.access);
      assert ExpandedTrunk(ReadPort(p, render)) == Ok([]);
    } else {
      ListedVlansExpand(p, render);
      if f.mode == Trunk && p.mode == Trunk && p.allowed != {} {
        TrunkReadBack(p, render);
        AllowedAreRequested(p.allowed, f.vlans);
      }
    }
  }

  predicate Repeats(shown: string, tag: string) {
    |tag| == 1 && forall i | 0 <= i < |shown| :: shown[i] == tag[0]
  }

  /** Of one VLAN, an access port is taken to have it exactly when the VLAN shown repeats its one digit. */
  lemma AccessInPlace(p: Port, v: FlipVlan)
    requires IsNumeral(v.tag)
    ensures InPlace(p, Flip(Access, [v])) <==> p.mode == Access && Repeats(Decimal(p.access), v.tag)
  {
    ParseDecimal(p.access);
    TextFormAcceptsRepeatedDigits(v, Some(Decimal(p.native)), Decimal(p.access));
  }

  lemma OneDigitRepeats(tag: string)
    requires IsNumeral(tag)
    ensures Repeats(Decimal(ParseNat(tag)), tag) <==> |tag| == 1
  {
    if |tag| == 1 {
      assert tag[..0] == "";
    }
  }

  /** From every prior port the trunk commands give one that carries exactly the requested VLANs. It is
      accepted exactly when the tags are canonical and the first and the last VLAN marked native carry the
      same one. */
  lemma TrunkCommandsMean(p: Port, p': Port, f: Flip, render: Rendering)
    requires f.mode == Trunk && Numerals(f.vlans) && TrunkCommands(f, Some(Decimal(p.native)), false).Ok?
    requires p' == ExecuteAll(Execute, p, TrunkCommands(f, Some(Decimal(p.native)), false).value) && Renders(render)
    ensures p'.allowed == Requested(f.vlans) != {} && Carried(ReadPort(p', render)) == Tags(Requested(f.vlans))
    ensures Compare(f, ReadPort(p', render))
            == Ok(CanonicalTags(f.vlans) && FirstNative(f.vlans) == LastNative(f.vlans))
  {
    TrunkState(p, f, Some(Decimal(p.native)), false);
    var v :| v in f.vlans && v.isNative && v.tag == LastNative(f.vlans).value;
    assert ParseNat(v.tag) in Requested(f.vlans);
    TrunkReadBack(p', render);
    ComparedInPlace(p', f, render);
    ShownIsCanonical(v.tag, Requested(f.vlans));
  }

  // ----- the whole update

  /** The connection during one update: whether the reads succeed, and after how many port commands it is
      lost, if it is. There is no transaction: the commands sent so far stay. */
  datatype Link = Link(firstRead: bool, lostAfter: Option<nat>, secondRead: bool)

  function Sent(commands: seq<Command>, lostAfter: Option<nat>): seq<Command> {
    if lostAfter.Some? && lostAfter.value < |commands| then commands[..lostAfter.value] else commands
  }

  function WithPort(d: Device, interface: string, p: Port): Device {
    d.(ports := d.ports[interface := p])
  }

  function Push(d: Device, interface: string, f: Flip, lostAfter: Option<nat>): (Device, Option<DriverError>) {
    if interface !in d.ports then (d, Some(InterfaceNotFound))
    else
      match Commands(f, Some(Decimal(d.ports[interface].native)))
      case Raised(e) => (d, Some(e))
      case Ok(commands) =>
        (WithPort(d, interface, ExecuteAll(Execute, d.ports[interface], Sent(commands, lostAfter))), Lost(lostAfter))
  }

  function Lost(lostAfter: Option<nat>): Option<DriverError> {
    if lostAfter.Some? then Some(PushFailed) else None
  }

  function NxosDriver(interface: string, render: Rendering, link: Link): Driver<Device> {
    Driver(
      (d: Device) => None,
      (d: Device) => if link.firstRead then Read(d, interface, render) else Raised(ReadFailed),
      (d: Device, tags: seq<string>) => CheckTags(d, tags),
      (d: Device, f: Flip) => Push(d, interface, f, link.lostAfter),
      (d: Device) => if link.secondRead then Read(d, interface, render) else Raised(ReadFailed))
  }

  /** The port that all of its commands make, whatever it was. */
  function Target(f: Flip): Port
    requires Sendable(f) && Numerals(f.vlans)
  {
    if f.mode == Access then Port(Access, ParseNat(f.vlans[0].tag), 1, ALL_VLANS)
    else Port(Trunk, 1, ParseNat(LastNative(f.vlans).value), Requested(f.vlans))
  }

  /** The port after a push that sent all commands, or those before the loss. */
  function PushedPort(p: Port, f: Flip, lostAfter: Option<nat>): Port
    requires Sendable(f)
  {
    ExecuteAll(Execute, p, Sent(Commands(f, Some(Decimal(p.native))).value, lostAfter))
  }

  lemma OneMoreSent(p: Port, commands: seq<Command>, sent: nat)
    requires sent < |commands|
    ensures ExecuteAll(Execute, p, commands[..sent + 1])
            == Execute(ExecuteAll(Execute, p, commands[..sent]), commands[sent])
  {
    assert commands[..sent + 1] == commands[..sent] + [commands[sent]];
    ExecuteSnoc(Execute, p, commands[..sent], commands[sent]);
  }

  lemma {:induction false} AccessSent(p: Port, tag: string, sent: nat)
    requires IsNumeral(tag) && sent <= 4
    ensures ExecuteAll(Execute, p, AccessCommands(tag)[..sent])
            == Port(if sent < 4 then p.mode else Access, if sent < 3 then p.access else ParseNat(tag),
                    if sent < 2 then p.native else 1, if sent < 1 then p.allowed else ALL_VLANS)
  {
    if sent > 0 {
      AccessSent(p, tag, sent - 1);
      OneMoreSent(p, AccessCommands(tag), sent - 1);
    }
  }

  /** The port after an access push that lost the connection after so many commands: the trunk settings go
      first, then the VLAN comes, and the mode last. */
  lemma LostAccessExactly(p: Port, f: Flip, sent: nat)
    requires f.mode == Access && Sendable(f) && Numerals(f.vlans)
    ensures PushedPort(p, f, Some(sent))
            == Port(if sent < 4 then p.mode else Access, if sent < 3 then p.access else ParseNat(f.vlans[0].tag),
                    if sent < 2 then p.native else 1, if sent < 1 then p.allowed else ALL_VLANS)
  {
    var commands := AccessCommands(f.vlans[0].tag);
    assert commands[..4] == commands;
    AccessSent(p, f.vlans[0].tag, if sent < 4 then sent else 4);
  }

  lemma {:induction false} TrunkSent(p: Port, f: Flip, sent: nat)
    requires f.mode == Trunk && Sendable(f) && Numerals(f.vlans)
    requires sent <= |TrunkCommands(f, Some(Decimal(p.native)), false).value|
    ensures var commands := TrunkCommands(f, Some(Decimal(p.native)), false).value;
            ExecuteAll(Execute, p, commands[..sent])
            == Port(if sent < 2 then p.mode else Trunk, if sent < 1 then p.access else 1,
                    if sent < 3 then p.native else ParseNat(LastNative(f.vlans).value),
                    if sent < |commands| then p.allowed else Requested(f.vlans))
  {
    if sent > 0 {
      TrunkSent(p, f, sent - 1);
      OneMoreSent(p, TrunkCommands(f, Some(Decimal(p.native)), false).value, sent - 1);
      ParseDecimal(p.native);
      ValuesAreRequested(f.vlans);
    }
  }

  /** And after a trunk push: the access VLAN goes first, then mode, native VLAN if it differs, and the VLANs
      allowed come in this order. */
  lemma LostTrunkExactly(p: Port, f: Flip, sent: nat)
    requires f.mode == Trunk && Sendable(f) && Numerals(f.vlans)
    ensures var all := if LastNative(f.vlans) == Some(Decimal(p.native)) then 3 else 4;
            PushedPort(p, f, Some(sent))
            == Port(if sent < 2 then p.mode else Trunk, if sent < 1 then p.access else 1,
                    if sent < 3 then p.native else ParseNat(LastNative(f.vlans).value),
                    if sent < all then p.allowed else Requested(f.vlans))
  {
    TrunkCount(p, f);
    TrunkSent(p, f, SentOf(p, f, sent));
    SentIsPrefix(p, f, sent);
  }

  function SentOf(p: Port, f: Flip, sent: nat): nat
    requires f.mode == Trunk && Sendable(f)
  {
    var commands := TrunkCommands(f, Some(Decimal(p.native)), false).value;
    if sent < |commands| then sent else |commands|
  }

  lemma SentIsPrefix(p: Port, f: Flip, sent: nat)
    requires f.mode == Trunk && Sendable(f)
    ensures PushedPort(p, f, Some(sent))
            == ExecuteAll(Execute, p, TrunkCommands(f, Some(Decimal(p.native)), false).value[..SentOf(p, f, sent)])
  {
    var commands := TrunkCommands(f, Some(Decimal(p.native)), false).value;
    assert commands[..|commands|] == commands;
  }

  lemma TrunkCount(p: Port, f: Flip)
    requires f.mode == Trunk && Sendable(f)
    ensures |TrunkCommands(f, Some(Decimal(p.native)), false).value|
            == if LastNative(f.vlans) == Some(Decimal(p.native)) then 3 else 4
  {
  }

  lemma PushedIsTarget(p: Port, f: Flip)
    requires Sendable(f) && Numerals(f.vlans)
    ensures PushedPort(p, f, None) == Target(f)
  {
    if f.mode == Access {
      AccessState(p, f.vlans[0].tag);
    } else {
      TrunkState(p, f, Some(Decimal(p.native)), false);
    }
  }

  /** The comparison finds in the target port what it looks for: in an access port, one-digit tags only. */
  predicate Accepted(f: Flip)
    requires Sendable(f) && Numerals(f.vlans)
  {
    if f.mode == Access then |f.vlans[0].tag| == 1
    else CanonicalTags(f.vlans) && FirstNative(f.vlans) == LastNative(f.vlans)
  }

  lemma TargetCompared(f: Flip, render: Rendering)
    requires Sendable(f) && Numerals(f.vlans) && (f.mode == Access || f.mode == Trunk) && Renders(render)
    ensures Compare(f, ReadPort(Target(f), render)) == Ok(Accepted(f))
  {
    ComparedInPlace(Target(f), f, render);
    if f.mode == Access {
      assert f == Flip(Access, [f.vlans[0]]);
      AccessInPlace(Target(f), f.vlans[0]);
      OneDigitRepeats(f.vlans[0].tag);
    } else {
      var v :| v in f.vlans && v.isNative && v.tag == LastNative(f.vlans).value;
      assert ParseNat(v.tag) in Requested(f.vlans);
      ParseDecimal(ParseNat(v.tag));
    }
  }

  /** The update asks for a push and has commands. */
  predicate Applies(d: Device, interface: string, f: Flip, render: Rendering, link: Link) {
    PreCheck(NxosDriver(interface, render, link), d, f) == Ok(true) && Sendable(f)
  }

  /** All commands are sent, the port can be read again, and the comparison finds what it looks for. */
  predicate Confirmed(f: Flip, link: Link)
    requires Sendable(f) && Numerals(f.vlans)
  {
    link.lostAfter.None? && link.secondRead && Accepted(f)
  }

  /** Only a port the switch has passes the check before the push. */
  lemma CheckedPortExists(d: Device, interface: string, f: Flip, render: Rendering, link: Link)
    requires PreCheck(NxosDriver(interface, render, link), d, f).Ok?
    ensures interface in d.ports && (f.mode == Access || f.mode == Trunk)
    ensures Compare(f, ReadPort(d.ports[interface], render)).Ok?
    ensures PreCheck(NxosDriver(interface, render, link), d, f).value
            == !Compare(f, ReadPort(d.ports[interface], render)).value
  {
  }

  lemma PushIs(d: Device, interface: string, f: Flip, lostAfter: Option<nat>)
    requires interface in d.ports
    ensures Sendable(f) ==>
              Push(d, interface, f, lostAfter)
              == (WithPort(d, interface, PushedPort(d.ports[interface], f, lostAfter)), Lost(lostAfter))
    ensures !Sendable(f) ==> Push(d, interface, f, lostAfter).0 == d && Push(d, interface, f, lostAfter).1.Some?
  {
  }

  /** A push to a port that is not there raises. */
  lemma MissingPort(d: Device, interface: string, f: Flip, lostAfter: Option<nat>)
    requires interface !in d.ports
    ensures Push(d, interface, f, lostAfter) == (d, Some(InterfaceNotFound))
  {
  }

  lemma PostCheckExactly(d: Device, interface: string, f: Flip, render: Rendering, link: Link)
    requires interface in d.ports && Compare(f, ReadPort(d.ports[interface], render)).Ok?
    ensures PostCheck(NxosDriver(interface, render, link), d, f) == None
            <==> link.secondRead && Compare(f, ReadPort(d.ports[interface], render)).value
  {
  }

  /** A flip that asks for a push, has its commands, and loses or keeps the connection. */
  lemma AppliedExactly(d: Device, interface: string, f: Flip, render: Rendering, link: Link)
    requires Numerals(f.vlans) && Renders(render) && Applies(d, interface, f, render, link)
    ensures interface in d.ports
    ensures var (d', outcome) := Update(NxosDriver(interface, render, link), d, f);
            && d' == WithPort(d, interface, PushedPort(d.ports[interface], f, link.lostAfter))
            && (outcome.Ok? <==> Confirmed(f, link))
  {
    CheckedPortExists(d, interface, f, render, link);
    var dr, d' := NxosDriver(interface, render, link),
                  WithPort(d, interface, PushedPort(d.ports[interface], f, link.lostAfter));
    PushIs(d, interface, f, link.lostAfter);
    NeededUpdate(dr, d, f, d', Lost(link.lostAfter));
    if link.lostAfter.None? {
      PushedIsTarget(d.ports[interface], f);
      TargetCompared(f, render);
      PostCheckExactly(d', interface, f, render, link);
    }
  }

  lemma UnsendableRaises(d: Device, interface: string, f: Flip, render: Rendering, link: Link)
    requires PreCheck(NxosDriver(interface, render, link), d, f) == Ok(true) && !Sendable(f)
    ensures var (d', outcome) := Update(NxosDriver(interface, render, link), d, f); d' == d && outcome.Raised?
  {
    CheckedPortExists(d, interface, f, render, link);
    PushIs(d, interface, f, link.lostAfter);
  }

  /** What an update does, at every exit, for every request by numbers. A flip that applies leaves the port
      its commands make, or those sent before the loss, whether it returns or raises, and returns exactly when
      that is confirmed; otherwise the switch is as before, and the update returns exactly when the port was
      accepted as it is. */
  lemma UpdateExactly(d: Device, interface: string, f: Flip, render: Rendering, link: Link)
    requires Numerals(f.vlans) && Renders(render)
    ensures var dr := NxosDriver(interface, render, link);
            var (d', outcome) := Update(dr, d, f);
            if Applies(d, interface, f, render, link) then
              && interface in d.ports
              && d' == WithPort(d, interface, PushedPort(d.ports[interface], f, link.lostAfter))
              && (link.lostAfter.None? ==> d'.ports[interface] == Target(f))
              && (outcome.Ok? <==> Confirmed(f, link))
            else d' == d && (outcome.Ok? <==> PreCheck(dr, d, f) == Ok(false))
  {
    if Applies(d, interface, f, render, link) {
      AppliedExactly(d, interface, f, render, link);
      PushedIsTarget(d.ports[interface], f);
    } else if PreCheck(NxosDriver(interface, render, link), d, f) == Ok(true) {
      UnsendableRaises(d, interface, f, render, link);
    }
  }

  lemma {:induction false} CheckTagsErrors(d: Device, tags: seq<string>)
    ensures CheckTags(d, tags) != Some(ChangeStopActive)
  {
    if tags != [] {
      CheckTagsErrors(d, tags[1..]);
    }
  }

  lemma PushErrors(d: Device, interface: string, f: Flip, lostAfter: Option<nat>)
    ensures Push(d, interface, f, lostAfter).1 != Some(ChangeStopActive)
  {
  }

  lemma CompareErrors(f: Flip, data: VlanData)
    ensures Compare(f, data) != Raised(ChangeStopActive)
  {
  }

  lemma BeforePushNeverStops(d: Device, interface: string, f: Flip, render: Rendering, link: Link)
    ensures PreCheck(NxosDriver(interface, render, link), d, f) != Raised(ChangeStopActive)
  {
    CheckTagsErrors(d, RequestedTags(f.vlans));
    if interface in d.ports {
      CompareErrors(f, ReadPort(d.ports[interface], render));
    }
  }

  lemma AfterPushNeverStops(d: Device, interface: string, f: Flip, render: Rendering, link: Link)
    ensures PostCheck(NxosDriver(interface, render, link), d, f) != Some(ChangeStopActive)
  {
    if interface in d.ports {
      CompareErrors(f, ReadPort(d.ports[interface], render));
    }
  }

  /** The driver has no change tickets. */
  lemma NeverStops(d: Device, interface: string, f: Flip, render: Rendering, link: Link)
    ensures Update(NxosDriver(interface, render, link), d, f).1 != Raised(ChangeStopActive)
  {
    BeforePushNeverStops(d, interface, f, render, link);
    PushErrors(d, interface, f, link.lostAfter);
    AfterPushNeverStops(Push(d, interface, f, link.lostAfter).0, interface, f, render, link);
  }

  /** For a trunk: one pushed without loss carries exactly the requested VLANs and the last native one, and
      the update returns exactly when the port can be read again, the tags are canonical, and the first native
      tag is the last. So a tag with a leading zero or a second native tag leaves the port flipped and raises. */
  lemma TrunkUpdateExactly(d: Device, interface: string, f: Flip, render: Rendering, link: Link)
    requires f.mode == Trunk && Numerals(f.vlans) && Renders(render)
    ensures var dr := NxosDriver(interface, render, link);
            var (d', outcome) := Update(dr, d, f);
            if PreCheck(dr, d, f) == Ok(true) && LastNative(f.vlans).Some? then
              && interface in d.ports && Sendable(f)
              && d' == WithPort(d, interface, PushedPort(d.ports[interface], f, link.lostAfter))
              && (link.lostAfter.None? ==>
                    d'.ports[interface] == Port(Trunk, 1, ParseNat(LastNative(f.vlans).value), Requested(f.vlans)))
              && (outcome.Ok? <==> link.lostAfter.None? && link.secondRead
                                   && CanonicalTags(f.vlans) && FirstNative(f.vlans) == LastNative(f.vlans))
            else d' == d && (outcome.Ok? <==> PreCheck(dr, d, f) == Ok(false))
  {
    if LastNative(f.vlans).Some? {
      var v :| v in f.vlans && v.isNative && v.tag == LastNative(f.vlans).value;
    }
    UpdateExactly(d, interface, f, render, link);
  }

  /** An access update, from every prior port and over every link: one pushed without loss leaves the port
      flipped, and the update returns exactly when the tag moreover has one digit and the port can be read
      again. With two digits or more none returns. */
  lemma AccessUpdateExactly(d: Device, interface: string, f: Flip, render: Rendering, link: Link)
    requires f.mode == Access && Numerals(f.vlans) && Renders(render)
    ensures var dr := NxosDriver(interface, render, link);
            var (d', outcome) := Update(dr, d, f);
            if PreCheck(dr, d, f) == Ok(true) && |f.vlans| == 1 then
              && interface in d.ports
              && d' == WithPort(d, interface, PushedPort(d.ports[interface], f, link.lostAfter))
              && (link.lostAfter.None? ==>
                    d'.ports[interface] == Port(Access, ParseNat(f.vlans[0].tag), 1, ALL_VLANS))
              && (outcome.Ok? <==> link.lostAfter.None? && link.secondRead && |f.vlans[0].tag| == 1)
            else d' == d && (outcome.Ok? <==> PreCheck(dr, d, f) == Ok(false))
  {
    UpdateExactly(d, interface, f, render, link);
  }

  // ----- when a push is needed

  /** The check before the push, at every exit: a failed read, an unknown interface and the VLANs of the
      switch raise; then a push is needed exactly when the port is not taken for the one asked for. */
  lemma PreCheckExactly(d: Device, interface: string, f: Flip, render: Rendering, link: Link)
    requires (f.mode == Access || f.mode == Trunk) && Numerals(f.vlans) && Renders(render)
    ensures PreCheck(NxosDriver(interface, render, link), d, f)
            == if !link.firstRead then Raised(ReadFailed)
               else if interface !in d.ports then Raised(InterfaceNotFound)
               else
                 match CheckTags(d, RequestedTags(f.vlans))
                 case Some(e) => Raised(e)
                 case None => Ok(!InPlace(d.ports[interface], f))
  {
    if interface in d.ports {
      ComparedInPlace(d.ports[interface], f, render);
    }
  }

  /** An access port of a switch with VLAN 10, and a trunk request for it as 010. */
  function DefaultAccess(): Device {
    Device(map["Ethernet1/1" := Port(Access, 1, 1, ALL_VLANS)], map[10 := false])
  }

  function ToZeroTen(): Flip {
    Flip(Trunk, [FlipVlan("010", true)])
  }

  lemma ZeroTenIsTen()
    ensures Numerals(ToZeroTen().vlans) && ParseNat("010") == 10 && "010" != Decimal(10)
    ensures RequestedTags(ToZeroTen().vlans) == ["010"] && Requested(ToZeroTen().vlans) == {10}
  {
    var text := "010";
    assert text[..2] == "01" && text[..1] == "0" && ParseNat("0") == 0 && ParseNat("01") == 1;
    assert Decimal(10)[0] == '1' by {
      assert Decimal(1) == "1";
    }
    var vlans := ToZeroTen().vlans;
    assert vlans[..0] == [] && vlans[0] in vlans;
    assert RequestedTags(vlans) == [] + [text];
  }

  lemma ZeroTenIsNeeded(render: Rendering, link: Link)
    requires Renders(render) && link.firstRead
    ensures PreCheck(NxosDriver("Ethernet1/1", render, link), DefaultAccess(), ToZeroTen()) == Ok(true)
  {
    ZeroTenIsTen();
    CheckTagsExactly(DefaultAccess(), RequestedTags(ToZeroTen().vlans));
    PreCheckExactly(DefaultAccess(), "Ethernet1/1", ToZeroTen(), render, link);
  }

  /** The request is admitted and pushed over a connection without fault, and the update raises with the
      port flipped: the switch shows 10, and the comparison looks for 010. */
  lemma LeadingZeroStrandsTheFlip(render: Rendering)
    requires Renders(render)
    ensures var dr := NxosDriver("Ethernet1/1", render, Link(true, None, true));
            var (d', outcome) := Update(dr, DefaultAccess(), ToZeroTen());
            outcome.Raised? && d' == WithPort(DefaultAccess(), "Ethernet1/1", Port(Trunk, 1, 10, {10}))
  {
    var f, link := ToZeroTen(), Link(true, None, true);
    ZeroTenIsTen();
    ZeroTenIsNeeded(render, link);
    TrunkUpdateExactly(DefaultAccess(), "Ethernet1/1", f, render, link);
    assert f.vlans[0] in f.vlans;
  }
}
