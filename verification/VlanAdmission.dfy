/** `create_vlan`: which VLAN requests are answered by an existing VLAN, refused, or stored. */
module VlanAdmission {
  import opened Prelude
  import opened Rows
  import opened Schema
  import Db = NetforceDb

  datatype Request = Request(name: string, tag: nat, bridgeGroup: string, vpc: Option<string>)

  datatype Error =
    | OperationNotSupported
    | BridgeGroupNotFound
    | NoDevicesAssociatedToBridgeGroup
    | VpcNotConfigured
    | ConfiguredVlanConflictsWithRequested
    | Refused(error: Db.DbError)

  /** `_check_duplicate_vlans_on_bridge_group`: an existing VLAN, an exception, or None. */
  datatype Verdict = Existing(row: VlanRow) | Conflict | New

  predicate Matches(v: VlanRow, name: string, tag: nat) {
    v.name == name && v.tag == tag
  }

  /** Exactly one of name and tag is the requested one. */
  predicate HalfMatches(v: VlanRow, name: string, tag: nat) {
    (v.name == name) != (v.tag == tag)
  }

  function DuplicateVerdict(vlans: seq<VlanRow>, name: string, tag: nat): Verdict {
    if vlans == [] then New
    else if Matches(vlans[0], name, tag) then Existing(vlans[0])
    else if HalfMatches(vlans[0], name, tag) then Conflict
    else DuplicateVerdict(vlans[1..], name, tag)
  }

  /** `_find_vlan_by_vpc_and_bg`: the first VLAN of the group whose VPC has the name. */
  function FindByVpc(vpcs: seq<NamedRow>, vlans: seq<VlanRow>, name: string): (r: Option<VlanRow>)
    ensures r.Some? ==> r.value in vlans && VpcName(vpcs, r.value) == Some(name)
    ensures r.None? ==> forall v | v in vlans :: VpcName(vpcs, v) != Some(name)
  {
    if vlans == [] then None
    else if VpcName(vpcs, vlans[0]) == Some(name) then Some(vlans[0])
    else FindByVpc(vpcs, vlans[1..], name)
  }

  predicate NamesVpc(r: Request) {
    r.vpc.Some? && r.vpc.value != ""
  }

  /** `create_vlan` as a function of the tables: the VLAN returned, and the tables with it stored if it is new. */
  function Create(t: Tables, r: Request, id: Id, enabled: bool): Result<(VlanRow, Tables), Error> {
    if !enabled then Raised(OperationNotSupported)
    else
      match FindByName(t.bridgeGroups, r.bridgeGroup)
      case None => Raised(BridgeGroupNotFound)
      case Some(group) =>
        var onGroup := VlansOf(t, group.id);
        if DevicesOf(t.devices, group.id) == {} then Raised(NoDevicesAssociatedToBridgeGroup)
        else if NamesVpc(r) then
          match FindByName(t.vpcs, r.vpc.value)
          case None => Raised(VpcNotConfigured)
          case Some(vpc) =>
            match FindByVpc(t.vpcs, onGroup, vpc.name)
            case Some(v) => Ok((v, t))
            case None => Store(t, VlanRow(id, r.name, r.tag, group.id, Some(vpc.id), Active, NewlyActive))
        else
          match DuplicateVerdict(onGroup, r.name, r.tag)
          case Existing(v) => Ok((v, t))
          case Conflict => Raised(ConfiguredVlanConflictsWithRequested)
          case New => Store(t, VlanRow(id, r.name, r.tag, group.id, None, Active, NewlyActive))
  }

  function Store(t: Tables, row: VlanRow): Result<(VlanRow, Tables), Error> {
    match Db.CreateVlan(t, row)
    case Ok(t') => Ok((row, t'))
    case Raised(e) => Raised(Refused(e))
  }

  /** The tables after the call; an exception leaves them alone. */
  function After(t: Tables, r: Request, id: Id, enabled: bool): Tables {
    match Create(t, r, id, enabled)
    case Ok((_, t')) => t'
    case Raised(_) => t
  }

  class VlanPlugin {
    const session: Db.Session
    const enabled: bool

    constructor (session: Db.Session, enabled: bool)
      ensures this.session == session && this.enabled == enabled
    {
      this.session, this.enabled := session, enabled;
    }

    method CheckDuplicates(vlans: seq<VlanRow>, name: string, tag: nat) returns (verdict: Verdict)
      ensures verdict == DuplicateVerdict(vlans, name, tag)
    {
      for i := 0 to |vlans|
        invariant DuplicateVerdict(vlans, name, tag) == DuplicateVerdict(vlans[i..], name, tag)
      {
        var vlan := vlans[i];
        assert vlans[i..][1..] == vlans[i + 1..];
        if vlan.name == name && vlan.tag == tag {
          return Existing(vlan);
        } else if vlan.name == name && vlan.tag != tag {
          return Conflict;
        } else if vlan.name != name && vlan.tag == tag {
          return Conflict;
        }
      }
      return New;
    }

    method FindVlanByVpcAndGroup(vlans: seq<VlanRow>, name: string) returns (found: Option<VlanRow>)
      ensures found == FindByVpc(session.vpcs, vlans, name)
    {
      for i := 0 to |vlans|
        invariant FindByVpc(session.vpcs, vlans, name) == FindByVpc(session.vpcs, vlans[i..], name)
      {
        assert vlans[i..][1..] == vlans[i + 1..];
        if vlans[i].vpc.Some? && VpcName(session.vpcs, vlans[i]) == Some(name) {
          return Some(vlans[i]);
        }
      }
      return None;
    }

    method CreateVlan(r: Request, id: Id) returns (answer: Result<VlanRow, Error>)
      modifies session
      ensures session.View() == After(old(session.View()), r, id, enabled)
      ensures match Create(old(session.View()), r, id, enabled)
              case Ok((row, _)) => answer == Ok(row)
              case Raised(e) => answer == Raised(e)
    {
      if !enabled {
        return Raised(OperationNotSupported);
      }
      var group := FindByName(session.bridgeGroups, r.bridgeGroup);
      if group.None? {
        return Raised(BridgeGroupNotFound);
      }
      if DevicesOf(session.devices, group.value.id) == {} {
        return Raised(NoDevicesAssociatedToBridgeGroup);
      }
      var vpcId: Option<Id> := None;
      var onGroup := VlansOf(session.View(), group.value.id);
      if NamesVpc(r) {
        var vpc := FindByName(session.vpcs, r.vpc.value);
        if vpc.None? {
          return Raised(VpcNotConfigured);
        }
        vpcId := Some(vpc.value.id);
        var found := FindVlanByVpcAndGroup(onGroup, vpc.value.name);
        if found.Some? {
          return Ok(found.value);
        }
      } else {
        var verdict := CheckDuplicates(onGroup, r.name, r.tag);
        match verdict {
          case Existing(v) => return Ok(v);
          case Conflict => return Raised(ConfiguredVlanConflictsWithRequested);
          case New =>
        }
      }
      var row := VlanRow(id, r.name, r.tag, group.value.id, vpcId, Active, NewlyActive);
      var e := session.AddVlan(row);
      if e.Some? {
        return Raised(Refused(e.value));
      }
      return Ok(row);
    }
  }

  // ----- what admission guarantees

  /** A bridge group has at most one VLAN per VPC name. */
  ghost predicate OneVlanPerVpc(vlans: seq<VlanRow>, vpcs: seq<NamedRow>) {
    forall v, w | v in vlans && w in vlans ::
      v.bridgeGroup == w.bridgeGroup && VpcName(vpcs, v).Some? && VpcName(vpcs, v) == VpcName(vpcs, w) ==> v == w
  }

  /** In a bridge group, a name belongs to one tag and a tag to one name. */
  ghost predicate NamesAndTagsOneToOne(vlans: seq<VlanRow>) {
    forall v, w | v in vlans && w in vlans :: v.bridgeGroup == w.bridgeGroup ==> (v.name == w.name <==> v.tag == w.tag)
  }

  lemma {:induction false} VerdictMeaning(vlans: seq<VlanRow>, name: string, tag: nat)
    ensures DuplicateVerdict(vlans, name, tag) == New <==>
            forall v | v in vlans :: !Matches(v, name, tag) && !HalfMatches(v, name, tag)
    ensures DuplicateVerdict(vlans, name, tag).Existing? ==>
            DuplicateVerdict(vlans, name, tag).row in vlans
                && Matches(DuplicateVerdict(vlans, name, tag).row, name, tag)
    ensures DuplicateVerdict(vlans, name, tag) == Conflict ==> exists v | v in vlans :: HalfMatches(v, name, tag)
  {
    if vlans != [] {
      assert forall v | v in vlans :: v == vlans[0] || v in vlans[1..];
      assert forall v | v in vlans[1..] :: v in vlans;
      VerdictMeaning(vlans[1..], name, tag);
    }
  }

  /** A successful answer is a VLAN of the requested group that is stored afterwards, and it carries the
      requested VPC name, or the requested name and tag. */
  lemma AnswerIsTheRequestedVlan(t: Tables, r: Request, id: Id, enabled: bool)
    requires Db.Keyed(t) && Create(t, r, id, enabled).Ok?
    ensures var (v, t') := Create(t, r, id, enabled).value;
            && v in t'.vlans
            && (exists g | g in t.bridgeGroups :: g.name == r.bridgeGroup && g.id == v.bridgeGroup)
            && (if NamesVpc(r) then VpcName(t'.vpcs, v) == r.vpc else v.name == r.name && v.tag == r.tag)
  {
    var group := FindByName(t.bridgeGroups, r.bridgeGroup).value;
    VerdictMeaning(VlansOf(t, group.id), r.name, r.tag);
  }

  /** A call that changes the tables appends one row, made from the request, to the group's VLANs. */
  lemma StoredRow(t: Tables, r: Request, id: Id, enabled: bool) returns (row: VlanRow)
    requires After(t, r, id, enabled) != t
    ensures After(t, r, id, enabled) == t.(vlans := t.vlans + [row])
    ensures FindByName(t.bridgeGroups, r.bridgeGroup).Some?
    ensures row.bridgeGroup == FindByName(t.bridgeGroups, r.bridgeGroup).value.id && row.name == r.name
            && row.tag == r.tag
    ensures !HasVlan(t, id) && row.id == id && row.status == Active
    ensures Db.CreateVlan(t, row) == Db.Outcome.Ok(After(t, r, id, enabled))
    ensures NamesVpc(r) ==> VpcName(t.vpcs, row) == r.vpc || !Db.KeyedNamed(t.vpcs)
    ensures NamesVpc(r) ==> forall v | v in t.vlans && v.bridgeGroup == row.bridgeGroup :: VpcName(t.vpcs, v) != r.vpc
    ensures !NamesVpc(r) ==> row.vpc == None
    ensures !NamesVpc(r) ==> forall v | v in t.vlans && v.bridgeGroup == row.bridgeGroup ::
            !HalfMatches(v, r.name, r.tag)
  {
    var group := FindByName(t.bridgeGroups, r.bridgeGroup).value;
    VerdictMeaning(VlansOf(t, group.id), r.name, r.tag);
    assert forall v | v in t.vlans && v.bridgeGroup == group.id :: v in VlansOf(t, group.id);
    var vpc := if NamesVpc(r) then Some(FindByName(t.vpcs, r.vpc.value).value.id) else None;
    row := VlanRow(id, r.name, r.tag, group.id, vpc, Active, NewlyActive);
  }

  /** The checks come before every constraint of the database: only a taken primary key can be refused. */
  lemma ChecksPreemptConstraints(t: Tables, r: Request, id: Id, enabled: bool)
    requires Db.Keyed(t)
    ensures Create(t, r, id, enabled).Raised? && Create(t, r, id, enabled).error.Refused? ==> HasVlan(t, id)
  {
    var group, vpc := FindByName(t.bridgeGroups, r.bridgeGroup),
        FindByName(t.vpcs, if NamesVpc(r) then r.vpc.value else "");
    if group.Some? && vpc.Some? && NamesVpc(r) {
      assert forall v | v in t.vlans && v.bridgeGroup == group.value.id :: v in VlansOf(t, group.value.id);
      assert forall v | v in t.vlans && v.vpc == Some(vpc.value.id) :: VpcName(t.vpcs, v) == Some(vpc.value.name);
    }
  }

  /** Every call keeps at most one VLAN per bridge group and VPC name. */
  lemma CreateKeepsOneVlanPerVpc(t: Tables, r: Request, id: Id, enabled: bool)
    requires Db.Keyed(t) && OneVlanPerVpc(t.vlans, t.vpcs)
    ensures OneVlanPerVpc(After(t, r, id, enabled).vlans, After(t, r, id, enabled).vpcs)
  {
    var t' := After(t, r, id, enabled);
    if t' != t {
      var row := StoredRow(t, r, id, enabled);
      forall v, w | v in t'.vlans && w in t'.vlans && v.bridgeGroup == w.bridgeGroup
                    && VpcName(t'.vpcs, v).Some? && VpcName(t'.vpcs, v) == VpcName(t'.vpcs, w)
        ensures v == w
      {
        assert VpcName(t'.vpcs, v) == VpcName(t.vpcs, v) && VpcName(t'.vpcs, w) == VpcName(t.vpcs, w);
      }
    }
  }

  /** The request gets through all checks of the VPC path: the group has devices and no VLAN of that VPC
      name, and the new key is free. */
  predicate StoresForVpc(t: Tables, r: Request, id: Id, enabled: bool) {
    && enabled && NamesVpc(r) && !HasVlan(t, id)
    && FindByName(t.bridgeGroups, r.bridgeGroup).Some? && FindByName(t.vpcs, r.vpc.value).Some?
    && var group := FindByName(t.bridgeGroups, r.bridgeGroup).value.id;
       DevicesOf(t.devices, group) != {} && forall v | v in t.vlans && v.bridgeGroup == group ::
           VpcName(t.vpcs, v) != r.vpc
  }

  /** It does so beside a VLAN of the group that half matches. */
  predicate BreaksOneToOne(t: Tables, r: Request, id: Id, enabled: bool) {
    StoresForVpc(t, r, id, enabled)
    && exists v | v in t.vlans ::
         v.bridgeGroup == FindByName(t.bridgeGroups, r.bridgeGroup).value.id && HalfMatches(v, r.name, r.tag)
  }

  /** A call keeps names and tags one-to-one exactly unless it stores a VLAN for a VPC whose name and tag
      half match a VLAN of the group: the VPC path does not look, the other one does. */
  lemma CreateKeepsOneToOneExactly(t: Tables, r: Request, id: Id, enabled: bool)
    requires Db.Keyed(t) && NamesAndTagsOneToOne(t.vlans)
    ensures NamesAndTagsOneToOne(After(t, r, id, enabled).vlans) <==> !BreaksOneToOne(t, r, id, enabled)
  {
    var t' := After(t, r, id, enabled);
    VpcPathStoresExactly(t, r, id, enabled);
    if t' != t {
      var row := StoredRow(t, r, id, enabled);
      assert row in t'.vlans;
      assert forall v | v in t'.vlans :: v in t.vlans || v == row;
      assert forall v | v in t.vlans :: v in t'.vlans;
    }
  }

  /** The guards say exactly when a request for a VPC stores a row. */
  lemma VpcPathStoresExactly(t: Tables, r: Request, id: Id, enabled: bool)
    requires Db.Keyed(t)
    ensures NamesVpc(r) ==> (After(t, r, id, enabled) != t <==> StoresForVpc(t, r, id, enabled))
  {
    if StoresForVpc(t, r, id, enabled) {
      ChecksPreemptConstraints(t, r, id, enabled);
      var group := FindByName(t.bridgeGroups, r.bridgeGroup).value.id;
      assert forall v | v in VlansOf(t, group) :: v in t.vlans && v.bridgeGroup == group;
      assert FindByVpc(t.vpcs, VlansOf(t, group), r.vpc.value).None?;
    } else if After(t, r, id, enabled) != t && NamesVpc(r) {
      var row := StoredRow(t, r, id, enabled);
    }
  }

  // ----- every exit

  /** VLAN k is the first one with the name or the tag. */
  predicate FirstTaken(vlans: seq<VlanRow>, name: string, tag: nat, k: nat) {
    && k < |vlans| && (vlans[k].name == name || vlans[k].tag == tag)
    && forall j | 0 <= j < k :: vlans[j].name != name && vlans[j].tag != tag
  }

  /** Name and tag are free. */
  predicate Free(vlans: seq<VlanRow>, name: string, tag: nat) {
    forall v | v in vlans :: v.name != name && v.tag != tag
  }

  /** The first VLAN with the requested name or tag decides: it is the answer if it has both. */
  lemma {:induction false} VerdictExactly(vlans: seq<VlanRow>, name: string, tag: nat)
    ensures forall k: nat | FirstTaken(vlans, name, tag, k) ::
              DuplicateVerdict(vlans, name, tag)
              == if vlans[k].name == name && vlans[k].tag == tag then Existing(vlans[k]) else Conflict
    ensures Free(vlans, name, tag) || exists k: nat :: FirstTaken(vlans, name, tag, k)
    ensures Free(vlans, name, tag) ==> DuplicateVerdict(vlans, name, tag) == New
  {
    if vlans != [] {
      VerdictExactly(vlans[1..], name, tag);
      assert forall v | v in vlans :: v == vlans[0] || v in vlans[1..];
      forall k: nat
        ensures FirstTaken(vlans, name, tag, k) && k > 0 ==> FirstTaken(vlans[1..], name, tag, k - 1)
      {
      }
      if vlans[0].name == name || vlans[0].tag == tag {
        assert FirstTaken(vlans, name, tag, 0);
      } else if k: nat :| FirstTaken(vlans[1..], name, tag, k) {
        assert FirstTaken(vlans, name, tag, k + 1);
      }
    }
  }

  /** VLAN k is the first one of the VPC. */
  predicate FirstOfVpc(vpcs: seq<NamedRow>, vlans: seq<VlanRow>, name: string, k: nat) {
    && k < |vlans| && VpcName(vpcs, vlans[k]) == Some(name)
    && forall j | 0 <= j < k :: VpcName(vpcs, vlans[j]) != Some(name)
  }

  lemma {:induction false} VpcScanExactly(vpcs: seq<NamedRow>, vlans: seq<VlanRow>, name: string)
    ensures forall k: nat | FirstOfVpc(vpcs, vlans, name, k) :: FindByVpc(vpcs, vlans, name) == Some(vlans[k])
    ensures FindByVpc(vpcs, vlans, name).Some? ==> exists k: nat :: FirstOfVpc(vpcs, vlans, name, k)
  {
    if vlans != [] {
      VpcScanExactly(vpcs, vlans[1..], name);
      forall k: nat
        ensures FirstOfVpc(vpcs, vlans, name, k) && k > 0 ==> FirstOfVpc(vpcs, vlans[1..], name, k - 1)
      {
      }
      if VpcName(vpcs, vlans[0]) == Some(name) {
        assert FirstOfVpc(vpcs, vlans, name, 0);
      } else if k: nat :| FirstOfVpc(vpcs, vlans[1..], name, k) {
        assert FirstOfVpc(vpcs, vlans, name, k + 1);
      }
    }
  }

  /** The requests that get to the scans, and the group they are about. */
  predicate Admissible(t: Tables, r: Request, group: NamedRow, enabled: bool) {
    && enabled && FindByName(t.bridgeGroups, r.bridgeGroup) == Some(group)
    && exists d | d in t.devices :: t.devices[d].bridgeGroup == Some(group.id)
  }

  /** The exceptions before the scans, in their order. */
  lemma InadmissibleExactly(t: Tables, r: Request, id: Id, enabled: bool)
    ensures var answer := Create(t, r, id, enabled);
            if !enabled then answer == Raised(OperationNotSupported)
            else if forall g | g in t.bridgeGroups :: g.name != r.bridgeGroup then answer == Raised(BridgeGroupNotFound)
            else
              exists group | group in t.bridgeGroups && group.name == r.bridgeGroup ::
                && FindByName(t.bridgeGroups, r.bridgeGroup) == Some(group)
                && (answer == Raised(NoDevicesAssociatedToBridgeGroup) <==> !Admissible(t, r, group, enabled))
  {
    if group :| FindByName(t.bridgeGroups, r.bridgeGroup) == Some(group) {
      if d :| d in t.devices && t.devices[d].bridgeGroup == Some(group.id) {
        assert d in DevicesOf(t.devices, group.id);
      }
    }
  }

  /** A request without a VPC, or with an empty name for it: the first VLAN of the group with the name or the
      tag answers it, if it has both, and is a conflict otherwise; if there is none, the row is stored unless
      its key is taken. */
  lemma PlainRequestExactly(t: Tables, r: Request, id: Id, group: NamedRow, enabled: bool)
    requires Admissible(t, r, group, enabled) && (r.vpc == None || r.vpc == Some(""))
    ensures var vlans, answer := VlansOf(t, group.id), Create(t, r, id, enabled);
            var row := VlanRow(id, r.name, r.tag, group.id, None, Active, NewlyActive);
            && (forall k: nat | FirstTaken(vlans, r.name, r.tag, k) ::
                  answer == if vlans[k].name == r.name && vlans[k].tag == r.tag then Ok((vlans[k], t))
                            else Raised(ConfiguredVlanConflictsWithRequested))
            && (Free(vlans, r.name, r.tag) ==>
                  answer == if HasVlan(t, id) then Raised(Refused(Db.Duplicate))
                            else Ok((row, t.(vlans := t.vlans + [row]))))
            && (Free(vlans, r.name, r.tag) || exists k: nat :: FirstTaken(vlans, r.name, r.tag, k))
  {
    assert DevicesOf(t.devices, group.id) != {} by {
      var d :| d in t.devices && t.devices[d].bridgeGroup == Some(group.id);
      assert d in DevicesOf(t.devices, group.id);
    }
    VerdictExactly(VlansOf(t, group.id), r.name, r.tag);
  }

  /** So without a VPC a row is stored exactly if the call is enabled, the group exists and has devices, none
      of its VLANs has the name or the tag, and the key is free. */
  lemma PlainPathStoresExactly(t: Tables, r: Request, id: Id, enabled: bool)
    requires r.vpc == None || r.vpc == Some("")
    ensures After(t, r, id, enabled) != t
            <==> && !HasVlan(t, id)
                 && exists group | group in t.bridgeGroups :: Admissible(t, r, group, enabled)
                      && forall v | v in t.vlans && v.bridgeGroup == group.id :: v.name != r.name && v.tag != r.tag
  {
    InadmissibleExactly(t, r, id, enabled);
    if group :| Admissible(t, r, group, enabled) {
      var vlans := VlansOf(t, group.id);
      assert forall v :: v in vlans <==> v in t.vlans && v.bridgeGroup == group.id;
      PlainRequestExactly(t, r, id, group, enabled);
      if !Free(vlans, r.name, r.tag) {
        var k: nat :| FirstTaken(vlans, r.name, r.tag, k);
        assert vlans[k] in vlans;
      }
    }
  }

  /** A request for a VPC: the first VLAN of the group that has this VPC answers it; if there is none, the row
      is stored with the VPC's key unless its own is taken. A VPC that does not exist raises. */
  lemma VpcRequestExactly(t: Tables, r: Request, id: Id, group: NamedRow, enabled: bool)
    requires Db.Keyed(t) && Admissible(t, r, group, enabled) && r.vpc.Some? && r.vpc.value != ""
    ensures var vlans, answer := VlansOf(t, group.id), Create(t, r, id, enabled);
            && (answer == Raised(VpcNotConfigured) <==> forall vpc | vpc in t.vpcs :: vpc.name != r.vpc.value)
            && (answer != Raised(VpcNotConfigured) ==>
                  && (forall k: nat | FirstOfVpc(t.vpcs, vlans, r.vpc.value, k) :: answer == Ok((vlans[k], t)))
                  && ((forall v | v in vlans :: VpcName(t.vpcs, v) != r.vpc) ==>
                        if HasVlan(t, id) then answer == Raised(Refused(Db.Duplicate))
                        else exists vpc | vpc in t.vpcs && vpc.name == r.vpc.value ::
                          var row := VlanRow(id, r.name, r.tag, group.id, Some(vpc.id), Active, NewlyActive);
                          answer == Ok((row, t.(vlans := t.vlans + [row])))))
  {
    assert DevicesOf(t.devices, group.id) != {} by {
      var d :| d in t.devices && t.devices[d].bridgeGroup == Some(group.id);
      assert d in DevicesOf(t.devices, group.id);
    }
    ChecksPreemptConstraints(t, r, id, enabled);
    VpcScanExactly(t.vpcs, VlansOf(t, group.id), r.vpc.value);
  }

  /** The VPC path can break it: a group holding "prod" under tag 10 accepts "prod" under tag 11 for a VPC. */
  lemma VpcPathBreaksOneToOne()
    ensures exists t: Tables, r: Request, id: Id ::
            NamesAndTagsOneToOne(t.vlans) && !NamesAndTagsOneToOne(After(t, r, id, true).vlans)
  {
    var first := VlanRow(0, "prod", 10, 1, None, Active, NewlyActive);
    var t := Tables([NamedRow(1, "bg")], [NamedRow(2, "vpc")], map[3 := DeviceRow(Some(1), true, Nxos)], map[],
        [first], [], []);
    var r := Request("prod", 11, "bg", Some("vpc"));
    assert 3 in DevicesOf(t.devices, 1);
    assert VlansOf(t, 1) == [first] by {
      FilterAll([first], InGroup(1));
    }
    assert FindByVpc(t.vpcs, [first], "vpc").None?;
    var row := VlanRow(5, "prod", 11, 1, Some(2), Active, NewlyActive);
    assert t.bridgeGroups[0] in t.bridgeGroups && t.vpcs[0] in t.vpcs;
    assert After(t, r, 5, true).vlans == [first, row];
    assert first in [first, row] && row in [first, row];
  }

  // ----- the scan order

  ghost predicate SameRows(vlans: seq<VlanRow>, others: seq<VlanRow>) {
    multiset(vlans) == multiset(others)
  }

  lemma MoveToFront(vlans: seq<VlanRow>, v: VlanRow) returns (moved: seq<VlanRow>)
    requires v in vlans
    ensures SameRows(vlans, moved) && moved != [] && moved[0] == v
  {
    var i :| 0 <= i < |vlans| && vlans[i] == v;
    assert vlans == vlans[..i] + [v] + vlans[i + 1..];
    moved := [v] + vlans[..i] + vlans[i + 1..];
  }

  /** Whether the request is found, refused or new does not depend on the order of the scan exactly when
      the group does not hold both a full and a half match. */
  lemma ScanOrderIrrelevantExactly(vlans: seq<VlanRow>, name: string, tag: nat)
    ensures (forall others | SameRows(vlans, others) ::
               DuplicateVerdict(others, name, tag).Existing? == DuplicateVerdict(vlans, name, tag).Existing?
               && DuplicateVerdict(others, name, tag).Conflict? == DuplicateVerdict(vlans, name, tag).Conflict?)
            <==> (|| (forall v | v in vlans :: !Matches(v, name, tag))
                  || (forall v | v in vlans :: !HalfMatches(v, name, tag)))
  {
    var full := exists v | v in vlans :: Matches(v, name, tag);
    var half := exists v | v in vlans :: HalfMatches(v, name, tag);
    if full && half {
      var v :| v in vlans && Matches(v, name, tag);
      var w :| w in vlans && HalfMatches(w, name, tag);
      var found := MoveToFront(vlans, v);
      var refused := MoveToFront(vlans, w);
      assert DuplicateVerdict(found, name, tag).Existing?;
      assert DuplicateVerdict(refused, name, tag).Conflict?;
    } else {
      forall others | SameRows(vlans, others)
        ensures DuplicateVerdict(others, name, tag).Existing? == DuplicateVerdict(vlans, name, tag).Existing?
        ensures DuplicateVerdict(others, name, tag).Conflict? == DuplicateVerdict(vlans, name, tag).Conflict?
      {
        forall v
          ensures v in vlans <==> v in others
        {
          assert v in vlans <==> v in multiset(vlans);
          assert v in others <==> v in multiset(others);
        }
        VerdictMeaning(vlans, name, tag);
        VerdictMeaning(others, name, tag);
      }
    }
  }

  /** Under the one-to-one invariant no group holds both, so the order never matters. */
  lemma OneToOneMakesOrderIrrelevant(t: Tables, group: Id, name: string, tag: nat, others: seq<VlanRow>)
    requires NamesAndTagsOneToOne(t.vlans) && SameRows(VlansOf(t, group), others)
    ensures DuplicateVerdict(others, name, tag).Existing? == DuplicateVerdict(VlansOf(t, group), name, tag).Existing?
    ensures DuplicateVerdict(others, name, tag).Conflict? == DuplicateVerdict(VlansOf(t, group), name, tag).Conflict?
  {
    ScanOrderIrrelevantExactly(VlansOf(t, group), name, tag);
  }
}
