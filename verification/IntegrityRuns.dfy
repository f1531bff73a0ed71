/** Runs of database operations and VLAN requests: what every reachable state satisfies. */
module IntegrityRuns {
  import opened Prelude
  import opened Rows
  import opened Schema
  import Db = NetforceDb
  import Vlans = VlanAdmission

  datatype Op =
    | CreateBridgeGroup(group: NamedRow)
    | CreateVpc(newVpc: NamedRow)
    | CreateDevice(id: Id, device: DeviceRow)
    | CreatePort(id: Id, port: PortRow)
    | CreateVlan(request: Vlans.Request, id: Id)
    | CreateAssociation(association: AssociationRow)
    | CreateSubnet(subnet: SubnetRow)
    | UpdatePort(id: Id, patch: Columns)
    | UpdateVlan(id: Id, vlanPatch: Db.VlanPatch)
    | UpdateVpc(id: Id, name: string)
    | DeleteAssociationsOfPort(id: Id)
    | DeletePort(id: Id)
    | DeleteDevice(id: Id)
    | DeleteVlan(id: Id)
    | DeleteVpc(id: Id)
    | DeleteBridgeGroup(id: Id)
    | DeleteSubnet(id: Id)

  function OrSame(o: Db.Outcome, t: Tables): Tables {
    if o.Ok? then o.value else t
  }

  function Step(t: Tables, op: Op): Tables {
    match op
    case CreateBridgeGroup(row) => OrSame(Db.CreateBridgeGroup(t, row), t)
    case CreateVpc(row) => OrSame(Db.CreateVpc(t, row), t)
    case CreateDevice(id, row) => OrSame(Db.CreateDevice(t, id, row), t)
    case CreatePort(id, row) => OrSame(Db.CreatePort(t, id, row), t)
    case CreateVlan(request, id) => Vlans.After(t, request, id, true)
    case CreateAssociation(row) => OrSame(Db.CreateAssociation(t, row), t)
    case CreateSubnet(row) => OrSame(Db.CreateSubnet(t, row), t)
    case UpdatePort(id, patch) => OrSame(Db.UpdatePort(t, id, patch), t)
    case UpdateVlan(id, patch) => OrSame(Db.UpdateVlan(t, id, patch), t)
    case UpdateVpc(id, name) => OrSame(Db.UpdateVpc(t, id, name), t)
    case DeleteAssociationsOfPort(id) => Db.DeleteAssociationsOfPort(t, id)
    case DeletePort(id) => OrSame(Db.DeletePort(t, id), t)
    case DeleteDevice(id) => OrSame(Db.DeleteDevice(t, id), t)
    case DeleteVlan(id) => OrSame(Db.DeleteVlan(t, id), t)
    case DeleteVpc(id) => OrSame(Db.DeleteVpc(t, id), t)
    case DeleteBridgeGroup(id) => OrSame(Db.DeleteBridgeGroup(t, id), t)
    case DeleteSubnet(id) => Db.DeleteSubnet(t, id)
  }

  function Run(t: Tables, ops: seq<Op>): Tables {
    if ops == [] then t else Step(Run(t, ops[..|ops| - 1]), ops[|ops| - 1])
  }

  const EMPTY := Tables([], [], map[], map[], [], [], [])

  // ----- referential integrity

  predicate IsCreation(op: Op) {
    op.CreateBridgeGroup? || op.CreateVpc? || op.CreateDevice? || op.CreatePort? || op.CreateVlan?
    || op.CreateAssociation? || op.CreateSubnet?
  }

  /** Operations that leave the VLAN and VPC tables alone. */
  lemma StepFrame(t: Tables, op: Op)
    requires !op.CreateVlan? && !op.CreateVpc? && !op.UpdateVlan? && !op.UpdateVpc? && !op.DeleteVlan? && !op.DeleteVpc?
    ensures Step(t, op).vlans == t.vlans && Step(t, op).vpcs == t.vpcs
  {
  }

  lemma CreateVlanKeepsIntegrity(t: Tables, request: Vlans.Request, id: Id)
    requires Db.Integrity(t)
    ensures Db.Integrity(Vlans.After(t, request, id, true))
  {
    if Vlans.After(t, request, id, true) != t {
      var row := Vlans.StoredRow(t, request, id, true);
    }
  }

  lemma CreationKeepsIntegrity(t: Tables, op: Op)
    requires Db.Integrity(t) && IsCreation(op)
    ensures Db.Integrity(Step(t, op))
  {
    if op.CreateVlan? {
      CreateVlanKeepsIntegrity(t, op.request, op.id);
    }
  }

  /** What a step may do to the rows others refer to: nothing disappears that is still referred to. */
  lemma StepKeepsIntegrity(t: Tables, op: Op)
    requires Db.Integrity(t)
    ensures Db.Integrity(Step(t, op))
  {
    if IsCreation(op) {
      CreationKeepsIntegrity(t, op);
    } else if Step(t, op) != t {
      match op {
        case DeletePort(id) => AssociationsOfNone(t, id);
        case DeleteVlan(id) => DeleteVlanKeepsIntegrity(t, id);
        case DeleteBridgeGroup(id) => DeleteBridgeGroupKeepsIntegrity(t, id);
        case DeleteVpc(id) => NamedAfterFilter(t.vpcs, id);
        case UpdateVlan(id, patch) => UpdateVlanKeepsIntegrity(t, id, patch);
        case UpdateVpc(id, name) => SameNamedIds(t.vpcs, id, name);
        case _ =>
      }
    }
  }

  lemma AssociationsOfNone(t: Tables, port: Id)
    ensures AssociationsOf(t, port) == [] ==> forall a | a in t.associations :: a.port != port
  {
    assert forall a | a in t.associations && a.port == port :: a in AssociationsOf(t, port);
  }

  lemma NamedAfterFilter(rows: seq<NamedRow>, id: Id)
    ensures forall other: Id | other != id && HasNamed(rows, other) :: HasNamed(Filter(rows, OtherNamed(id)), other)
  {
    forall other: Id | other != id && HasNamed(rows, other)
      ensures HasNamed(Filter(rows, OtherNamed(id)), other)
    {
      var r :| r in rows && r.id == other;
      assert r in Filter(rows, OtherNamed(id));
    }
  }

  lemma DeleteVlanKeepsIntegrity(t: Tables, id: Id)
    requires Db.Integrity(t) && HasVlan(t, id)
    ensures Db.Integrity(Db.DeleteVlan(t, id).value)
  {
    var t' := Db.DeleteVlan(t, id).value;
    forall other: Id | other != id && HasVlan(t, other)
      ensures HasVlan(t', other)
    {
      var v :| v in t.vlans && v.id == other;
      assert v in t'.vlans;
    }
    forall s | s in t'.subnets
      ensures s.vlan.Some? ==> HasVlan(t', s.vlan.value)
    {
      var i :| 0 <= i < |t'.subnets| && t'.subnets[i] == s;
      assert t.subnets[i] in t.subnets;
    }
  }

  lemma DeleteBridgeGroupKeepsIntegrity(t: Tables, id: Id)
    requires Db.Integrity(t) && Db.DeleteBridgeGroup(t, id).Ok?
    ensures Db.Integrity(Db.DeleteBridgeGroup(t, id).value)
  {
    NamedAfterFilter(t.bridgeGroups, id);
    assert forall v | v in t.vlans && v.bridgeGroup == id :: v in VlansOf(t, id);
    assert forall d | d in t.devices && t.devices[d].bridgeGroup == Some(id) :: d in DevicesOf(t.devices, id);
  }

  lemma UpdateVlanKeepsIntegrity(t: Tables, id: Id, patch: Db.VlanPatch)
    requires Db.Integrity(t) && HasVlan(t, id)
    ensures Db.Integrity(Db.UpdateVlan(t, id, patch).value)
  {
    var t' := Db.UpdateVlan(t, id, patch).value;
    SameVlanIds(t, id, patch);
    forall v | v in t'.vlans
      ensures HasNamed(t'.bridgeGroups, v.bridgeGroup) && (v.vpc.Some? ==> HasNamed(t'.vpcs, v.vpc.value))
    {
      var i :| 0 <= i < |t'.vlans| && t'.vlans[i] == v;
      assert t.vlans[i] in t.vlans;
    }
  }

  lemma SameVlanIds(t: Tables, id: Id, patch: Db.VlanPatch)
    requires HasVlan(t, id)
    ensures forall other: Id | HasVlan(t, other) :: HasVlan(Db.UpdateVlan(t, id, patch).value, other)
  {
    var t' := Db.UpdateVlan(t, id, patch).value;
    forall other: Id | HasVlan(t, other)
      ensures HasVlan(t', other)
    {
      var i :| 0 <= i < |t.vlans| && t.vlans[i].id == other;
      assert t'.vlans[i] in t'.vlans;
    }
  }

  lemma SameNamedIds(rows: seq<NamedRow>, id: Id, name: string)
    ensures forall other: Id | HasNamed(rows, other) :: HasNamed(Db.WithName(rows, id, name), other)
  {
    var rows' := Db.WithName(rows, id, name);
    forall other: Id | HasNamed(rows, other)
      ensures HasNamed(rows', other)
    {
      var i :| 0 <= i < |rows| && rows[i].id == other;
      assert rows'[i] in rows';
    }
  }

  /** No dangling references, over every run of creates, updates, guarded deletes, the association loop and the
      cascade. */
  lemma {:induction false} RunsHaveNoDanglingReferences(t: Tables, ops: seq<Op>)
    requires Db.Integrity(t)
    ensures Db.Integrity(Run(t, ops))
  {
    if ops != [] {
      RunsHaveNoDanglingReferences(t, ops[..|ops| - 1]);
      StepKeepsIntegrity(Run(t, ops[..|ops| - 1]), ops[|ops| - 1]);
    }
  }

  lemma StepKeepsPairsUnique(t: Tables, op: Op)
    requires Db.UniquePairs(t.associations)
    ensures Db.UniquePairs(Step(t, op).associations)
  {
    if Step(t, op) != t {
      match op {
        case DeleteAssociationsOfPort(id) => Db.FilterKeepsUnique(t.associations, OffPort(id));
        case DeleteDevice(id) => Db.FilterKeepsUnique(t.associations, OnPorts(Db.DeleteDevice(t, id).value.ports.Keys));
        case DeleteVlan(id) => Db.FilterKeepsUnique(t.associations, OffVlan(id));
        case CreateVlan(request, id) => var row := Vlans.StoredRow(t, request, id, true);
        case CreateAssociation(row) => assert forall i | 0 <= i < |t.associations| ::
            t.associations[i] in t.associations;
        case _ =>
      }
    }
  }

  /** Nor does any run store a port and VLAN pair twice. */
  lemma {:induction false} RunsKeepPairsUnique(t: Tables, ops: seq<Op>)
    requires Db.UniquePairs(t.associations)
    ensures Db.UniquePairs(Run(t, ops).associations)
  {
    if ops != [] {
      RunsKeepPairsUnique(t, ops[..|ops| - 1]);
      StepKeepsPairsUnique(Run(t, ops[..|ops| - 1]), ops[|ops| - 1]);
    }
  }

  /** Deleting a VLAN removes exactly its associations: with them the old table is complete, and no other one is
      among them. */
  lemma DeleteVlanRemovesExactlyItsAssociations(t: Tables, id: Id)
    requires HasVlan(t, id)
    ensures var t' := Db.DeleteVlan(t, id).value;
            && multiset(t.associations) == multiset(t'.associations) + multiset(Filter(t.associations, OnVlan(id)))
            && (forall a | a in t'.associations :: a.vlan != id)
            && t'.ports == t.ports && t'.devices == t.devices && t'.bridgeGroups == t.bridgeGroups && t'.vpcs == t.vpcs
  {
    FilterSplits(t.associations, OnVlan(id));
    FilterSame(t.associations, Not(OnVlan(id)), OffVlan(id));
  }

  // ----- VLAN admission

  /** A row with its primary key taken is refused, so keys identify rows in every state. */
  lemma StepKeepsKeys(t: Tables, op: Op)
    requires Db.Keyed(t)
    ensures Db.Keyed(Step(t, op))
  {
    if IsCreation(op) {
      CreationKeepsKeys(t, op);
    } else if Step(t, op) != t {
      match op {
        case UpdateVlan(id, patch) => VlansAfterUpdate(t, id, patch);
        case UpdateVpc(id, name) => RenamedKeepsKeys(t.vpcs, id, name);
        case DeleteVlan(id) => DetachedKeepsKeys(t.subnets, id);
        case _ =>
      }
    }
  }

  lemma CreateVlanKeepsKeys(t: Tables, request: Vlans.Request, id: Id)
    requires Db.Keyed(t)
    ensures Db.Keyed(Vlans.After(t, request, id, true))
  {
    if Vlans.After(t, request, id, true) != t {
      var row := Vlans.StoredRow(t, request, id, true);
    }
  }

  lemma CreationKeepsKeys(t: Tables, op: Op)
    requires Db.Keyed(t) && IsCreation(op)
    ensures Db.Keyed(Step(t, op))
  {
    if op.CreateVlan? {
      CreateVlanKeepsKeys(t, op.request, op.id);
    }
  }

  lemma DetachedKeepsKeys(subnets: seq<SubnetRow>, vlan: Id)
    requires forall r, s | r in subnets && s in subnets :: r.id == s.id ==> r == s
    ensures forall r, s | r in Db.Detached(subnets, vlan) && s in Db.Detached(subnets, vlan) :: r.id == s.id ==> r == s
  {
    var detached := Db.Detached(subnets, vlan);
    forall r, s | r in detached && s in detached
      ensures r.id == s.id ==> r == s
    {
      var i :| 0 <= i < |detached| && detached[i] == r;
      var j :| 0 <= j < |detached| && detached[j] == s;
      assert subnets[i] in subnets && subnets[j] in subnets;
    }
  }

  lemma RenamedKeepsKeys(rows: seq<NamedRow>, id: Id, name: string)
    requires Db.KeyedNamed(rows)
    ensures Db.KeyedNamed(Db.WithName(rows, id, name))
  {
    var rows' := Db.WithName(rows, id, name);
    forall r, s | r in rows' && s in rows'
      ensures r.id == s.id ==> r == s
    {
      var i :| 0 <= i < |rows'| && rows'[i] == r;
      var j :| 0 <= j < |rows'| && rows'[j] == s;
      assert rows[i] in rows && rows[j] in rows;
    }
  }

  /** The rows after an update are the old ones, one of them patched. */
  lemma VlansAfterUpdate(t: Tables, id: Id, patch: Db.VlanPatch)
    requires HasVlan(t, id)
    ensures forall v | v in Db.UpdateVlan(t, id, patch).value.vlans ::
              exists w | w in t.vlans :: v == if w.id == id then Db.Patched(w, patch) else w
  {
    var vlans := Db.UpdateVlan(t, id, patch).value.vlans;
    forall v | v in vlans
      ensures exists w | w in t.vlans :: v == if w.id == id then Db.Patched(w, patch) else w
    {
      var i :| 0 <= i < |vlans| && vlans[i] == v;
      assert t.vlans[i] in t.vlans;
    }
  }

  // ----- one VLAN per VPC name

  /** No bridge group holds a VLAN of the VPC beside one of another VPC with that name. */
  ghost predicate RenameHarmless(t: Tables, id: Id, name: string) {
    forall v, w | v in t.vlans && w in t.vlans && v.bridgeGroup == w.bridgeGroup && v.vpc == Some(id)
        && w.vpc != Some(id) ::
      VpcName(t.vpcs, w) != Some(name)
  }

  lemma {:induction false} NameAfterRename(rows: seq<NamedRow>, id: Id, name: string, k: Id)
    ensures NameOf(Db.WithName(rows, id, name), k)
            == if NameOf(rows, k).Some? && k == id then Some(name) else NameOf(rows, k)
  {
    if rows != [] {
      assert Db.WithName(rows, id, name)[1..] == Db.WithName(rows[1..], id, name);
      if rows[0].id != k {
        NameAfterRename(rows[1..], id, name, k);
      }
    }
  }

  lemma VpcNameAfterRename(vpcs: seq<NamedRow>, id: Id, name: string, v: VlanRow)
    requires HasNamed(vpcs, id)
    ensures VpcName(Db.WithName(vpcs, id, name), v) == if v.vpc == Some(id) then Some(name) else VpcName(vpcs, v)
  {
    if v.vpc.Some? {
      NameAfterRename(vpcs, id, name, v.vpc.value);
    }
  }

  /** Renaming a VPC keeps one VLAN per group and VPC name exactly when the rename is harmless. */
  lemma RenameKeepsOneVlanPerVpcExactly(t: Tables, id: Id, name: string)
    requires Vlans.OneVlanPerVpc(t.vlans, t.vpcs) && HasNamed(t.vpcs, id)
    ensures Vlans.OneVlanPerVpc(t.vlans, Db.WithName(t.vpcs, id, name)) <==> RenameHarmless(t, id, name)
  {
    forall v | v in t.vlans
      ensures VpcName(Db.WithName(t.vpcs, id, name), v) == if v.vpc == Some(id) then Some(name) else VpcName(t.vpcs, v)
    {
      VpcNameAfterRename(t.vpcs, id, name, v);
    }
    if RenameHarmless(t, id, name) {
      forall v, w | v in t.vlans && w in t.vlans && v.bridgeGroup == w.bridgeGroup && v.vpc == Some(id) == w.vpc
        ensures v == w
      {
        assert VpcName(t.vpcs, v) == NameOf(t.vpcs, id) == VpcName(t.vpcs, w);
      }
    }
  }

  /** Only the rename of a VPC can be harmful. */
  ghost predicate KeepsVpcNamesApart(t: Tables, op: Op) {
    op.UpdateVpc? && HasNamed(t.vpcs, op.id) ==> RenameHarmless(t, op.id, op.name)
  }

  /** An operation keeps one VLAN per group and VPC name exactly when it is no harmful rename. */
  lemma StepKeepsOneVlanPerVpc(t: Tables, op: Op)
    requires Db.Integrity(t) && Db.Keyed(t) && Vlans.OneVlanPerVpc(t.vlans, t.vpcs)
    ensures Vlans.OneVlanPerVpc(Step(t, op).vlans, Step(t, op).vpcs) <==> KeepsVpcNamesApart(t, op)
  {
    match op {
      case UpdateVpc(id, name) => UpdateVpcStep(t, id, name);
      case CreateVlan(request, id) => Vlans.CreateKeepsOneVlanPerVpc(t, request, id, true);
      case _ => OthersKeepOneVlanPerVpc(t, op);
    }
  }

  lemma UpdateVpcStep(t: Tables, id: Id, name: string)
    requires Vlans.OneVlanPerVpc(t.vlans, t.vpcs)
    ensures var t' := OrSame(Db.UpdateVpc(t, id, name), t);
            Vlans.OneVlanPerVpc(t'.vlans, t'.vpcs) <==> (HasNamed(t.vpcs, id) ==> RenameHarmless(t, id, name))
  {
    if HasNamed(t.vpcs, id) {
      RenameKeepsOneVlanPerVpcExactly(t, id, name);
    }
  }

  lemma OthersKeepOneVlanPerVpc(t: Tables, op: Op)
    requires Db.Integrity(t) && Db.Keyed(t) && Vlans.OneVlanPerVpc(t.vlans, t.vpcs)
    requires !op.UpdateVpc? && !op.CreateVlan?
    ensures Vlans.OneVlanPerVpc(Step(t, op).vlans, Step(t, op).vpcs)
  {
    StepKeepsKeys(t, op);
    if Step(t, op) != t {
      match op {
        case CreateVpc(row) => KeepsVpcNames(t, Step(t, op));
        case DeleteVpc(id) => KeepsVpcNames(t, Step(t, op));
        case UpdateVlan(id, patch) => VlansAfterUpdate(t, id, patch); SameVpcNames(t, Step(t, op));
        case DeleteVlan(id) => SameVpcNames(t, Step(t, op));
        case _ => StepFrame(t, op);
      }
    }
  }

  lemma SameVpcNames(t: Tables, t': Tables)
    requires Vlans.OneVlanPerVpc(t.vlans, t.vpcs) && t'.vpcs == t.vpcs
    requires forall v, w | v in t'.vlans && w in t'.vlans :: v.id == w.id ==> v == w
    requires forall v | v in t'.vlans :: exists w | w in t.vlans ::
             w.id == v.id && w.bridgeGroup == v.bridgeGroup && w.vpc == v.vpc
    ensures Vlans.OneVlanPerVpc(t'.vlans, t'.vpcs)
  {
    forall v, w | v in t'.vlans && w in t'.vlans
      ensures (&& v.bridgeGroup == w.bridgeGroup
               && VpcName(t'.vpcs, v).Some? && VpcName(t'.vpcs, v) == VpcName(t'.vpcs, w))
              ==> v == w
    {
      var v0 :| v0 in t.vlans && v0.id == v.id && v0.bridgeGroup == v.bridgeGroup && v0.vpc == v.vpc;
      var w0 :| w0 in t.vlans && w0.id == w.id && w0.bridgeGroup == w.bridgeGroup && w0.vpc == w.vpc;
    }
  }

  lemma KeepsVpcNames(t: Tables, t': Tables)
    requires Db.KeyedNamed(t.vpcs) && Db.KeyedNamed(t'.vpcs) && Vlans.OneVlanPerVpc(t.vlans, t.vpcs)
             && t'.vlans == t.vlans
    requires forall v | v in t.vlans && v.vpc.Some? :: HasNamed(t.vpcs, v.vpc.value)
    requires forall r | r in t'.vpcs :: r in t.vpcs || !HasNamed(t.vpcs, r.id)
    ensures Vlans.OneVlanPerVpc(t'.vlans, t'.vpcs)
  {
    forall v | v in t.vlans
      ensures VpcName(t'.vpcs, v).Some? ==> VpcName(t'.vpcs, v) == VpcName(t.vpcs, v)
    {
    }
  }

  /** Every rename is harmless in the state it meets. */
  ghost predicate NamesKeptApart(ops: seq<Op>) {
    ops == [] || (NamesKeptApart(ops[..|ops| - 1]) && KeepsVpcNamesApart(Run(EMPTY, ops[..|ops| - 1]), ops[|ops| - 1]))
  }

  /** Over every run from the empty database whose renames are harmless, a bridge group has at most one
      VLAN per VPC name. */
  lemma {:induction false} RunsKeepOneVlanPerVpc(ops: seq<Op>)
    requires NamesKeptApart(ops)
    ensures Db.Integrity(Run(EMPTY, ops)) && Db.Keyed(Run(EMPTY, ops))
    ensures Vlans.OneVlanPerVpc(Run(EMPTY, ops).vlans, Run(EMPTY, ops).vpcs)
  {
    if ops != [] {
      var before := Run(EMPTY, ops[..|ops| - 1]);
      RunsKeepOneVlanPerVpc(ops[..|ops| - 1]);
      StepKeepsIntegrity(before, ops[|ops| - 1]);
      StepKeepsKeys(before, ops[|ops| - 1]);
      StepKeepsOneVlanPerVpc(before, ops[|ops| - 1]);
    }
  }

  // ----- names and tags

  /** The patched row half matches no other VLAN of its group. */
  ghost predicate PatchHarmless(t: Tables, id: Id, patch: Db.VlanPatch) {
    forall v, w | v in t.vlans && w in t.vlans && v.id == id && w.id != id && w.bridgeGroup == v.bridgeGroup ::
      !Vlans.HalfMatches(w, Db.Patched(v, patch).name, Db.Patched(v, patch).tag)
  }

  /** An update of a VLAN keeps names and tags one-to-one exactly when the patched row half matches no other
      VLAN of its group: the database does not look. */
  lemma PatchKeepsOneToOneExactly(t: Tables, id: Id, patch: Db.VlanPatch)
    requires Db.Keyed(t) && Vlans.NamesAndTagsOneToOne(t.vlans)
    ensures Vlans.NamesAndTagsOneToOne(Db.WithPatch(t.vlans, id, patch)) <==> PatchHarmless(t, id, patch)
  {
    var vlans := Db.WithPatch(t.vlans, id, patch);
    if PatchHarmless(t, id, patch) {
      HarmlessPatchKeeps(t, id, patch);
    } else {
      var v, w :| v in t.vlans && w in t.vlans && v.id == id && w.id != id && w.bridgeGroup == v.bridgeGroup
                  && Vlans.HalfMatches(w, Db.Patched(v, patch).name, Db.Patched(v, patch).tag);
      var i :| 0 <= i < |t.vlans| && t.vlans[i] == v;
      var j :| 0 <= j < |t.vlans| && t.vlans[j] == w;
      assert vlans[i] in vlans && vlans[j] in vlans;
    }
  }

  lemma HarmlessPatchKeeps(t: Tables, id: Id, patch: Db.VlanPatch)
    requires Db.Keyed(t) && Vlans.NamesAndTagsOneToOne(t.vlans) && PatchHarmless(t, id, patch)
    ensures Vlans.NamesAndTagsOneToOne(Db.WithPatch(t.vlans, id, patch))
  {
    var vlans := Db.WithPatch(t.vlans, id, patch);
    forall v, w | v in vlans && w in vlans
      ensures v.bridgeGroup == w.bridgeGroup ==> (v.name == w.name <==> v.tag == w.tag)
    {
      var i :| 0 <= i < |vlans| && vlans[i] == v;
      var j :| 0 <= j < |vlans| && vlans[j] == w;
      HarmlessPair(t, id, patch, t.vlans[i], t.vlans[j]);
    }
  }

  lemma HarmlessPair(t: Tables, id: Id, patch: Db.VlanPatch, v: VlanRow, w: VlanRow)
    requires Db.Keyed(t) && Vlans.NamesAndTagsOneToOne(t.vlans) && PatchHarmless(t, id, patch)
    requires v in t.vlans && w in t.vlans
    ensures var v' := if v.id == id then Db.Patched(v, patch) else v;
            var w' := if w.id == id then Db.Patched(w, patch) else w;
            v'.bridgeGroup == w'.bridgeGroup ==> (v'.name == w'.name <==> v'.tag == w'.tag)
  {
  }

  /** Only a VLAN request for a VPC and the update of a VLAN can be harmful. */
  ghost predicate KeepsNamesAndTags(t: Tables, op: Op) {
    && (op.CreateVlan? ==> !Vlans.BreaksOneToOne(t, op.request, op.id, true))
    && (op.UpdateVlan? && HasVlan(t, op.id) ==> PatchHarmless(t, op.id, op.vlanPatch))
  }

  /** An operation keeps names and tags one-to-one exactly when it is none of these. */
  lemma StepKeepsOneToOne(t: Tables, op: Op)
    requires Db.Keyed(t) && Vlans.NamesAndTagsOneToOne(t.vlans)
    ensures Vlans.NamesAndTagsOneToOne(Step(t, op).vlans) <==> KeepsNamesAndTags(t, op)
  {
    match op {
      case CreateVlan(request, id) => Vlans.CreateKeepsOneToOneExactly(t, request, id, true);
      case UpdateVlan(id, patch) => PatchKeepsOneToOneExactly(t, id, patch);
      case CreateVpc(_) =>
      case UpdateVpc(_, _) =>
      case DeleteVpc(_) =>
      case DeleteVlan(id) =>
      case _ => StepFrame(t, op);
    }
  }

  /** Every operation is harmless in the state it meets. */
  ghost predicate NamesAndTagsKept(ops: seq<Op>) {
    ops == [] || (NamesAndTagsKept(ops[..|ops| - 1]) && KeepsNamesAndTags(Run(EMPTY, ops[..|ops| - 1]), ops[|ops| - 1]))
  }

  /** Names and tags stay one-to-one over such a run, so the order in which the duplicate check meets the
      VLANs never matters. */
  lemma {:induction false} RunsStayOneToOne(ops: seq<Op>)
    requires NamesAndTagsKept(ops)
    ensures Db.Keyed(Run(EMPTY, ops)) && Vlans.NamesAndTagsOneToOne(Run(EMPTY, ops).vlans)
  {
    if ops != [] {
      var before := Run(EMPTY, ops[..|ops| - 1]);
      RunsStayOneToOne(ops[..|ops| - 1]);
      StepKeepsKeys(before, ops[|ops| - 1]);
      StepKeepsOneToOne(before, ops[|ops| - 1]);
    }
  }

  /** In particular over every run whose VLAN requests name no VPC and whose updates change no name or tag. */
  lemma {:induction false} RunsWithoutVpcsStayOneToOne(ops: seq<Op>)
    requires forall op | op in ops :: op.CreateVlan? ==> !Vlans.NamesVpc(op.request)
    requires forall op | op in ops :: op.UpdateVlan? ==> op.vlanPatch.name.None? && op.vlanPatch.tag.None?
    ensures NamesAndTagsKept(ops) && Vlans.NamesAndTagsOneToOne(Run(EMPTY, ops).vlans)
  {
    if ops != [] {
      var n := |ops| - 1;
      assert ops[n] in ops && forall op | op in ops[..n] :: op in ops;
      RunsWithoutVpcsStayOneToOne(ops[..n]);
      RunsStayOneToOne(ops[..n]);
    }
    RunsStayOneToOne(ops);
  }
}
