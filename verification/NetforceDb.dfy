/** The operations of the database mixin on the tables, and the tables' referential integrity. */
module NetforceDb {
  import opened AddressPool
  import opened Prelude
  import opened Rows
  import opened Schema

  datatype DbError =
    | NoResultFound
    | Duplicate
    | ForeignKey
    | VlansAssociatedToPort
    | VlansAssociatedToVpc
    | VlanAssociatedToBridgeGroup
    | DevicesAssociatedToBridgeGroup

  type Outcome = Result<Tables, DbError>

  // ----- each operation as a function of the tables

  function CreateBridgeGroup(t: Tables, row: NamedRow): Outcome {
    if HasNamed(t.bridgeGroups, row.id) || FindByName(t.bridgeGroups, row.name).Some? then Raised(Duplicate)
    else Ok(t.(bridgeGroups := t.bridgeGroups + [row]))
  }

  function CreateVpc(t: Tables, row: NamedRow): Outcome {
    if HasNamed(t.vpcs, row.id) then Raised(Duplicate) else Ok(t.(vpcs := t.vpcs + [row]))
  }

  function CreateDevice(t: Tables, id: Id, row: DeviceRow): Outcome {
    if id in t.devices then Raised(Duplicate)
    else if row.bridgeGroup.Some? && !HasNamed(t.bridgeGroups, row.bridgeGroup.value) then Raised(ForeignKey)
    else Ok(t.(devices := t.devices[id := row]))
  }

  function CreatePort(t: Tables, id: Id, row: PortRow): Outcome {
    if id in t.ports then Raised(Duplicate)
    else if row.device !in t.devices then Raised(ForeignKey)
    else Ok(t.(ports := t.ports[id := row]))
  }

  /** The unique constraint over VPC and bridge group: NULL never collides. */
  predicate VpcTaken(t: Tables, row: VlanRow) {
    row.vpc.Some? && exists v | v in t.vlans :: v.vpc == row.vpc && v.bridgeGroup == row.bridgeGroup
  }

  /** `create_vlan_by_bg_and_vpc`. */
  function CreateVlan(t: Tables, row: VlanRow): Outcome {
    if HasVlan(t, row.id) || VpcTaken(t, row) then Raised(Duplicate)
    else if !HasNamed(t.bridgeGroups, row.bridgeGroup) then Raised(ForeignKey)
    else if row.vpc.Some? && !HasNamed(t.vpcs, row.vpc.value) then Raised(ForeignKey)
    else Ok(t.(vlans := t.vlans + [row]))
  }

  function CreateAssociation(t: Tables, row: AssociationRow): Outcome {
    if exists a | a in t.associations :: a.port == row.port && a.vlan == row.vlan then Raised(Duplicate)
    else if row.port !in t.ports || !HasVlan(t, row.vlan) then Raised(ForeignKey)
    else Ok(t.(associations := t.associations + [row]))
  }

  function CreateSubnet(t: Tables, row: SubnetRow): Outcome {
    if HasSubnet(t, row.id) then Raised(Duplicate)
    else if row.vlan.Some? && !HasVlan(t, row.vlan.value) then Raised(ForeignKey)
    else Ok(t.(subnets := t.subnets + [row]))
  }

  function DeleteAssociationsOfPort(t: Tables, port: Id): Tables {
    t.(associations := Filter(t.associations, OffPort(port)))
  }

  function DeletePort(t: Tables, id: Id): Outcome {
    if id !in t.ports then Raised(NoResultFound)
    else if AssociationsOf(t, id) != [] then Raised(VlansAssociatedToPort)
    else Ok(t.(ports := t.ports - {id}))
  }

  /** Deleting a device takes its ports with it, and their associations. */
  function DeleteDevice(t: Tables, id: Id): Outcome {
    if id !in t.devices then Raised(NoResultFound)
    else
      var kept := map p | p in t.ports && t.ports[p].device != id :: t.ports[p];
      Ok(t.(devices := t.devices - {id}, ports := kept,
            associations := Filter(t.associations, OnPorts(kept.Keys))))
  }

  /** Deleting a VLAN takes its associations; its subnets lose their VLAN. */
  function DeleteVlan(t: Tables, id: Id): Outcome {
    if !HasVlan(t, id) then Raised(NoResultFound)
    else
      Ok(t.(vlans := Filter(t.vlans, OtherVlan(id)),
            associations := Filter(t.associations, OffVlan(id)),
            subnets := Detached(t.subnets, id)))
  }

  function Detached(subnets: seq<SubnetRow>, vlan: Id): (r: seq<SubnetRow>)
    ensures |r| == |subnets|
    ensures forall i | 0 <= i < |r| ::
              r[i] == if subnets[i].vlan == Some(vlan) then subnets[i].(vlan := None) else subnets[i]
  {
    seq(|subnets|, i requires 0 <= i < |subnets| =>
      if subnets[i].vlan == Some(vlan) then subnets[i].(vlan := None) else subnets[i])
  }

  function DeleteVpc(t: Tables, id: Id): Outcome {
    if !HasNamed(t.vpcs, id) then Raised(NoResultFound)
    else if exists v | v in t.vlans :: v.vpc == Some(id) then Raised(VlansAssociatedToVpc)
    else Ok(t.(vpcs := Filter(t.vpcs, OtherNamed(id))))
  }

  function DeleteBridgeGroup(t: Tables, id: Id): Outcome {
    if !HasNamed(t.bridgeGroups, id) then Raised(NoResultFound)
    else if VlansOf(t, id) != [] then Raised(VlanAssociatedToBridgeGroup)
    else if DevicesOf(t.devices, id) != {} then Raised(DevicesAssociatedToBridgeGroup)
    else Ok(t.(bridgeGroups := Filter(t.bridgeGroups, OtherNamed(id))))
  }

  function DeleteSubnet(t: Tables, id: Id): Tables {
    t.(subnets := Filter(t.subnets, OtherSubnet(id)))
  }

  function WithPool(subnets: seq<SubnetRow>, id: Id, pool: Pool): (r: seq<SubnetRow>)
    ensures |r| == |subnets|
    ensures forall i | 0 <= i < |r| ::
              r[i] == if subnets[i].id == id then subnets[i].(pool := Some(pool)) else subnets[i]
  {
    seq(|subnets|, i requires 0 <= i < |subnets| =>
      if subnets[i].id == id then subnets[i].(pool := Some(pool)) else subnets[i])
  }

  /** `update_subnet` with the allocation range. */
  function UpdateSubnet(t: Tables, id: Id, pool: Pool): Outcome {
    if !HasSubnet(t, id) then Raised(NoResultFound) else Ok(t.(subnets := WithPool(t.subnets, id, pool)))
  }

  function UpdatePort(t: Tables, id: Id, patch: Columns): Outcome {
    if id !in t.ports then Raised(NoResultFound)
    else Ok(t.(ports := t.ports[id := t.ports[id].(columns := t.ports[id].columns + patch)]))
  }

  /** The columns an update of a VLAN may carry. */
  datatype VlanPatch = VlanPatch(name: Option<string>, tag: Option<nat>, status: Option<Status>,
      description: Option<Note>)

  function OnlyStatus(status: Status): VlanPatch {
    VlanPatch(None, None, Some(status), None)
  }

  function StatusAnd(status: Status, description: Note): VlanPatch {
    VlanPatch(None, None, Some(status), Some(description))
  }

  function OrElse<T>(o: Option<T>, x: T): T {
    if o.Some? then o.value else x
  }

  function Patched(v: VlanRow, patch: VlanPatch): VlanRow {
    v.(name := OrElse(patch.name, v.name), tag := OrElse(patch.tag, v.tag),
       status := OrElse(patch.status, v.status), description := OrElse(patch.description, v.description))
  }

  function WithPatch(vlans: seq<VlanRow>, id: Id, patch: VlanPatch): (r: seq<VlanRow>)
    ensures |r| == |vlans|
    ensures forall i | 0 <= i < |r| :: r[i] == if vlans[i].id == id then Patched(vlans[i], patch) else vlans[i]
  {
    seq(|vlans|, i requires 0 <= i < |vlans| => if vlans[i].id == id then Patched(vlans[i], patch) else vlans[i])
  }

  function UpdateVlan(t: Tables, id: Id, patch: VlanPatch): Outcome {
    if !HasVlan(t, id) then Raised(NoResultFound) else Ok(t.(vlans := WithPatch(t.vlans, id, patch)))
  }

  function WithName(rows: seq<NamedRow>, id: Id, name: string): (r: seq<NamedRow>)
    ensures |r| == |rows|
    ensures forall i | 0 <= i < |r| :: r[i] == if rows[i].id == id then rows[i].(name := name) else rows[i]
  {
    seq(|rows|, i requires 0 <= i < |rows| => if rows[i].id == id then rows[i].(name := name) else rows[i])
  }

  /** `update_vpc` with a new name; nothing keeps two VPCs from having the same. */
  function UpdateVpc(t: Tables, id: Id, name: string): Outcome {
    if !HasNamed(t.vpcs, id) then Raised(NoResultFound) else Ok(t.(vpcs := WithName(t.vpcs, id, name)))
  }

  // ----- referential integrity

  ghost predicate KeyedNamed(rows: seq<NamedRow>) {
    forall r, s | r in rows && s in rows :: r.id == s.id ==> r == s
  }

  /** Primary keys identify rows. */
  ghost predicate Keyed(t: Tables) {
    && KeyedNamed(t.bridgeGroups)
    && KeyedNamed(t.vpcs)
    && (forall v, w | v in t.vlans && w in t.vlans :: v.id == w.id ==> v == w)
    && (forall r, s | r in t.subnets && s in t.subnets :: r.id == s.id ==> r == s)
  }

  ghost predicate Integrity(t: Tables) {
    && (forall a | a in t.associations :: a.port in t.ports && HasVlan(t, a.vlan))
    && (forall v | v in t.vlans :: HasNamed(t.bridgeGroups, v.bridgeGroup)
                                   && (v.vpc.Some? ==> HasNamed(t.vpcs, v.vpc.value)))
    && (forall p | p in t.ports :: t.ports[p].device in t.devices)
    && (forall d | d in t.devices ::
          t.devices[d].bridgeGroup.Some? ==> HasNamed(t.bridgeGroups, t.devices[d].bridgeGroup.value))
    && (forall s | s in t.subnets :: s.vlan.Some? ==> HasVlan(t, s.vlan.value))
  }

  /** The unique constraint over port and VLAN: no pair is stored twice. */
  ghost predicate UniquePairs(rows: seq<AssociationRow>) {
    forall i, j | 0 <= i < j < |rows| :: rows[i].port != rows[j].port || rows[i].vlan != rows[j].vlan
  }

  lemma {:induction false} FilterKeepsUnique(rows: seq<AssociationRow>, p: AssociationRow -> bool)
    requires UniquePairs(rows)
    ensures UniquePairs(Filter(rows, p))
  {
    if rows != [] {
      var n := |rows| - 1;
      FilterKeepsUnique(rows[..n], p);
      var kept := Filter(rows[..n], p);
      forall i | 0 <= i < |kept|
        ensures kept[i].port != rows[n].port || kept[i].vlan != rows[n].vlan
      {
        assert kept[i] in rows[..n];
        var j :| 0 <= j < n && rows[j] == kept[i];
      }
    }
  }

  // ----- the tables as the session changes them

  /** The operation's outcome: new tables and no exception, or the exception and the old tables. */
  ghost predicate Did(outcome: Outcome, before: Tables, after: Tables, e: Option<DbError>) {
    match outcome
    case Ok(t) => e == None && after == t
    case Raised(error) => e == Some(error) && after == before
  }

  class Session {
    var bridgeGroups: seq<NamedRow>
    var vpcs: seq<NamedRow>
    var devices: map<Id, DeviceRow>
    var ports: map<Id, PortRow>
    var vlans: seq<VlanRow>
    var associations: seq<AssociationRow>
    var subnets: seq<SubnetRow>

    function View(): Tables
      reads this
    {
      Tables(bridgeGroups, vpcs, devices, ports, vlans, associations, subnets)
    }

    constructor (t: Tables)
      ensures View() == t
    {
      bridgeGroups, vpcs, devices, ports := t.bridgeGroups, t.vpcs, t.devices, t.ports;
      vlans, associations, subnets := t.vlans, t.associations, t.subnets;
    }

    /** Leaving `session.begin` by an exception: the tables are as they were on entry. */
    method Restore(t: Tables)
      modifies this
      ensures View() == t
    {
      bridgeGroups, vpcs, devices, ports := t.bridgeGroups, t.vpcs, t.devices, t.ports;
      vlans, associations, subnets := t.vlans, t.associations, t.subnets;
    }

    method AddAssociation(row: AssociationRow) returns (e: Option<DbError>)
      modifies this`associations
      ensures Did(CreateAssociation(old(View()), row), old(View()), View(), e)
    {
      if exists a | a in associations :: a.port == row.port && a.vlan == row.vlan {
        return Some(Duplicate);
      }
      if row.port !in ports || !HasVlan(View(), row.vlan) {
        return Some(ForeignKey);
      }
      associations := associations + [row];
      return None;
    }

    method RemoveAssociationsOfPort(port: Id)
      modifies this`associations
      ensures View() == DeleteAssociationsOfPort(old(View()), port)
    {
      associations := Filter(associations, OffPort(port));
    }

    method AddSubnet(row: SubnetRow) returns (e: Option<DbError>)
      modifies this`subnets
      ensures Did(CreateSubnet(old(View()), row), old(View()), View(), e)
    {
      if HasSubnet(View(), row.id) {
        return Some(Duplicate);
      }
      if row.vlan.Some? && !HasVlan(View(), row.vlan.value) {
        return Some(ForeignKey);
      }
      subnets := subnets + [row];
      return None;
    }

    method SetSubnetPool(id: Id, pool: Pool) returns (e: Option<DbError>)
      modifies this`subnets
      ensures Did(UpdateSubnet(old(View()), id, pool), old(View()), View(), e)
    {
      if !HasSubnet(View(), id) {
        return Some(NoResultFound);
      }
      subnets := WithPool(subnets, id, pool);
      return None;
    }

    method AddVlan(row: VlanRow) returns (e: Option<DbError>)
      modifies this`vlans
      ensures Did(CreateVlan(old(View()), row), old(View()), View(), e)
    {
      if HasVlan(View(), row.id) || VpcTaken(View(), row) {
        return Some(Duplicate);
      }
      if !HasNamed(bridgeGroups, row.bridgeGroup) || (row.vpc.Some? && !HasNamed(vpcs, row.vpc.value)) {
        return Some(ForeignKey);
      }
      vlans := vlans + [row];
      return None;
    }

    method SetPortColumns(id: Id, patch: Columns) returns (e: Option<DbError>)
      modifies this`ports
      ensures Did(UpdatePort(old(View()), id, patch), old(View()), View(), e)
    {
      if id !in ports {
        return Some(NoResultFound);
      }
      ports := ports[id := ports[id].(columns := ports[id].columns + patch)];
      return None;
    }

    method SetVpcName(id: Id, name: string) returns (e: Option<DbError>)
      modifies this`vpcs
      ensures Did(UpdateVpc(old(View()), id, name), old(View()), View(), e)
    {
      if !HasNamed(vpcs, id) {
        return Some(NoResultFound);
      }
      vpcs := WithName(vpcs, id, name);
      return None;
    }

    method SetVlan(id: Id, patch: VlanPatch) returns (e: Option<DbError>)
      modifies this`vlans
      ensures Did(UpdateVlan(old(View()), id, patch), old(View()), View(), e)
    {
      if !HasVlan(View(), id) {
        return Some(NoResultFound);
      }
      vlans := WithPatch(vlans, id, patch);
      return None;
    }

    method RemovePort(id: Id) returns (e: Option<DbError>)
      modifies this`ports
      ensures Did(DeletePort(old(View()), id), old(View()), View(), e)
    {
      if id !in ports {
        return Some(NoResultFound);
      }
      if |AssociationsOf(View(), id)| > 0 {
        return Some(VlansAssociatedToPort);
      }
      ports := ports - {id};
      return None;
    }

    method RemoveDevice(id: Id) returns (e: Option<DbError>)
      modifies this`devices, this`ports, this`associations
      ensures Did(DeleteDevice(old(View()), id), old(View()), View(), e)
    {
      if id !in devices {
        return Some(NoResultFound);
      }
      ports := map p | p in ports && ports[p].device != id :: ports[p];
      associations := Filter(associations, OnPorts(ports.Keys));
      devices := devices - {id};
      return None;
    }

    method RemoveVpc(id: Id) returns (e: Option<DbError>)
      modifies this`vpcs
      ensures Did(DeleteVpc(old(View()), id), old(View()), View(), e)
    {
      if !HasNamed(vpcs, id) {
        return Some(NoResultFound);
      }
      if exists v | v in vlans :: v.vpc == Some(id) {
        return Some(VlansAssociatedToVpc);
      }
      vpcs := Filter(vpcs, OtherNamed(id));
      return None;
    }

    method RemoveBridgeGroup(id: Id) returns (e: Option<DbError>)
      modifies this`bridgeGroups
      ensures Did(DeleteBridgeGroup(old(View()), id), old(View()), View(), e)
    {
      if !HasNamed(bridgeGroups, id) {
        return Some(NoResultFound);
      }
      if |VlansOf(View(), id)| > 0 {
        return Some(VlanAssociatedToBridgeGroup);
      }
      if DevicesOf(devices, id) != {} {
        return Some(DevicesAssociatedToBridgeGroup);
      }
      bridgeGroups := Filter(bridgeGroups, OtherNamed(id));
      return None;
    }

    /** `delete_vlanportassociation`. */
    method RemoveAssociation(row: AssociationRow)
      modifies this`associations
      ensures associations == Without(old(associations), [row])
    {
      associations := Without(associations, [row]);
    }

    /** `delete_vlan`: the loop deletes the VLAN's associations one by one, then the VLAN. */
    method RemoveVlan(id: Id) returns (e: Option<DbError>)
      modifies this`vlans, this`associations, this`subnets
      ensures Did(DeleteVlan(old(View()), id), old(View()), View(), e)
    {
      if !HasVlan(View(), id) {
        return Some(NoResultFound);
      }
      var doomed := Filter(associations, OnVlan(id));
      FilterAll(associations, NotAmong([]));
      for k := 0 to |doomed|
        invariant associations == Without(old(associations), doomed[..k])
        invariant vlans == old(vlans) && subnets == old(subnets)
      {
        WithoutStep(old(associations), doomed, k);
        RemoveAssociation(doomed[k]);
      }
      assert doomed[..|doomed|] == doomed;
      WithoutAllOfVlan(old(associations), id);
      vlans := Filter(vlans, OtherVlan(id));
      subnets := Detached(subnets, id);
      return None;
    }
  }

  function Without(rows: seq<AssociationRow>, dead: seq<AssociationRow>): seq<AssociationRow> {
    Filter(rows, NotAmong(dead))
  }

  lemma WithoutStep(rows: seq<AssociationRow>, dead: seq<AssociationRow>, k: nat)
    requires k < |dead|
    ensures Without(Without(rows, dead[..k]), [dead[k]]) == Without(rows, dead[..k + 1])
  {
    var p, q := NotAmong(dead[..k]), NotAmong([dead[k]]);
    FilterTwice(rows, p, q);
    assert dead[..k + 1] == dead[..k] + [dead[k]];
    FilterSame(rows, Both(p, q), NotAmong(dead[..k + 1]));
  }

  lemma WithoutAllOfVlan(rows: seq<AssociationRow>, vlan: Id)
    ensures Without(rows, Filter(rows, OnVlan(vlan))) == Filter(rows, OffVlan(vlan))
  {
    FilterSame(rows, NotAmong(Filter(rows, OnVlan(vlan))), OffVlan(vlan));
  }
}
