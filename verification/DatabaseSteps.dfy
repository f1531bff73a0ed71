/** What each operation of the database stores or removes, what it leaves alone, and when it is refused. */
module DatabaseSteps {
  import opened AddressPool
  import opened Prelude
  import opened Rows
  import opened Schema
  import Db = NetforceDb

  lemma {:induction false} FilterCounts<T(!new)>(rows: seq<T>, p: T -> bool, x: T)
    ensures multiset(Filter(rows, p))[x] == if p(x) then multiset(rows)[x] else 0
  {
    if rows != [] {
      var n := |rows| - 1;
      assert rows == rows[..n] + [rows[n]];
      FilterCounts(rows[..n], p, x);
    }
  }

  // ----- the deletes

  /** A port goes unless associations name it; its row is all that goes. */
  lemma DeletePortExactly(t: Tables, id: Id)
    ensures Db.DeletePort(t, id)
            == if id !in t.ports then Raised(Db.NoResultFound)
               else if exists a | a in t.associations :: a.port == id then Raised(Db.VlansAssociatedToPort)
               else Ok(t.(ports := t.ports - {id}))
  {
    EmptyExactly(t.associations, OnPort(id));
  }

  lemma EmptyExactly<T(!new)>(rows: seq<T>, p: T -> bool)
    ensures Filter(rows, p) == [] <==> forall x | x in rows :: !p(x)
  {
    if Filter(rows, p) != [] {
      assert Filter(rows, p)[0] in Filter(rows, p);
    }
  }

  /** A device goes with its ports and the associations of ports that are not left, each as often as it is
      stored; the other devices, ports and associations stay as they are. */
  lemma DeleteDeviceExactly(t: Tables, id: Id)
    ensures id !in t.devices ==> Db.DeleteDevice(t, id) == Raised(Db.NoResultFound)
    ensures id in t.devices ==>
              && Db.DeleteDevice(t, id).Ok?
              && var t' := Db.DeleteDevice(t, id).value;
                 && t' == t.(devices := t'.devices, ports := t'.ports, associations := t'.associations)
                 && t'.devices == (map d | d in t.devices && d != id :: t.devices[d])
                 && t'.ports == (map p | p in t.ports && t.ports[p].device != id :: t.ports[p])
                 && forall a :: multiset(t'.associations)[a]
                                == if a.port in t.ports && t.ports[a.port].device != id then multiset(t.associations)[a]
                                   else 0
  {
    if id in t.devices {
      var t' := Db.DeleteDevice(t, id).value;
      forall a {
        FilterCounts(t.associations, OnPorts(t'.ports.Keys), a);
      }
    }
  }

  /** A VLAN goes with its associations; its subnets stay, without a VLAN. */
  lemma DeleteVlanExactly(t: Tables, id: Id)
    ensures (forall v | v in t.vlans :: v.id != id) ==> Db.DeleteVlan(t, id) == Raised(Db.NoResultFound)
    ensures (exists v | v in t.vlans :: v.id == id) ==>
              && Db.DeleteVlan(t, id).Ok?
              && var t' := Db.DeleteVlan(t, id).value;
                 && t' == t.(vlans := t'.vlans, associations := t'.associations, subnets := t'.subnets)
                 && (forall v :: multiset(t'.vlans)[v] == if v.id != id then multiset(t.vlans)[v] else 0)
                 && (forall a :: multiset(t'.associations)[a]
                                 == if a.vlan != id then multiset(t.associations)[a] else 0)
                 && |t'.subnets| == |t.subnets|
                 && forall i | 0 <= i < |t.subnets| ::
                      t'.subnets[i] == if t.subnets[i].vlan == Some(id) then t.subnets[i].(vlan := None)
                                       else t.subnets[i]
  {
    if HasVlan(t, id) {
      forall v {
        FilterCounts(t.vlans, OtherVlan(id), v);
      }
      forall a {
        FilterCounts(t.associations, OffVlan(id), a);
      }
    }
  }

  /** Exactly the rows with the key are gone. */
  ghost predicate Without(rows: seq<NamedRow>, id: Id, rows': seq<NamedRow>) {
    forall row :: multiset(rows')[row] == if row.id != id then multiset(rows)[row] else 0
  }

  lemma NamedRowsGo(rows: seq<NamedRow>, id: Id)
    ensures Without(rows, id, Filter(rows, OtherNamed(id)))
  {
    forall row {
      FilterCounts(rows, OtherNamed(id), row);
    }
  }

  /** A VPC goes unless a VLAN has it. */
  lemma DeleteVpcExactly(t: Tables, id: Id)
    ensures var outcome := Db.DeleteVpc(t, id);
            if forall row | row in t.vpcs :: row.id != id then outcome == Raised(Db.NoResultFound)
            else if exists v | v in t.vlans :: v.vpc == Some(id) then outcome == Raised(Db.VlansAssociatedToVpc)
            else outcome.Ok? && outcome.value == t.(vpcs := outcome.value.vpcs)
                 && Without(t.vpcs, id, outcome.value.vpcs)
  {
    NamedRowsGo(t.vpcs, id);
  }

  /** A bridge group goes unless it has VLANs, or else devices. */
  lemma DeleteBridgeGroupExactly(t: Tables, id: Id)
    ensures var outcome := Db.DeleteBridgeGroup(t, id);
            if forall row | row in t.bridgeGroups :: row.id != id then outcome == Raised(Db.NoResultFound)
            else if exists v | v in t.vlans :: v.bridgeGroup == id then
              outcome == Raised(Db.VlanAssociatedToBridgeGroup)
            else if exists d | d in t.devices :: t.devices[d].bridgeGroup == Some(id) then
              outcome == Raised(Db.DevicesAssociatedToBridgeGroup)
            else outcome.Ok? && outcome.value == t.(bridgeGroups := outcome.value.bridgeGroups)
                 && Without(t.bridgeGroups, id, outcome.value.bridgeGroups)
  {
    NamedRowsGo(t.bridgeGroups, id);
    EmptyExactly(t.vlans, InGroup(id));
    if d :| d in t.devices && t.devices[d].bridgeGroup == Some(id) {
      assert d in DevicesOf(t.devices, id);
    }
  }

  /** Flushing a port, and deleting a subnet. */
  lemma RowsGoExactly(t: Tables, id: Id)
    ensures var t' := Db.DeleteAssociationsOfPort(t, id);
            && t' == t.(associations := t'.associations)
            && forall a :: multiset(t'.associations)[a] == if a.port != id then multiset(t.associations)[a] else 0
    ensures var t' := Db.DeleteSubnet(t, id);
            && t' == t.(subnets := t'.subnets)
            && forall s :: multiset(t'.subnets)[s] == if s.id != id then multiset(t.subnets)[s] else 0
  {
    forall a {
      FilterCounts(t.associations, OffPort(id), a);
    }
    forall s {
      FilterCounts(t.subnets, OtherSubnet(id), s);
    }
  }

  // ----- the creates

  /** Bridge groups have unique keys and names, VPCs unique keys only. */
  lemma CreateNamedExactly(t: Tables, row: NamedRow)
    ensures Db.CreateBridgeGroup(t, row)
            == if exists g | g in t.bridgeGroups :: g.id == row.id || g.name == row.name then Raised(Db.Duplicate)
               else Ok(t.(bridgeGroups := t.bridgeGroups + [row]))
    ensures Db.CreateVpc(t, row)
            == if exists g | g in t.vpcs :: g.id == row.id then Raised(Db.Duplicate)
               else Ok(t.(vpcs := t.vpcs + [row]))
  {
  }

  /** Devices and ports are stored under a free key if the row they belong to exists. */
  lemma CreateHardwareExactly(t: Tables, id: Id, device: DeviceRow, port: PortRow)
    ensures Db.CreateDevice(t, id, device)
            == if id in t.devices then Raised(Db.Duplicate)
               else if device.bridgeGroup.Some?
                       && forall g | g in t.bridgeGroups :: g.id != device.bridgeGroup.value then Raised(Db.ForeignKey)
               else Ok(t.(devices := t.devices[id := device]))
    ensures Db.CreatePort(t, id, port)
            == if id in t.ports then Raised(Db.Duplicate)
               else if port.device !in t.devices then Raised(Db.ForeignKey)
               else Ok(t.(ports := t.ports[id := port]))
  {
  }

  /** A VLAN needs a free key, a VPC its bridge group has no VLAN of, and existing rows for both. */
  lemma CreateVlanExactly(t: Tables, row: VlanRow)
    ensures Db.CreateVlan(t, row)
            == if exists v | v in t.vlans ::
                    v.id == row.id || (row.vpc.Some? && v.vpc == row.vpc && v.bridgeGroup == row.bridgeGroup)
                 then Raised(Db.Duplicate)
               else if forall g | g in t.bridgeGroups :: g.id != row.bridgeGroup then Raised(Db.ForeignKey)
               else if row.vpc.Some? && forall g | g in t.vpcs :: g.id != row.vpc.value then Raised(Db.ForeignKey)
               else Ok(t.(vlans := t.vlans + [row]))
  {
  }

  /** An association needs a free pair of port and VLAN and both of them, a subnet a free key and its VLAN. */
  lemma CreateRowsExactly(t: Tables, association: AssociationRow, subnet: SubnetRow)
    ensures Db.CreateAssociation(t, association)
            == if exists a | a in t.associations :: a.port == association.port && a.vlan == association.vlan
                 then Raised(Db.Duplicate)
               else if association.port !in t.ports || forall v | v in t.vlans :: v.id != association.vlan
                 then Raised(Db.ForeignKey)
               else Ok(t.(associations := t.associations + [association]))
    ensures Db.CreateSubnet(t, subnet)
            == if exists s | s in t.subnets :: s.id == subnet.id then Raised(Db.Duplicate)
               else if subnet.vlan.Some? && forall v | v in t.vlans :: v.id != subnet.vlan.value
                 then Raised(Db.ForeignKey)
               else Ok(t.(subnets := t.subnets + [subnet]))
  {
  }

  // ----- the updates

  /** An update overwrites the columns given, in the rows with the key, and nothing else. */
  lemma UpdateVlanExactly(t: Tables, id: Id, patch: Db.VlanPatch)
    ensures (forall v | v in t.vlans :: v.id != id) ==> Db.UpdateVlan(t, id, patch) == Raised(Db.NoResultFound)
    ensures (exists v | v in t.vlans :: v.id == id) ==>
              && Db.UpdateVlan(t, id, patch).Ok?
              && var t' := Db.UpdateVlan(t, id, patch).value;
                 && t' == t.(vlans := t'.vlans) && |t'.vlans| == |t.vlans|
                 && forall i | 0 <= i < |t.vlans| ::
                      var v, v' := t.vlans[i], t'.vlans[i];
                      && v'.id == v.id && v'.bridgeGroup == v.bridgeGroup && v'.vpc == v.vpc
                      && v'.name == (if v.id == id && patch.name.Some? then patch.name.value else v.name)
                      && v'.tag == (if v.id == id && patch.tag.Some? then patch.tag.value else v.tag)
                      && v'.status == (if v.id == id && patch.status.Some? then patch.status.value else v.status)
                      && v'.description == (if v.id == id && patch.description.Some? then patch.description.value
                                            else v.description)
  {
  }

  /** The same of a port's columns, a VPC's name and a subnet's pool. */
  lemma UpdateOthersExactly(t: Tables, id: Id, columns: Columns, name: string, pool: Pool)
    ensures if id !in t.ports then Db.UpdatePort(t, id, columns) == Raised(Db.NoResultFound)
            else
              && Db.UpdatePort(t, id, columns).Ok?
              && var t' := Db.UpdatePort(t, id, columns).value;
                 && t' == t.(ports := t'.ports) && t'.ports.Keys == t.ports.Keys
                 && (forall p | p in t.ports && p != id :: t'.ports[p] == t.ports[p])
                 && t'.ports[id].device == t.ports[id].device
                 && t'.ports[id].columns.Keys == t.ports[id].columns.Keys + columns.Keys
                 && forall f | f in t'.ports[id].columns ::
                      t'.ports[id].columns[f] == if f in columns then columns[f] else t.ports[id].columns[f]
    ensures if forall v | v in t.vpcs :: v.id != id then Db.UpdateVpc(t, id, name) == Raised(Db.NoResultFound)
            else
              && Db.UpdateVpc(t, id, name).Ok?
              && var t' := Db.UpdateVpc(t, id, name).value;
                 && t' == t.(vpcs := t'.vpcs) && |t'.vpcs| == |t.vpcs|
                 && forall i | 0 <= i < |t.vpcs| ::
                      t'.vpcs[i] == NamedRow(t.vpcs[i].id, if t.vpcs[i].id == id then name else t.vpcs[i].name)
    ensures if forall s | s in t.subnets :: s.id != id then Db.UpdateSubnet(t, id, pool) == Raised(Db.NoResultFound)
            else
              && Db.UpdateSubnet(t, id, pool).Ok?
              && var t' := Db.UpdateSubnet(t, id, pool).value;
                 && t' == t.(subnets := t'.subnets) && |t'.subnets| == |t.subnets|
                 && forall i | 0 <= i < |t.subnets| ::
                      t'.subnets[i] == t.subnets[i].(pool := if t.subnets[i].id == id then Some(pool)
                                                             else t.subnets[i].pool)
  {
  }
}
