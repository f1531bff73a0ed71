/** The tables of the Netforce database that the model covers, and the lookups over their relationships. */
module Schema {
  import opened Prelude
  import opened Cidr
  import opened AddressPool
  import opened Rows

  type Id = nat

  datatype Status = Active | PendingDelete | Error

  datatype Os = Junos | Nxos | Eos | Ios

  /** Bridge groups and VPCs. */
  datatype NamedRow = NamedRow(id: Id, name: string)

  datatype DeviceRow = DeviceRow(bridgeGroup: Option<Id>, isTor: bool, os: Os)

  datatype PortField =
    | Name | AdminStatus | SwitchPortMode | Description | StatusField | StatusDescription | TenantId | AssetId | Label

  /** Column values; None is NULL. */
  type Columns = map<PortField, Option<string>>

  datatype PortRow = PortRow(device: Id, columns: Columns)

  /** Status descriptions; the fixed texts by what they stand for. */
  datatype Note = NewlyActive | ChangesCompleted | ErrorInPushing | Message(text: string)

  datatype VlanRow =
    VlanRow(id: Id, name: string, tag: nat, bridgeGroup: Id, vpc: Option<Id>, status: Status, description: Note)

  datatype AssociationRow = AssociationRow(port: Id, vlan: Id, isNative: bool)

  datatype SubnetRow = SubnetRow(id: Id, cidr: Block, gateway: Address, vlan: Option<Id>, attrs: map<string, string>,
      pool: Option<Pool>)

  type Address = x: nat | x <= MAX_ADDRESS

  datatype Tables = Tables(
    bridgeGroups: seq<NamedRow>,
    vpcs: seq<NamedRow>,
    devices: map<Id, DeviceRow>,
    ports: map<Id, PortRow>,
    vlans: seq<VlanRow>,
    associations: seq<AssociationRow>,
    subnets: seq<SubnetRow>)

  predicate HasNamed(rows: seq<NamedRow>, id: Id) {
    exists r | r in rows :: r.id == id
  }

  predicate HasVlan(t: Tables, id: Id) {
    exists v | v in t.vlans :: v.id == id
  }

  predicate HasSubnet(t: Tables, id: Id) {
    exists s | s in t.subnets :: s.id == id
  }

  /** The first row with the name. */
  function FindByName(rows: seq<NamedRow>, name: string): (r: Option<NamedRow>)
    ensures r.Some? ==> r.value in rows && r.value.name == name
    ensures r.None? ==> forall x | x in rows :: x.name != name
  {
    if rows == [] then None
    else if rows[0].name == name then Some(rows[0])
    else FindByName(rows[1..], name)
  }

  /** The first row it is. */
  lemma {:induction false} FirstNamed(rows: seq<NamedRow>, name: string, k: nat)
    requires k < |rows| && rows[k].name == name && forall j | 0 <= j < k :: rows[j].name != name
    ensures FindByName(rows, name) == Some(rows[k])
  {
    if k > 0 {
      FirstNamed(rows[1..], name, k - 1);
    }
  }

  /** `vlan.vpc.name` and the like: the name behind a foreign key. */
  function NameOf(rows: seq<NamedRow>, id: Id): (r: Option<string>)
    ensures r.Some? <==> HasNamed(rows, id)
    ensures r.Some? ==> exists x | x in rows :: x.id == id && x.name == r.value
  {
    if rows == [] then None
    else if rows[0].id == id then Some(rows[0].name)
    else
      assert forall x | x in rows :: x == rows[0] || x in rows[1..];
      assert forall x | x in rows[1..] :: x in rows;
      NameOf(rows[1..], id)
  }

  function VpcName(vpcs: seq<NamedRow>, v: VlanRow): Option<string> {
    if v.vpc.None? then None else NameOf(vpcs, v.vpc.value)
  }

  /** Where keys identify VPCs, it is the name of the one the VLAN refers to. */
  lemma VpcNameExactly(vpcs: seq<NamedRow>, v: VlanRow, name: string)
    requires forall r, s | r in vpcs && s in vpcs :: r.id == s.id ==> r == s
    ensures VpcName(vpcs, v) == Some(name) <==> exists vpc | vpc in vpcs :: v.vpc == Some(vpc.id) && vpc.name == name
  {
  }

  // ----- the conditions of the queries

  function InGroup(bridgeGroup: Id): VlanRow -> bool {
    (v: VlanRow) => v.bridgeGroup == bridgeGroup
  }

  function OtherVlan(id: Id): VlanRow -> bool {
    (v: VlanRow) => v.id != id
  }

  function OnPort(port: Id): AssociationRow -> bool {
    (a: AssociationRow) => a.port == port
  }

  function OffPort(port: Id): AssociationRow -> bool {
    (a: AssociationRow) => a.port != port
  }

  function OnPorts(ports: set<Id>): AssociationRow -> bool {
    (a: AssociationRow) => a.port in ports
  }

  function OnVlan(vlan: Id): AssociationRow -> bool {
    (a: AssociationRow) => a.vlan == vlan
  }

  function OffVlan(vlan: Id): AssociationRow -> bool {
    (a: AssociationRow) => a.vlan != vlan
  }

  function NotAmong(rows: seq<AssociationRow>): AssociationRow -> bool {
    (a: AssociationRow) => a !in rows
  }

  function OtherNamed(id: Id): NamedRow -> bool {
    (r: NamedRow) => r.id != id
  }

  function OtherSubnet(id: Id): SubnetRow -> bool {
    (s: SubnetRow) => s.id != id
  }

  function VlansOf(t: Tables, bridgeGroup: Id): seq<VlanRow> {
    Filter(t.vlans, InGroup(bridgeGroup))
  }

  function DevicesOf(devices: map<Id, DeviceRow>, bridgeGroup: Id): set<Id> {
    set d | d in devices && devices[d].bridgeGroup == Some(bridgeGroup)
  }

  function AssociationsOf(t: Tables, port: Id): seq<AssociationRow> {
    Filter(t.associations, OnPort(port))
  }

  function FindVlan(vlans: seq<VlanRow>, id: Id): (r: Option<VlanRow>)
    ensures r.Some? ==> r.value in vlans && r.value.id == id
    ensures r.None? ==> forall v | v in vlans :: v.id != id
  {
    if vlans == [] then None
    else if vlans[0].id == id then Some(vlans[0])
    else FindVlan(vlans[1..], id)
  }
}
