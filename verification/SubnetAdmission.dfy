/**
 `create_subnet`: checks, row, route pre-check, push to the switch, route post-check, compensation,
 allocation, all inside one database transaction the switch knows nothing about.
 */
module SubnetAdmission {
  import opened Prelude
  import opened Cidr
  import opened Schema
  import opened BubbleRoutes
  import Pools = AddressPool
  import Db = NetforceDb
  import L3 = L3Interface

  datatype Config = Config(
    enabled: bool,
    defaultReserve: nat,
    allowed: Block,
    allowedVpcs: set<string>,
    maxSubnets: nat)

  datatype Request = Request(cidr: CidrText, gateway: Address, vlan: Id, attrs: map<string, string>,
      reserve: Option<int>)

  datatype Flags = Flags(skipDevice: bool, patchPrimary: bool, oneSubnetOnly: bool)

  const NO_FLAGS := Flags(false, false, false)

  /** What asking the bubble for its routes comes to. */
  datatype RouteFetch = NoBubbleDevices | NoneAnswers | FetchFailed | Fetched(routes: seq<CidrText>)

  /** The outside world during one call. */
  datatype Environment = Environment(before: RouteFetch, after: RouteFetch, push: Fault, undo: Fault, commits: bool)

  datatype Error =
    | OperationNotSupported
    | InvalidSubnetCidr
    | SubnetIsNotAllowed
    | ConfiguredSubnetConflicts
    | ReserveCountTooSmall
    | SubnetAlreadyConfigured(existing: SubnetRow)
    | Refused(reason: Db.DbError)
    | VlanWithoutVpc
    | VpcNotAllowed
    | OnlyOneDeviceAllowed
    | NoDeviceFound
    | BadDeviceType
    | PreValidationFailed
    | DeviceError(cause: L3.Error)
    | PostValidationFailed
    | AllocationFailed(problem: Pools.Error)
    | CommitFailed

  /** The interfaces of every reachable switch. */
  type Network = map<Id, L3.Interfaces>

  datatype World = World(tables: Tables, network: Network)

  type Answer = Result<SubnetRow, Error>

  // ----- the database checks

  function FindByCidr(subnets: seq<SubnetRow>, cidr: Block): (r: Option<SubnetRow>)
    ensures r.Some? ==> r.value in subnets && r.value.cidr == cidr
    ensures r.None? ==> forall s | s in subnets :: s.cidr != cidr
  {
    if subnets == [] then None
    else if subnets[0].cidr == cidr then Some(subnets[0])
    else FindByCidr(subnets[1..], cidr)
  }

  /** The rows' blocks as `_get_overlapping_subnet` reads them: its scan is the drivers' scan over these. */
  function CidrsOf(subnets: seq<SubnetRow>): (r: seq<Block>)
    ensures |r| == |subnets| && forall i | 0 <= i < |r| :: r[i] == subnets[i].cidr
  {
    seq(|subnets|, i requires 0 <= i < |subnets| => subnets[i].cidr)
  }

  function FirstOverlappingRow(subnets: seq<SubnetRow>, cidr: Block): Option<SubnetRow> {
    if subnets == [] then None
    else if Overlaps(cidr, subnets[0].cidr) then Some(subnets[0])
    else FirstOverlappingRow(subnets[1..], cidr)
  }

  /** The database scan and the interface scan are the same scan. */
  lemma {:induction false} RowScanIsBlockScan(subnets: seq<SubnetRow>, cidr: Block)
    ensures FirstOverlappingRow(subnets, cidr).Some? <==> L3.FirstOverlap(CidrsOf(subnets), cidr).Some?
    ensures FirstOverlappingRow(subnets, cidr).Some? ==>
              FirstOverlappingRow(subnets, cidr).value in subnets
              && L3.FirstOverlap(CidrsOf(subnets), cidr) == Some(FirstOverlappingRow(subnets, cidr).value.cidr)
  {
    if subnets != [] {
      assert CidrsOf(subnets)[1..] == CidrsOf(subnets[1..]);
      RowScanIsBlockScan(subnets[1..], cidr);
    }
  }

  /** A stored subnet is found as overlapping exactly when some stored block shares an address with the new one. */
  lemma OverlappingRowExact(subnets: seq<SubnetRow>, cidr: Block)
    ensures FirstOverlappingRow(subnets, cidr).None? <==> forall s | s in subnets :: !Shares(cidr, s.cidr)
  {
    RowScanIsBlockScan(subnets, cidr);
    L3.FirstOverlapExact(CidrsOf(subnets), cidr);
    if L3.FirstOverlap(CidrsOf(subnets), cidr).Some? {
      var k :| 0 <= k < |subnets| && Shares(cidr, CidrsOf(subnets)[k]);
      assert subnets[k] in subnets && Shares(cidr, subnets[k].cidr);
    } else {
      forall s | s in subnets ensures !Shares(cidr, s.cidr) {
        var k :| 0 <= k < |subnets| && subnets[k] == s;
        assert !Shares(cidr, CidrsOf(subnets)[k]);
      }
    }
  }

  /** `_check_subnet_mismatch`: a requested field that the stored row has otherwise. */
  predicate Mismatch(row: SubnetRow, r: Request) {
    row.gateway != r.gateway || row.vlan != Some(r.vlan)
    || exists k | k in row.attrs :: k in r.attrs && row.attrs[k] != r.attrs[k]
  }

  function Reserve(c: Config, r: Request): int {
    if r.reserve.Some? then r.reserve.value else c.defaultReserve
  }

  /** The steps before the transaction: an existing row to return, None to go on, or the exception. */
  function Admit(c: Config, t: Tables, r: Request, f: Flags): Result<Option<SubnetRow>, Error> {
    if !c.enabled then Raised(OperationNotSupported)
    else if r.cidr.Malformed? then Raised(InvalidSubnetCidr)
    else if !Contains(c.allowed, r.cidr.block) then Raised(SubnetIsNotAllowed)
    else
      match FindByCidr(t.subnets, r.cidr.block)
      case Some(row) => if Mismatch(row, r) then Raised(ConfiguredSubnetConflicts) else Ok(Some(row))
      case None =>
        if f.patchPrimary || f.skipDevice then Ok(None)
        else if Reserve(c, r) < c.defaultReserve then Raised(ReserveCountTooSmall)
        else
          match FirstOverlappingRow(t.subnets, r.cidr.block)
          case Some(row) => Raised(SubnetAlreadyConfigured(row))
          case None => Ok(None)
  }

  // ----- where the subnet goes

  /** The switch and the interface of a VLAN. */
  datatype Place = Place(device: Id, os: Os, tag: int)

  ghost function TheOne(s: set<Id>): (x: Id)
    requires |s| == 1
    ensures s == {x}
  {
    var x :| x in s;
    assert |s - {x}| == 0;
    x
  }

  ghost function Locate(c: Config, t: Tables, vlan: Id): Result<Place, Error> {
    match FindVlan(t.vlans, vlan)
    case None => Raised(VlanWithoutVpc)
    case Some(v) =>
      match VpcName(t.vpcs, v)
      case None => Raised(VlanWithoutVpc)
      case Some(vpc) =>
        var devices := DevicesOf(t.devices, v.bridgeGroup);
        if vpc !in c.allowedVpcs then Raised(VpcNotAllowed)
        else if |devices| > 1 then Raised(OnlyOneDeviceAllowed)
        else if |devices| < 1 then Raised(NoDeviceFound)
        else
          var d := TheOne(devices);
          if !t.devices[d].isTor then Raised(BadDeviceType) else Ok(Place(d, t.devices[d].os, v.tag))
  }

  // ----- the switch

  /** The address pushed: the gateway with the subnet's prefix length. */
  function GatewayAddress(r: Request): Block
    requires r.cidr.Cidr?
  {
    Block(r.gateway, r.cidr.block.prefixlen)
  }

  function InterfaceAt(n: Network, p: Place): L3.Interface {
    if p.device in n && p.tag in n[p.device] then n[p.device][p.tag] else []
  }

  function WithInterface(n: Network, p: Place, i: L3.Interface): Network
    requires p.device in n
  {
    n[p.device := n[p.device][p.tag := i]]
  }

  /** `_configure_subnet_on_device`. */
  function Configure(c: Config, n: Network, p: Place, b: Block, f: Flags, fault: Fault): (Network, Option<L3.Error>) {
    if p.device !in n then (n, Some(L3.ConnectionLost))
    else if p.os == Ios then (n, None)
    else if p.tag !in n[p.device] then (n, Some(L3.EntityDoesNotExist))
    else
      var i := n[p.device][p.tag];
      var (i', e) := if f.patchPrimary && p.os == Junos then L3.Patched(i, b, f.oneSubnetOnly, fault)
                     else L3.Created(p.os, i, b, c.maxSubnets, fault);
      (WithInterface(n, p, i'), e)
  }

  /** `_delete_subnet_on_device`, whose exception the caller only logs. */
  function Undo(n: Network, p: Place, b: Block, fault: Fault): Network {
    if p.device !in n || p.os == Ios || p.tag !in n[p.device] then n
    else WithInterface(n, p, L3.Deleted(p.os, n[p.device][p.tag], b, fault).0)
  }

  ghost predicate RoutesPass(fetch: RouteFetch, cidr: Block, kind: Kind) {
    fetch.Fetched? && (if kind == Post then PassesPost(cidr, fetch.routes) else PassesPre(cidr, fetch.routes))
  }

  // ----- the whole call

  function NewRow(r: Request, id: Id, pool: Option<Pools.Pool>): SubnetRow
    requires r.cidr.Cidr?
  {
    SubnetRow(id, r.cidr.block, r.gateway, Some(r.vlan), r.attrs, pool)
  }

  /** `create_subnet`: the world it leaves and its answer. */
  ghost function Create(c: Config, w: World, r: Request, f: Flags, env: Environment, id: Id): (World, Answer) {
    match Admit(c, w.tables, r, f)
    case Raised(e) => (w, Raised(e))
    case Ok(Some(row)) => (w, Ok(row))
    case Ok(None) =>
      match Db.CreateSubnet(w.tables, NewRow(r, id, None))
      case Raised(e) => (w, Raised(Refused(e)))
      case Ok(stored) =>
        if f.skipDevice then
          if env.commits then (w.(tables := stored), Ok(NewRow(r, id, None))) else (w, Raised(CommitFailed))
        else
          match Locate(c, w.tables, r.vlan)
          case Raised(e) => (w, Raised(e))
          case Ok(place) =>
            if !f.patchPrimary && !RoutesPass(env.before, r.cidr.block, Pre) then (w, Raised(PreValidationFailed))
            else Push(c, w, r, f, env, id, place)
  }

  /** The rest of the call, from the push on. */
  ghost function Push(c: Config, w: World, r: Request, f: Flags, env: Environment, id: Id, place: Place)
      : (World, Answer)
    requires r.cidr.Cidr?
  {
    var (n, e) := Configure(c, w.network, place, GatewayAddress(r), f, env.push);
    if e.Some? then (w.(network := n), Raised(DeviceError(e.value)))
    else if !f.patchPrimary && !RoutesPass(env.after, r.cidr.block, Post) then
      (w.(network := Undo(n, place, GatewayAddress(r), env.undo)), Raised(PostValidationFailed))
    else
      match Pools.AllocationRange(r.cidr.block, Reserve(c, r))
      case Raised(e) => (w.(network := n), Raised(AllocationFailed(e)))
      case Ok(pool) =>
        var row := NewRow(r, id, Some(pool));
        if !env.commits then (w.(network := n), Raised(CommitFailed))
        else (World(w.tables.(subnets := w.tables.subnets + [row]), n), Ok(row))
  }

  // ----- the plugin

  class SubnetPlugin {
    const config: Config
    const session: Db.Session
    var network: Network

    constructor (config: Config, session: Db.Session, network: Network)
      ensures this.config == config && this.session == session && this.network == network
    {
      this.config, this.session, this.network := config, session, network;
    }

    ghost function View(): World
      reads this, session
    {
      World(session.View(), network)
    }

    method GetOverlappingSubnet(subnets: seq<SubnetRow>, cidr: Block) returns (r: Option<SubnetRow>)
      ensures r == FirstOverlappingRow(subnets, cidr)
    {
      for k := 0 to |subnets|
        invariant FirstOverlappingRow(subnets, cidr) == FirstOverlappingRow(subnets[k..], cidr)
      {
        assert subnets[k..][1..] == subnets[k + 1..];
        var other := subnets[k].cidr;
        if cidr.prefixlen < other.prefixlen {
          if Contains(cidr, other) {
            return Some(subnets[k]);
          }
        } else {
          if Contains(other, cidr) {
            return Some(subnets[k]);
          }
        }
      }
      return None;
    }

    /** `_validate_subnet_push`: whether it returned. */
    method ValidateSubnetPush(fetch: RouteFetch, cidr: Block, kind: Kind) returns (passes: bool)
      requires kind == Pre || kind == Post
      ensures passes <==> RoutesPass(fetch, cidr, kind)
    {
      if !fetch.Fetched? {
        return false;
      }
      var e := CheckCidrOverlap(cidr, fetch.routes, kind);
      return e == None;
    }

    method FindPlace(vlan: Id) returns (r: Result<Place, Error>)
      ensures r == Locate(config, session.View(), vlan)
    {
      var t := session.View();
      var found := FindVlan(t.vlans, vlan);
      if found.None? {
        return Raised(VlanWithoutVpc);
      }
      var v := found.value;
      var vpc := VpcName(t.vpcs, v);
      if vpc.None? {
        return Raised(VlanWithoutVpc);
      }
      if vpc.value !in config.allowedVpcs {
        return Raised(VpcNotAllowed);
      }
      var devices := DevicesOf(t.devices, v.bridgeGroup);
      if |devices| > 1 {
        return Raised(OnlyOneDeviceAllowed);
      } else if |devices| < 1 {
        return Raised(NoDeviceFound);
      }
      assert devices == {TheOne(devices)};
      var d :| d in devices;
      return if !t.devices[d].isTor then Raised(BadDeviceType) else Ok(Place(d, t.devices[d].os, v.tag));
    }

    method ConfigureOnDevice(p: Place, b: Block, f: Flags, fault: Fault) returns (e: Option<L3.Error>)
      modifies this`network
      ensures (network, e) == Configure(config, old(network), p, b, f, fault)
    {
      if p.device !in network {
        return Some(L3.ConnectionLost);
      }
      assert network == network[p.device := network[p.device]];
      var driver := new L3.Driver(p.os, config.maxSubnets, network[p.device]);
      if f.patchPrimary && p.os == Junos {
        e := driver.SetSubnetPrimary(b, p.tag, f.oneSubnetOnly, fault);
      } else {
        e := driver.CreateSubnet(b, p.tag, fault);
      }
      network := network[p.device := driver.ifaces];
    }

    method DeleteOnDevice(p: Place, b: Block, fault: Fault)
      modifies this`network
      ensures network == Undo(old(network), p, b, fault)
    {
      if p.device !in network {
        return;
      }
      assert network == network[p.device := network[p.device]];
      var driver := new L3.Driver(p.os, config.maxSubnets, network[p.device]);
      var e := driver.DeleteSubnet(b, p.tag, fault);
      network := network[p.device := driver.ifaces];
    }

    /** The checks before the transaction: an existing row to return, None to go on, or the exception. */
    method AdmitRequest(r: Request, f: Flags) returns (admitted: Result<Option<SubnetRow>, Error>)
      ensures admitted == Admit(config, session.View(), r, f)
    {
      if !config.enabled {
        return Raised(OperationNotSupported);
      }
      if r.cidr.Malformed? {
        return Raised(InvalidSubnetCidr);
      }
      var cidr := r.cidr.block;
      if !Contains(config.allowed, cidr) {
        return Raised(SubnetIsNotAllowed);
      }
      var existing := FindByCidr(session.subnets, cidr);
      if existing.Some? {
        if Mismatch(existing.value, r) {
          return Raised(ConfiguredSubnetConflicts);
        }
        return Ok(existing);
      }
      if !f.patchPrimary && !f.skipDevice {
        if Reserve(config, r) < config.defaultReserve {
          return Raised(ReserveCountTooSmall);
        }
        var overlapping := GetOverlappingSubnet(session.subnets, cidr);
        if overlapping.Some? {
          return Raised(SubnetAlreadyConfigured(overlapping.value));
        }
      }
      return Ok(None);
    }

    method CreateSubnet(r: Request, f: Flags, env: Environment, id: Id) returns (answer: Answer)
      modifies this`network, session
      ensures (View(), answer) == Create(config, old(View()), r, f, env, id)
    {
      var admitted := AdmitRequest(r, f);
      if admitted.Raised? {
        return Raised(admitted.error);
      }
      if admitted.value.Some? {
        return Ok(admitted.value.value);
      }
      var reserve := config.defaultReserve as int;
      if r.reserve.Some? {
        reserve := r.reserve.value;
      }
      var saved := session.View();
      var refused := session.AddSubnet(NewRow(r, id, None));
      if refused.Some? {
        return Raised(Refused(refused.value));
      }
      if f.skipDevice {
        answer := if env.commits then Ok(NewRow(r, id, None)) else Raised(CommitFailed);
      } else {
        answer := Provision(r, f, env, id, reserve, saved);
      }
      if answer.Raised? {
        session.Restore(saved);
      }
    }

    /** The transaction's part after the row is stored; on an exception the caller restores the tables. */
    method Provision(r: Request, f: Flags, env: Environment, id: Id, reserve: int, ghost saved: Tables)
      returns (answer: Answer)
      requires r.cidr.Cidr? && reserve == Reserve(config, r) && !f.skipDevice
      requires Db.CreateSubnet(saved, NewRow(r, id, None)) == Db.Outcome.Ok(session.View())
      modifies this`network, session
      ensures var w := World(saved, old(network));
              var (w', answer') :=
                match Locate(config, saved, r.vlan)
                case Raised(e) => (w, Answer.Raised(e))
                case Ok(place) =>
                  if !f.patchPrimary && !RoutesPass(env.before, r.cidr.block, Pre)
                      then (w, Answer.Raised(PreValidationFailed))
                  else Push(config, w, r, f, env, id, place);
              answer == answer' && network == w'.network && (answer.Ok? ==> session.View() == w'.tables)
    {
      var cidr := r.cidr.block;
      var place := FindPlace(r.vlan);
      if place.Raised? {
        return Raised(place.error);
      }
      if !f.patchPrimary {
        var passes := ValidateSubnetPush(env.before, cidr, Pre);
        if !passes {
          return Raised(PreValidationFailed);
        }
      }
      var failed := ConfigureOnDevice(place.value, GatewayAddress(r), f, env.push);
      if failed.Some? {
        return Raised(DeviceError(failed.value));
      }
      if !f.patchPrimary {
        var passes := ValidateSubnetPush(env.after, cidr, Post);
        if !passes {
          DeleteOnDevice(place.value, GatewayAddress(r), env.undo);
          return Raised(PostValidationFailed);
        }
      }
      var pool := Pools.AllocationRange(cidr, reserve);
      if pool.Raised? {
        return Raised(AllocationFailed(pool.error));
      }
      NewestRowGetsPool(saved.subnets, NewRow(r, id, None), pool.value);
      var stored := session.SetSubnetPool(id, pool.value);
      return if !env.commits then Raised(CommitFailed) else Ok(NewRow(r, id, Some(pool.value)));
    }
  }

  lemma NewestRowGetsPool(subnets: seq<SubnetRow>, row: SubnetRow, pool: Pools.Pool)
    requires forall s | s in subnets :: s.id != row.id
    ensures Db.WithPool(subnets + [row], row.id, pool) == subnets + [row.(pool := Some(pool))]
  {
    assert forall i | 0 <= i < |subnets| :: subnets[i] in subnets;
  }
}
