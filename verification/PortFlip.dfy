/**
 `update_port` on one port of one switch: the row and its VLAN associations are committed first, then
 the switch is flipped, and a failed flip rolls the database back from a snapshot.
 */
module PortFlip {
  import opened Prelude
  import opened Schema
  import opened Text
  import Db = NetforceDb
  import Sw = SwitchPort

  /** A requested VLAN, named by tag, id or VPC name. */
  datatype VlanRef = VlanRef(tag: Option<string>, id: Option<Id>, vpc: Option<string>, isNative: Option<bool>)

  datatype Request = Request(columns: Columns, vlans: Option<seq<VlanRef>>, mac: Option<string>)

  /** The outside world during one call; the MAC addresses are None when they cannot be read. */
  datatype Environment = Environment(adminOk: bool, labelOk: bool, macs: Option<seq<string>>, readable: bool)

  datatype Error =
    | BadPayload
    | FlipAndEnableTogether
    | PortNotFound
    | NoBridgeGroup
    | VlanNotFound
    | VlanWithoutVpc
    | Refused(reason: Db.DbError)
    | MacAddressNotPassed
    | AdminPushFailed
    | LabelPushFailed
    | NoNativeVlan
    | MacReadFailed
    | MacNotOnInterface
    | InterfaceUnreadable
    | ChangeStopActive
    | DeviceError(cause: Sw.DriverError)

  // ----- validation

  predicate ValidRef(ref: VlanRef) {
    && (ref.tag.Some? || ref.id.Some? || ref.vpc.Some?)
    && (ref.tag.Some? ==> ParseInt(ref.tag.value).Some? && 1 <= ParseInt(ref.tag.value).value <= 4096)
  }

  /** `_validate_vlans` finds nothing wrong. Its count of native VLANs never grows, so it allows several. */
  predicate ValidVlans(r: Request) {
    if r.vlans.Some? && SwitchPortMode in r.columns then forall ref | ref in r.vlans.value :: ValidRef(ref)
    else r.vlans.None? && SwitchPortMode !in r.columns
  }

  predicate Flips(r: Request) {
    r.vlans.Some? && r.vlans.value != []
  }

  // ----- naming VLANs

  function PortGroup(t: Tables, port: Id): Option<Id> {
    if port in t.ports && t.ports[port].device in t.devices then t.devices[t.ports[port].device].bridgeGroup else None
  }

  function FindByTag(vlans: seq<VlanRow>, tag: nat): (r: Option<VlanRow>)
    ensures r.Some? ==> r.value in vlans && r.value.tag == tag
  {
    if vlans == [] then None
    else if vlans[0].tag == tag then Some(vlans[0])
    else FindByTag(vlans[1..], tag)
  }

  /** The scan by VPC name stumbles over a VLAN without a VPC. */
  function FindByVpcName(vpcs: seq<NamedRow>, vlans: seq<VlanRow>, name: string): (r: Result<VlanRow, Error>)
    ensures r.Ok? ==> r.value in vlans
  {
    if vlans == [] then Raised(VlanNotFound)
    else
      match VpcName(vpcs, vlans[0])
      case None => Raised(VlanWithoutVpc)
      case Some(n) => if n == name then Ok(vlans[0]) else FindByVpcName(vpcs, vlans[1..], name)
  }

  /** The VLAN a reference names: the tag counts first, then the id, then the VPC name. */
  function Resolve(t: Tables, port: Id, ref: VlanRef): (r: Result<VlanRow, Error>)
    ensures r.Ok? ==> r.value in t.vlans
    ensures r.Ok? && ref.tag.Some? ==> ParseInt(ref.tag.value) == Some(r.value.tag)
  {
    if ref.tag.Some? then
      match (PortGroup(t, port), ParseInt(ref.tag.value))
      case (Some(group), Some(n)) =>
        (match FindByTag(VlansOf(t, group), n) case Some(v) => Ok(v) case None => Raised(VlanNotFound))
      case (None, _) => Raised(NoBridgeGroup)
      case (_, None) => Raised(BadPayload)
    else if ref.id.Some? then
      match FindVlan(t.vlans, ref.id.value) case Some(v) => Ok(v) case None => Raised(VlanNotFound)
    else if ref.vpc.Some? then
      match PortGroup(t, port)
      case Some(group) => FindByVpcName(t.vpcs, VlansOf(t, group), ref.vpc.value)
      case None => Raised(NoBridgeGroup)
    else Raised(BadPayload)
  }

  predicate IsNative(ref: VlanRef) {
    ref.isNative == Some(true)
  }

  /** The reference as rewritten in the payload: by tag, with its native flag set. */
  function Tagged(ref: VlanRef, v: VlanRow): VlanRef {
    var flagged := ref.(isNative := Some(IsNative(ref)));
    if ref.tag.Some? then flagged
    else if ref.id.Some? then flagged.(tag := Some(Decimal(v.tag)), id := None)
    else flagged.(tag := Some(Decimal(v.tag)), vpc := None)
  }

  // ----- associations

  /** The loop of `_update_vlan_association` over the references so far: the tables and the rewritten references. */
  function Associated(t: Tables, port: Id, refs: seq<VlanRef>): Result<(Tables, seq<VlanRef>), Error> {
    if refs == [] then Ok((t, []))
    else
      match Associated(t, port, refs[..|refs| - 1])
      case Raised(e) => Raised(e)
      case Ok((t', done)) => AssociateOne(t', port, done, refs[|refs| - 1])
  }

  function AssociateOne(t: Tables, port: Id, done: seq<VlanRef>, ref: VlanRef): Result<(Tables, seq<VlanRef>), Error> {
    match Resolve(t, port, ref)
    case Raised(e) => Raised(e)
    case Ok(v) =>
      match Db.CreateAssociation(t, AssociationRow(port, v.id, IsNative(ref)))
      case Raised(e) => Raised(Refused(e))
      case Ok(t') => Ok((t', done + [Tagged(ref, v)]))
  }

  lemma {:induction false} AssociatedStops(t: Tables, port: Id, refs: seq<VlanRef>, n: nat)
    requires n <= |refs| && Associated(t, port, refs[..n]).Raised?
    ensures Associated(t, port, refs) == Associated(t, port, refs[..n])
  {
    if n == |refs| {
      assert refs[..n] == refs;
    } else {
      assert refs[..|refs| - 1][..n] == refs[..n];
      AssociatedStops(t, port, refs[..|refs| - 1], n);
    }
  }

  /** One pass of the loop: it goes on, or ends the whole loop. */
  lemma AssociatedStep(t: Tables, port: Id, refs: seq<VlanRef>, n: nat, t': Tables, done: seq<VlanRef>)
    requires n < |refs| && Associated(t, port, refs[..n]) == Ok((t', done))
    ensures AssociateOne(t', port, done, refs[n]).Raised? ==>
              Associated(t, port, refs) == Raised(AssociateOne(t', port, done, refs[n]).error)
    ensures AssociateOne(t', port, done, refs[n]).Ok?
            ==> Associated(t, port, refs[..n + 1]) == AssociateOne(t', port, done, refs[n])
  {
    assert refs[..n + 1][..n] == refs[..n];
    if AssociateOne(t', port, done, refs[n]).Raised? {
      AssociatedStops(t, port, refs, n + 1);
    }
  }

  // ----- the snapshot

  const ALWAYS: set<PortField> :=
    {Name, AdminStatus, SwitchPortMode, Description, StatusField, StatusDescription, TenantId}

  const ALL_FIELDS: set<PortField> := ALWAYS + {AssetId, Label}

  predicate Truthy(v: Option<string>) {
    v.Some? && v.value != ""
  }

  /** `make_port_dict`: asset id and label only when they are not empty. */
  function Snapshot(c: Columns): Columns {
    map f | f in c && (f in ALWAYS || Truthy(c[f])) :: c[f]
  }

  /** `_rollback_vlanport_db`. */
  function RolledBack(t: Tables, port: Id, columns: Columns, associations: seq<AssociationRow>): Tables
    requires port in t.ports
  {
    var kept := Db.DeleteAssociationsOfPort(t, port).associations;
    t.(associations := kept + associations,
        ports := t.ports[port := t.ports[port].(columns := t.ports[port].columns + columns)])
  }

  // ----- the whole call

  function AdminStep(old': Columns, r: Request, env: Environment): Option<Error> {
    if AdminStatus in r.columns && AdminStatus in old' && old'[AdminStatus] != r.columns[AdminStatus] then
      if r.mac.None? then Some(MacAddressNotPassed)
      else if !env.adminOk then Some(AdminPushFailed)
      else None
    else None
  }

  /** The database transaction. */
  function Committed(t: Tables, port: Id, r: Request, env: Environment): Result<(Tables, seq<VlanRef>), Error>
    requires port in t.ports
  {
    var updated := Db.UpdatePort(t, port, r.columns).value;
    var associated := if Flips(r) then Associated(Db.DeleteAssociationsOfPort(updated, port), port, r.vlans.value)
                      else Ok((updated, []));
    match associated
    case Raised(e) => Raised(e)
    case Ok(done) =>
      match AdminStep(t.ports[port].columns, r, env)
      case Some(e) => Raised(e)
      case None => if Label in r.columns && !env.labelOk then Raised(LabelPushFailed) else Ok(done)
  }

  function ModeOf(text: Option<string>): Sw.Mode {
    match text
    case Some(s) => if s == "access" then Sw.Access else if s == "trunk" then Sw.Trunk else Sw.OtherMode(s)
    case None => Sw.OtherMode("")
  }

  function ToFlip(mode: Option<string>, refs: seq<VlanRef>): (f: Sw.Flip)
    ensures |f.vlans| == |refs|
    ensures forall k | 0 <= k < |refs| ::
              f.vlans[k] == Sw.FlipVlan(if refs[k].tag.Some? then refs[k].tag.value else "", IsNative(refs[k]))
  {
    Sw.Flip(ModeOf(mode), seq(|refs|, k requires 0 <= k < |refs| =>
      Sw.FlipVlan(if refs[k].tag.Some? then refs[k].tag.value else "", IsNative(refs[k]))))
  }

  /** The tag of the port's first native association; tag 0 counts as none. */
  function NativeTag(vlans: seq<VlanRow>, rows: seq<AssociationRow>): Option<nat> {
    if rows == [] then None
    else if rows[0].isNative then
      match FindVlan(vlans, rows[0].vlan) case Some(v) => if v.tag == 0 then None else Some(v.tag) case None => None
    else NativeTag(vlans, rows[1..])
  }

  /** `_validate_mac_address`, after the commit and before the push. */
  function MacStep(t: Tables, port: Id, r: Request, env: Environment): Option<Error> {
    if r.mac.None? then None
    else if NativeTag(t.vlans, AssociationsOf(t, port)).None? then Some(NoNativeVlan)
    else
      match env.macs
      case None => Some(MacReadFailed)
      case Some(macs) => if macs != [] && r.mac.value !in macs then Some(MacNotOnInterface) else None
  }

  /** The checks before anything is touched. */
  function EarlyError(t: Tables, port: Id, r: Request): Option<Error> {
    if !ValidVlans(r) then Some(BadPayload)
    else if Flips(r) && AdminStatus in r.columns then Some(FlipAndEnableTogether)
    else if port !in t.ports then Some(PortNotFound)
    else None
  }

  datatype Final<D> = Final(tables: Tables, device: D, answer: Option<Error>)

  /** `push_vlanportassociation_to_device`, with its rollback. */
  function PushPhase<D>(dr: Sw.Driver<D>, t: Tables, t': Tables, d: D, port: Id, f: Sw.Flip, env: Environment): Final<D>
    requires port in t.ports && port in t'.ports
  {
    var restored := RolledBack(t', port, Snapshot(t.ports[port].columns), AssociationsOf(t, port));
    if !env.readable then Final(restored, d, Some(InterfaceUnreadable))
    else
      var (d', outcome) := Sw.Update(dr, d, f);
      match outcome
      case Ok(_) => Final(t', d', None)
      case Raised(e) =>
        if e == Sw.ChangeStopActive then Final(t', d', Some(ChangeStopActive))
        else Final(restored, d', Some(DeviceError(e)))
  }

  /** `update_port`: the tables and the switch it leaves, and its exception if it raises one. */
  function Update<D>(dr: Sw.Driver<D>, t: Tables, d: D, port: Id, r: Request, env: Environment): Final<D> {
    match EarlyError(t, port, r)
    case Some(e) => Final(t, d, Some(e))
    case None =>
      match Committed(t, port, r, env)
      case Raised(e) => Final(t, d, Some(e))
      case Ok((t', refs)) =>
        if !Flips(r) then Final(t', d, None)
        else
          match MacStep(t', port, r, env)
          case Some(e) => Final(t', d, Some(e))
          case None =>
            assert SwitchPortMode in r.columns;
            CommittedFrame(t, port, r, env);
            PushPhase(dr, t, t', d, port, ToFlip(r.columns[SwitchPortMode], refs), env)
  }

  /** The association loop touches the association table only. */
  lemma {:induction false} AssociatedFrame(t: Tables, port: Id, refs: seq<VlanRef>)
    requires Associated(t, port, refs).Ok?
    ensures var t' := Associated(t, port, refs).value.0; t' == t.(associations := t'.associations)
  {
    if refs != [] {
      AssociatedFrame(t, port, refs[..|refs| - 1]);
    }
  }

  lemma CommittedFrame(t: Tables, port: Id, r: Request, env: Environment)
    requires port in t.ports && Committed(t, port, r, env).Ok?
    ensures var t' := Committed(t, port, r, env).value.0;
            t' == t.(associations := t'.associations,
                     ports := t.ports[port := t.ports[port].(columns := t.ports[port].columns + r.columns)])
  {
    if Flips(r) {
      AssociatedFrame(Db.DeleteAssociationsOfPort(Db.UpdatePort(t, port, r.columns).value, port), port, r.vlans.value);
    }
  }

  // ----- the plugin

  /** The requested VLANs, rewritten in place on the way to the driver. */
  class VlanPayload {
    var vlans: seq<VlanRef>

    constructor (vlans: seq<VlanRef>)
      ensures this.vlans == vlans
    {
      this.vlans := vlans;
    }
  }

  /** Rewriting reference k in place: the ones before it are done, the ones after it as requested. */
  lemma RewriteStep(now: seq<VlanRef>, refs: seq<VlanRef>, k: nat)
    requires k < |refs| == |now| && now[k..] == refs[k..]
    ensures now[k] == refs[k]
    ensures forall ref: VlanRef :: now[k := ref][..k + 1] == now[..k] + [ref] && now[k := ref][k + 1..] == refs[k + 1..]
  {
    assert now[k..][0] == refs[k..][0];
    assert now[k + 1..] == now[k..][1..] == refs[k..][1..] == refs[k + 1..];
  }

  /** Putting one more of a port's own rows back is never refused. */
  lemma PutBackOne(t: Tables, port: Id, kept: seq<AssociationRow>, rows: seq<AssociationRow>, k: nat)
    requires k < |rows| && port in t.ports && Db.UniquePairs(rows) && forall a | a in kept :: a.port != port
    requires forall a | a in rows :: a.port == port && HasVlan(t, a.vlan)
    ensures Db.CreateAssociation(t.(associations := kept + rows[..k]), rows[k])
            == Db.Outcome.Ok(t.(associations := kept + rows[..k + 1]))
  {
    assert rows[k] in rows;
    forall a | a in rows[..k]
      ensures a.vlan != rows[k].vlan
    {
      var i :| 0 <= i < k && rows[i] == a;
      assert rows[i] in rows;
    }
    assert kept + rows[..k] + [rows[k]] == kept + rows[..k + 1];
  }

  class PortPlugin<D> {
    const session: Db.Session
    const switch: Sw.Switch<D>

    constructor (session: Db.Session, switch: Sw.Switch<D>)
      ensures this.session == session && this.switch == switch
    {
      this.session, this.switch := session, switch;
    }

    method UpdateVlanAssociation(port: Id, payload: VlanPayload) returns (e: Option<Error>)
      modifies session, payload
      ensures match Associated(Db.DeleteAssociationsOfPort(old(session.View()), port), port, old(payload.vlans))
              case Ok((t, refs)) => e == None && session.View() == t && payload.vlans == refs
              case Raised(error) => e == Some(error)
    {
      ghost var refs := payload.vlans;
      ghost var start := Db.DeleteAssociationsOfPort(session.View(), port);
      session.RemoveAssociationsOfPort(port);
      for k := 0 to |payload.vlans|
        invariant |payload.vlans| == |refs|
        invariant payload.vlans[k..] == refs[k..]
        invariant Associated(start, port, refs[..k]) == Ok((session.View(), payload.vlans[..k]))
      {
        var ref := payload.vlans[k];
        RewriteStep(payload.vlans, refs, k);
        AssociatedStep(start, port, refs, k, session.View(), payload.vlans[..k]);
        var v := Resolve(session.View(), port, ref);
        if v.Raised? {
          return Some(v.error);
        }
        var tagged := Tagged(ref, v.value);
        var refused := session.AddAssociation(AssociationRow(port, v.value.id, IsNative(ref)));
        if refused.Some? {
          return Some(Refused(refused.value));
        }
        payload.vlans := payload.vlans[k := tagged];
      }
      assert refs[..|refs|] == refs && payload.vlans[..|refs|] == payload.vlans;
      return None;
    }

    /** `_rollback_vlanport_db`: the snapshot's rows are put back one by one. */
    method Rollback(port: Id, columns: Columns, associations: seq<AssociationRow>)
      requires port in session.ports
      requires Db.UniquePairs(associations)
      requires forall a | a in associations :: a.port == port && HasVlan(session.View(), a.vlan)
      modifies session
      ensures session.View() == RolledBack(old(session.View()), port, columns, associations)
    {
      ghost var t := session.View();
      session.RemoveAssociationsOfPort(port);
      ghost var kept := session.associations;
      for k := 0 to |associations|
        invariant session.View() == t.(associations := kept + associations[..k])
      {
        PutBackOne(t, port, kept, associations, k);
        var refused := session.AddAssociation(associations[k]);
      }
      assert associations[..|associations|] == associations;
      var missing := session.SetPortColumns(port, columns);
    }

    method ValidateMacAddress(port: Id, r: Request, env: Environment) returns (e: Option<Error>)
      ensures e == MacStep(session.View(), port, r, env)
    {
      if r.mac.None? {
        return None;
      }
      var rows := AssociationsOf(session.View(), port);
      var native: Option<nat> := None;
      var k := 0;
      while k < |rows| && !rows[k].isNative
        invariant 0 <= k <= |rows|
        invariant NativeTag(session.vlans, rows) == NativeTag(session.vlans, rows[k..])
      {
        assert rows[k..][1..] == rows[k + 1..];
        k := k + 1;
      }
      if k < |rows| {
        var v := FindVlan(session.vlans, rows[k].vlan);
        if v.Some? && v.value.tag != 0 {
          native := Some(v.value.tag);
        }
      }
      if native.None? {
        return Some(NoNativeVlan);
      }
      if env.macs.None? {
        return Some(MacReadFailed);
      }
      return if env.macs.value != [] && r.mac.value !in env.macs.value then Some(MacNotOnInterface) else None;
    }

    /** The database transaction of `update_port`; an exception inside restores the tables. */
    method Transact(port: Id, r: Request, env: Environment, payload: VlanPayload) returns (e: Option<Error>)
      requires port in session.ports && payload.vlans == (if Flips(r) then r.vlans.value else [])
      modifies session, payload
      ensures match Committed(old(session.View()), port, r, env)
              case Ok((t, refs)) => e == None && session.View() == t && payload.vlans == refs
              case Raised(error) => e == Some(error) && session.View() == old(session.View())
    {
      var saved := session.View();
      var failed := session.SetPortColumns(port, r.columns);
      e := None;
      if Flips(r) {
        e := UpdateVlanAssociation(port, payload);
      }
      if e == None {
        e := AdminStep(saved.ports[port].columns, r, env);
      }
      if e == None && Label in r.columns && !env.labelOk {
        e := Some(LabelPushFailed);
      }
      if e != None {
        session.Restore(saved);
      }
    }

    /** `push_vlanportassociation_to_device`. */
    method PushToDevice(port: Id, f: Sw.Flip, env: Environment, current: Columns, currentVlans: seq<AssociationRow>,
        ghost saved: Tables)
      returns (e: Option<Error>)
      requires port in session.ports && port in saved.ports && Db.UniquePairs(currentVlans)
      requires current == Snapshot(saved.ports[port].columns) && currentVlans == AssociationsOf(saved, port)
      requires forall a | a in currentVlans :: a.port == port && HasVlan(session.View(), a.vlan)
      modifies session, switch
      ensures Final(session.View(), switch.device, e)
              == PushPhase(switch.driver, saved, old(session.View()), old(switch.device), port, f, env)
    {
      if !env.readable {
        Rollback(port, current, currentVlans);
        return Some(InterfaceUnreadable);
      }
      var outcome := switch.UpdateSwitchPortVlans(f);
      if outcome.Raised? {
        if outcome.error == Sw.ChangeStopActive {
          return Some(ChangeStopActive);
        }
        Rollback(port, current, currentVlans);
        return Some(DeviceError(outcome.error));
      }
      return None;
    }

    method UpdatePort(port: Id, r: Request, env: Environment) returns (e: Option<Error>)
      requires Db.Integrity(session.View()) && Db.UniquePairs(session.associations)
      modifies session, switch
      ensures Final(session.View(), switch.device, e)
              == Update(switch.driver, old(session.View()), old(switch.device), port, r, env)
    {
      if !ValidVlans(r) {
        return Some(BadPayload);
      }
      if Flips(r) && AdminStatus in r.columns {
        return Some(FlipAndEnableTogether);
      }
      if port !in session.ports {
        return Some(PortNotFound);
      }
      var saved := session.View();
      var current := Snapshot(saved.ports[port].columns);
      var currentVlans := AssociationsOf(saved, port);
      var payload := new VlanPayload(if Flips(r) then r.vlans.value else []);
      e := Transact(port, r, env, payload);
      if e != None {
        return;
      }
      CommittedFrame(saved, port, r, env);
      if !Flips(r) {
        return None;
      }
      e := ValidateMacAddress(port, r, env);
      if e.Some? {
        return;
      }
      SnapshotIsRestorable(saved, port);
      e := PushToDevice(port, ToFlip(r.columns[SwitchPortMode], payload.vlans), env, current, currentVlans, saved);
    }
  }

  lemma SnapshotIsRestorable(t: Tables, port: Id)
    requires Db.Integrity(t) && Db.UniquePairs(t.associations)
    ensures Db.UniquePairs(AssociationsOf(t, port))
    ensures forall a | a in AssociationsOf(t, port) :: a.port == port && HasVlan(t, a.vlan)
  {
    Db.FilterKeepsUnique(t.associations, OnPort(port));
  }
}
