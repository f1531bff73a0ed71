/** Which row answers `create_subnet`, and which exception ends it, told by request, tables and outside world. */
module SubnetAnswers {
  import opened Prelude
  import opened Cidr
  import opened Schema
  import opened BubbleRoutes
  import opened SubnetAdmission
  import Pools = AddressPool
  import Db = NetforceDb
  import L3 = L3Interface
  import Runs = SubnetRuns

  // ----- before the transaction

  /** Row k is the first one stored with the CIDR. */
  predicate FirstWithCidr(subnets: seq<SubnetRow>, cidr: Block, k: nat) {
    k < |subnets| && subnets[k].cidr == cidr && forall j | 0 <= j < k :: subnets[j].cidr != cidr
  }

  /** Row k is the first one that shares an address with the CIDR. */
  ghost predicate FirstSharing(subnets: seq<SubnetRow>, cidr: Block, k: nat) {
    k < |subnets| && Shares(cidr, subnets[k].cidr) && forall j | 0 <= j < k :: !Shares(cidr, subnets[j].cidr)
  }

  /** The row has the gateway and the VLAN of the request, and every attribute of both has one value. */
  predicate Agrees(row: SubnetRow, r: Request) {
    && row.gateway == r.gateway && row.vlan == Some(r.vlan)
    && forall name | name in row.attrs && name in r.attrs :: row.attrs[name] == r.attrs[name]
  }

  lemma {:induction false} CidrScan(subnets: seq<SubnetRow>, cidr: Block)
    ensures forall k: nat | FirstWithCidr(subnets, cidr, k) :: FindByCidr(subnets, cidr) == Some(subnets[k])
    ensures FindByCidr(subnets, cidr).Some? ==> exists k: nat :: FirstWithCidr(subnets, cidr, k)
  {
    if subnets != [] {
      CidrScan(subnets[1..], cidr);
      forall k: nat | FirstWithCidr(subnets, cidr, k)
        ensures FindByCidr(subnets, cidr) == Some(subnets[k])
      {
        assert k > 0 ==> FirstWithCidr(subnets[1..], cidr, k - 1);
      }
      if subnets[0].cidr == cidr {
        assert FirstWithCidr(subnets, cidr, 0);
      } else if FindByCidr(subnets, cidr).Some? {
        var k: nat :| FirstWithCidr(subnets[1..], cidr, k);
        assert FirstWithCidr(subnets, cidr, k + 1);
      }
    }
  }

  lemma {:induction false} SharingScan(subnets: seq<SubnetRow>, cidr: Block)
    ensures forall k: nat | FirstSharing(subnets, cidr, k) :: FirstOverlappingRow(subnets, cidr) == Some(subnets[k])
    ensures FirstOverlappingRow(subnets, cidr).Some? ==> exists k: nat :: FirstSharing(subnets, cidr, k)
  {
    if subnets != [] {
      SharingScan(subnets[1..], cidr);
      OverlapTestsExact(cidr, subnets[0].cidr);
      forall k: nat | FirstSharing(subnets, cidr, k)
        ensures FirstOverlappingRow(subnets, cidr) == Some(subnets[k])
      {
        assert k > 0 ==> FirstSharing(subnets[1..], cidr, k - 1);
      }
      if Shares(cidr, subnets[0].cidr) {
        assert FirstSharing(subnets, cidr, 0);
      } else if FirstOverlappingRow(subnets, cidr).Some? {
        var k: nat :| FirstSharing(subnets[1..], cidr, k);
        assert FirstSharing(subnets, cidr, k + 1);
      }
    }
  }

  /** The request is looked up: subnets are enabled, the CIDR is one, and it lies under the allowed block. */
  ghost predicate LookedUp(c: Config, r: Request) {
    c.enabled && r.cidr.Cidr? && forall x: nat :: In(x, r.cidr.block) ==> In(x, c.allowed)
  }

  lemma LookedUpExactly(c: Config, r: Request)
    ensures LookedUp(c, r) <==> c.enabled && r.cidr.Cidr? && Contains(c.allowed, r.cidr.block)
  {
    if r.cidr.Cidr? {
      ContainsIsInclusion(c.allowed, r.cidr.block);
    }
  }

  /** A request for a stored CIDR, under any flags, changes nothing: the first row with that CIDR answers it
      if it agrees with the request, and else the call raises the conflict. */
  lemma StoredCidrExactly(c: Config, w: World, r: Request, f: Flags, env: Environment, id: Id, k: nat)
    requires LookedUp(c, r) && FirstWithCidr(w.tables.subnets, r.cidr.block, k)
    ensures var row := w.tables.subnets[k];
            Create(c, w, r, f, env, id)
            == (w, if Agrees(row, r) then Answer.Ok(row) else Answer.Raised(ConfiguredSubnetConflicts))
  {
    LookedUpExactly(c, r);
    CidrScan(w.tables.subnets, r.cidr.block);
  }

  /** The conflict is raised exactly then. */
  lemma ConflictExactly(c: Config, w: World, r: Request, f: Flags, env: Environment, id: Id)
    ensures Create(c, w, r, f, env, id).1 == Raised(ConfiguredSubnetConflicts)
            <==> LookedUp(c, r) && exists k: nat ::
                   FirstWithCidr(w.tables.subnets, r.cidr.block, k) && !Agrees(w.tables.subnets[k], r)
  {
    LookedUpExactly(c, r);
    if r.cidr.Cidr? {
      CidrScan(w.tables.subnets, r.cidr.block);
    }
  }

  /** The new row is that of the request: its CIDR, gateway, VLAN and attributes under the new key. */
  predicate MadeOf(row: SubnetRow, r: Request, id: Id) {
    && r.cidr.Cidr? && row.id == id && row.cidr == r.cidr.block && row.gateway == r.gateway
    && row.vlan == Some(r.vlan) && row.attrs == r.attrs
  }

  /** Whoever gets an answer gets what was asked: the row has the CIDR, the gateway and the VLAN of the
      request and none of its attributes otherwise, is stored, and was so before or is made of the request. */
  lemma AnswerIsTheRequestedSubnet(c: Config, w: World, r: Request, f: Flags, env: Environment, id: Id)
    requires Create(c, w, r, f, env, id).1.Ok?
    ensures var (w', answer) := Create(c, w, r, f, env, id);
            var row := answer.value;
            && r.cidr.Cidr? && row.cidr == r.cidr.block && Agrees(row, r) && row in w'.tables.subnets
            && (if row in w.tables.subnets then w' == w
                else MadeOf(row, r, id) && w'.tables == w.tables.(subnets := w.tables.subnets + [row]))
  {
    if FindByCidr(w.tables.subnets, r.cidr.block).Some? {
      CidrScan(w.tables.subnets, r.cidr.block);
    } else {
      assert forall s | s in w.tables.subnets :: s.cidr != r.cidr.block;
    }
  }

  /** No stored row has the CIDR. */
  predicate NewCidr(t: Tables, r: Request) {
    r.cidr.Cidr? && forall s | s in t.subnets :: s.cidr != r.cidr.block
  }

  /** A request to check in full: neither skipping the device nor patching it. */
  predicate Checked(f: Flags) {
    !f.skipDevice && !f.patchPrimary
  }

  /** The other exceptions before anything is stored, in the order they are looked for; then nothing has
      changed anywhere. Otherwise the row can be stored. */
  lemma RefusedExactly(c: Config, w: World, r: Request, f: Flags, env: Environment, id: Id)
    requires r.cidr.Cidr? ==> NewCidr(w.tables, r)
    ensures var (w', answer) := Create(c, w, r, f, env, id);
            var reserve := if r.reserve.Some? then r.reserve.value else c.defaultReserve;
            if !c.enabled then w' == w && answer == Raised(OperationNotSupported)
            else if r.cidr.Malformed? then w' == w && answer == Raised(InvalidSubnetCidr)
            else if !LookedUp(c, r) then w' == w && answer == Raised(SubnetIsNotAllowed)
            else if Checked(f) && reserve < c.defaultReserve then w' == w && answer == Raised(ReserveCountTooSmall)
            else if Checked(f) && exists k: nat :: FirstSharing(w.tables.subnets, r.cidr.block, k) then
              w' == w && exists k: nat :: FirstSharing(w.tables.subnets, r.cidr.block, k)
                                          && answer == Raised(SubnetAlreadyConfigured(w.tables.subnets[k]))
            else if HasSubnet(w.tables, id) then w' == w && answer == Raised(Refused(Db.Duplicate))
            else if !HasVlan(w.tables, r.vlan) then w' == w && answer == Raised(Refused(Db.ForeignKey))
            else Admit(c, w.tables, r, f) == Ok(None) && Db.CreateSubnet(w.tables, NewRow(r, id, None)).Ok?
  {
    LookedUpExactly(c, r);
    if r.cidr.Cidr? {
      SharingScan(w.tables.subnets, r.cidr.block);
    }
  }

  // ----- the place

  function DevicesOfGroup(t: Tables, group: Id): set<Id> {
    set d | d in t.devices && t.devices[d].bridgeGroup == Some(group)
  }

  /** Where the subnet of a VLAN goes, or why it goes nowhere: its VPC must be an allowed one, and its bridge
      group must have one device, a top-of-rack switch. */
  lemma PlaceExactly(c: Config, t: Tables, v: VlanRow)
    requires Db.Keyed(t) && v in t.vlans
    ensures var place, vpc, devices := Locate(c, t, v.id), VpcName(t.vpcs, v), DevicesOfGroup(t, v.bridgeGroup);
            if vpc.None? then place == Raised(VlanWithoutVpc)
            else if vpc.value !in c.allowedVpcs then place == Raised(VpcNotAllowed)
            else if |devices| > 1 then place == Raised(OnlyOneDeviceAllowed)
            else if devices == {} then place == Raised(NoDeviceFound)
            else
              exists d | d in t.devices :: devices == {d} &&
                place == if t.devices[d].isTor then Ok(Place(d, t.devices[d].os, v.tag)) else Raised(BadDeviceType)
  {
    var devices := DevicesOfGroup(t, v.bridgeGroup);
    assert devices == DevicesOf(t.devices, v.bridgeGroup);
    if |devices| == 1 {
      assert TheOne(devices) in devices;
    }
  }

  // ----- inside the transaction

  /** The row can be stored and is to be pushed to a place. */
  ghost predicate Placed(c: Config, w: World, r: Request, f: Flags, id: Id) {
    && Admit(c, w.tables, r, f) == Ok(None) && Db.CreateSubnet(w.tables, NewRow(r, id, None)).Ok?
    && !f.skipDevice && Locate(c, w.tables, r.vlan).Ok?
  }

  /** Without a device to configure, the row is stored without a pool if the transaction commits. */
  lemma SkippedExactly(c: Config, w: World, r: Request, f: Flags, env: Environment, id: Id)
    requires f.skipDevice && Admit(c, w.tables, r, f) == Ok(None)
    requires Db.CreateSubnet(w.tables, NewRow(r, id, None)).Ok?
    ensures var (w', answer) := Create(c, w, r, f, env, id);
            if env.commits then
              && answer.Ok? && MadeOf(answer.value, r, id) && answer.value.pool == None
              && w' == w.(tables := w.tables.(subnets := w.tables.subnets + [answer.value]))
            else w' == w && answer == Raised(CommitFailed)
  {
  }

  /** A VLAN without a place raises before anything is pushed. */
  lemma PlacelessExactly(c: Config, w: World, r: Request, f: Flags, env: Environment, id: Id)
    requires !f.skipDevice && Admit(c, w.tables, r, f) == Ok(None)
    requires Db.CreateSubnet(w.tables, NewRow(r, id, None)).Ok? && Locate(c, w.tables, r.vlan).Raised?
    ensures Create(c, w, r, f, env, id) == (w, Answer.Raised(Locate(c, w.tables, r.vlan).error))
  {
  }

  /** The driver operation at the place: a primary patch on Junos if asked for, else a create. */
  function Operation(c: Config, p: Place, i: L3.Interface, b: Block, f: Flags, fault: Fault)
      : (L3.Interface, Option<L3.Error>) {
    if f.patchPrimary && p.os == Junos then L3.Patched(i, b, f.oneSubnetOnly, fault)
    else L3.Created(p.os, i, b, c.maxSubnets, fault)
  }

  /** Why the place cannot be configured, before its interface is looked at. IOS has nothing to configure. */
  predicate Unreachable(n: Network, p: Place) {
    p.device !in n || (p.os != Ios && p.tag !in n[p.device])
  }

  /** The exceptions around the push, with the routes seen before and after it. */
  lemma PushedExactly(c: Config, w: World, r: Request, f: Flags, env: Environment, id: Id)
    requires Placed(c, w, r, f, id)
    ensures var (w', answer) := Create(c, w, r, f, env, id);
            var p, n, cidr := Locate(c, w.tables, r.vlan).value, w.network, r.cidr.block;
            var b := Block(r.gateway, cidr.prefixlen);
            if !f.patchPrimary && !(env.before.Fetched? && PassesPre(cidr, env.before.routes)) then
              w' == w && answer == Raised(PreValidationFailed)
            else if Unreachable(n, p) then
              w' == w && answer == Raised(DeviceError(if p.device in n then L3.EntityDoesNotExist
                                                      else L3.ConnectionLost))
            else
              var (i', e) := Operation(c, p, InterfaceAt(n, p), b, f, env.push);
              if e.Some? then answer == Raised(DeviceError(e.value))
              else if !f.patchPrimary && !(env.after.Fetched? && PassesPost(cidr, env.after.routes)) then
                answer == Raised(PostValidationFailed)
              else
                match Pools.AllocationRange(cidr, if r.reserve.Some? then r.reserve.value else c.defaultReserve)
                case Raised(problem) => answer == Raised(AllocationFailed(problem))
                case Ok(pool) =>
                  if !env.commits then answer == Raised(CommitFailed)
                  else answer.Ok? && MadeOf(answer.value, r, id) && answer.value.pool == Some(pool)
  {
  }

  /** The switches after the push: the operation's interface, with the compensating delete on it exactly if
      the routes after it fail; IOS switches stay as they are. */
  lemma NetworkExactly(c: Config, w: World, r: Request, f: Flags, env: Environment, id: Id)
    requires Placed(c, w, r, f, id) && !Unreachable(w.network, Locate(c, w.tables, r.vlan).value)
    requires f.patchPrimary || (env.before.Fetched? && PassesPre(r.cidr.block, env.before.routes))
    ensures var p, n := Locate(c, w.tables, r.vlan).value, w.network;
            var n' := Create(c, w, r, f, env, id).0.network;
            if p.os == Ios then n' == n
            else
              var b := Block(r.gateway, r.cidr.block.prefixlen);
              var (i', e) := Operation(c, p, InterfaceAt(n, p), b, f, env.push);
              var visible := f.patchPrimary || (env.after.Fetched? && PassesPost(r.cidr.block, env.after.routes));
              n' == WithInterface(n, p, if e.Some? || visible then i' else L3.Deleted(p.os, i', b, env.undo).0)
  {
    var p, n, b := Locate(c, w.tables, r.vlan).value, w.network, Block(r.gateway, r.cidr.block.prefixlen);
    ConfiguredExactly(c, n, p, b, f, env.push);
    if p.os != Ios {
      var i' := Operation(c, p, InterfaceAt(n, p), b, f, env.push).0;
      Runs.Overwritten(n, p, i', L3.Deleted(p.os, i', b, env.undo).0);
    }
  }

  lemma ConfiguredExactly(c: Config, n: Network, p: Place, b: Block, f: Flags, fault: Fault)
    requires !Unreachable(n, p)
    ensures var (i', e) := Operation(c, p, InterfaceAt(n, p), b, f, fault);
            Configure(c, n, p, b, f, fault) == if p.os == Ios then (n, None) else (WithInterface(n, p, i'), e)
  {
  }

  // ----- patching the primary address

  /** The patch refuses the interface. */
  predicate PatchRefused(i: L3.Interface, b: Block, oneSubnetOnly: bool) {
    (oneSubnetOnly && |i| >= 2) || (forall x | x in i :: x.block != b) || exists x | x in i :: x.primary
  }

  lemma PatchCallSteps(c: Config, w: World, r: Request, f: Flags, env: Environment, id: Id)
    requires Placed(c, w, r, f, id) && f.patchPrimary
    requires var p := Locate(c, w.tables, r.vlan).value; p.os == Junos && !Unreachable(w.network, p)
    ensures var (w', answer) := Create(c, w, r, f, env, id);
            var p := Locate(c, w.tables, r.vlan).value;
            var b := Block(r.gateway, r.cidr.block.prefixlen);
            var (i', e) := L3.Patched(InterfaceAt(w.network, p), b, f.oneSubnetOnly, env.push);
            && w'.network == WithInterface(w.network, p, i')
            && (answer.Ok? <==> e == None && Pools.AllocationRange(r.cidr.block, Reserve(c, r)).Ok? && env.commits)
            && (answer.Ok? ==> w'.tables == w.tables.(subnets := w.tables.subnets + [answer.value]))
            && (answer.Raised? ==> w'.tables == w.tables)
  {
  }

  /** A request that patches a Junos switch asks no routes and changes the one interface as the patch does,
      whether it returns or raises; the row is stored exactly if the patch returned, the pool can be computed
      and the transaction commits. */
  lemma PatchCallExactly(c: Config, w: World, r: Request, f: Flags, env: Environment, id: Id)
    requires Placed(c, w, r, f, id) && f.patchPrimary
    requires var p := Locate(c, w.tables, r.vlan).value; p.os == Junos && !Unreachable(w.network, p)
    ensures var (w', answer) := Create(c, w, r, f, env, id);
            var p := Locate(c, w.tables, r.vlan).value;
            var i, i' := InterfaceAt(w.network, p), InterfaceAt(w'.network, p);
            var b := Block(r.gateway, r.cidr.block.prefixlen);
            var reserve := if r.reserve.Some? then r.reserve.value else c.defaultReserve;
            && w'.network == WithInterface(w.network, p, i')
            && (if PatchRefused(i, b, f.oneSubnetOnly) then i' == i
                else |i'| == |i| && forall k | 0 <= k < |i| ::
                  i'[k].block == i[k].block && (i'[k].primary <==> L3.Takes(env.push) && i[k].block == b))
            && (answer.Ok? <==> && !PatchRefused(i, b, f.oneSubnetOnly) && (env.push == Healthy || env.push == Refuses)
                                && Pools.AllocationRange(r.cidr.block, reserve).Ok? && env.commits)
            && w'.tables
               == (if answer.Ok? then w.tables.(subnets := w.tables.subnets + [answer.value]) else w.tables)
  {
    var p := Locate(c, w.tables, r.vlan).value;
    PatchCallSteps(c, w, r, f, env, id);
    L3.PatchExactly(InterfaceAt(w.network, p), Block(r.gateway, r.cidr.block.prefixlen), f.oneSubnetOnly, env.push);
  }
}
