/** What subnet requests keep, over one call and over every run: disjoint blocks, disjoint pools, and the
    agreement between the stored subnets and the addresses on the switches. */
module SubnetRuns {
  import opened Prelude
  import opened Cidr
  import opened Rows
  import opened Schema
  import opened BubbleRoutes
  import opened SubnetAdmission
  import Pools = AddressPool
  import Db = NetforceDb
  import L3 = L3Interface

  datatype Op =
    | Create(request: Request, flags: Flags, environment: Environment, id: Id)
    | Delete(id: Id)

  ghost function Step(c: Config, w: World, op: Op): World {
    match op
    case Create(r, f, env, id) => SubnetAdmission.Create(c, w, r, f, env, id).0
    case Delete(id) => w.(tables := Db.DeleteSubnet(w.tables, id))
  }

  ghost function Run(c: Config, w: World, ops: seq<Op>): World {
    if ops == [] then w else Step(c, Run(c, w, ops[..|ops| - 1]), ops[|ops| - 1])
  }

  // ----- what one call does to the tables

  /** A call that changes the tables appends one row made from the request: allowed, with a CIDR text no
      other row has, and, without flags, without an address of any other row and with a pool. */
  lemma StoredRow(c: Config, w: World, r: Request, f: Flags, env: Environment, id: Id) returns (row: SubnetRow)
    requires SubnetAdmission.Create(c, w, r, f, env, id).0.tables != w.tables
    ensures SubnetAdmission.Create(c, w, r, f, env, id).0.tables == w.tables.(subnets := w.tables.subnets + [row])
    ensures SubnetAdmission.Create(c, w, r, f, env, id).1 == Ok(row)
    ensures r.cidr.Cidr? && row == NewRow(r, id, row.pool) && !HasSubnet(w.tables, id)
    ensures Contains(c.allowed, row.cidr)
    ensures forall s | s in w.tables.subnets :: s.cidr != row.cidr
    ensures !f.skipDevice && !f.patchPrimary ==> forall s | s in w.tables.subnets :: !Shares(row.cidr, s.cidr)
    ensures !f.skipDevice ==> row.pool.Some? && Pools.AllocationRange(row.cidr, Reserve(c, r)) == Ok(row.pool.value)
    ensures !f.skipDevice && !f.patchPrimary ==> Reserve(c, r) >= c.defaultReserve
    ensures f.skipDevice ==> row.pool == None
  {
    OverlappingRowExact(w.tables.subnets, r.cidr.block);
    row := SubnetAdmission.Create(c, w, r, f, env, id).1.value;
  }

  // ----- disjoint blocks

  ghost predicate PairwiseDisjoint(t: Tables) {
    forall a, b | a in t.subnets && b in t.subnets :: a == b || !Shares(a.cidr, b.cidr)
  }

  ghost predicate AllAllowed(c: Config, t: Tables) {
    forall s | s in t.subnets :: Contains(c.allowed, s.cidr)
  }

  ghost predicate DistinctCidrs(t: Tables) {
    forall a, b | a in t.subnets && b in t.subnets :: a.cidr == b.cidr ==> a == b
  }

  predicate Plain(op: Op) {
    op.Create? ==> !op.flags.skipDevice && !op.flags.patchPrimary
  }

  lemma SharesSymmetric(a: Block, b: Block)
    ensures Shares(a, b) <==> Shares(b, a)
  {
  }

  lemma StepKeepsDisjoint(c: Config, w: World, op: Op)
    requires PairwiseDisjoint(w.tables) && Plain(op)
    ensures PairwiseDisjoint(Step(c, w, op).tables)
  {
    var t' := Step(c, w, op).tables;
    if op.Create? && t' != w.tables {
      var row := StoredRow(c, w, op.request, op.flags, op.environment, op.id);
      forall s | s in w.tables.subnets ensures !Shares(s.cidr, row.cidr) {
        SharesSymmetric(s.cidr, row.cidr);
      }
    }
  }

  /** Every state reachable by requests without skip or patch flags and by deletes has pairwise disjoint blocks. */
  lemma {:induction false} RunsStayDisjoint(c: Config, w: World, ops: seq<Op>)
    requires PairwiseDisjoint(w.tables)
    requires forall op | op in ops :: Plain(op)
    ensures PairwiseDisjoint(Run(c, w, ops).tables)
  {
    if ops != [] {
      var n := |ops| - 1;
      assert ops[n] in ops && forall op | op in ops[..n] :: op in ops;
      RunsStayDisjoint(c, w, ops[..n]);
      StepKeepsDisjoint(c, Run(c, w, ops[..n]), ops[n]);
    }
  }

  /** On every run, flags included: every block lies under the allowed one, no two rows share a CIDR text. */
  lemma {:induction false} RunsStayAllowedAndDistinct(c: Config, w: World, ops: seq<Op>)
    requires AllAllowed(c, w.tables) && DistinctCidrs(w.tables)
    ensures AllAllowed(c, Run(c, w, ops).tables) && DistinctCidrs(Run(c, w, ops).tables)
  {
    if ops != [] {
      var before, op := Run(c, w, ops[..|ops| - 1]), ops[|ops| - 1];
      RunsStayAllowedAndDistinct(c, w, ops[..|ops| - 1]);
      if op.Create? && Step(c, before, op).tables != before.tables {
        var row := StoredRow(c, before, op.request, op.flags, op.environment, op.id);
      }
    }
  }

  lemma {:induction false} FindsNewest(subnets: seq<SubnetRow>, row: SubnetRow)
    requires forall s | s in subnets :: s.cidr != row.cidr
    ensures FindByCidr(subnets + [row], row.cidr) == Some(row)
  {
    if subnets != [] {
      assert (subnets + [row])[1..] == subnets[1..] + [row];
      assert (subnets + [row])[0] == subnets[0] && subnets[0] in subnets;
      FindsNewest(subnets[1..], row);
    }
  }

  /** Replaying an answered request, under any flags and whatever the switches and bubble do, changes
      nothing anywhere and gives the same row. */
  lemma ReplayChangesNothing(c: Config, w: World, r: Request, f: Flags, env: Environment, id: Id,
                             f': Flags, env': Environment, id': Id)
    requires SubnetAdmission.Create(c, w, r, f, env, id).1.Ok?
    ensures var (w', answer) := SubnetAdmission.Create(c, w, r, f, env, id);
            SubnetAdmission.Create(c, w', r, f', env', id') == (w', answer)
  {
    var (w', answer) := SubnetAdmission.Create(c, w, r, f, env, id);
    if w'.tables != w.tables {
      var row := StoredRow(c, w, r, f, env, id);
      FindsNewest(w.tables.subnets, row);
      assert !Mismatch(row, r);
    }
  }

  // ----- disjoint pools

  ghost predicate PoolsInside(t: Tables) {
    forall s | s in t.subnets && s.pool.Some? :: forall x: nat :: Pools.InPool(x, s.pool.value) ==> In(x, s.cidr)
  }

  predicate Canonical(op: Op) {
    op.Create? && op.request.cidr.Cidr? ==> !Pools.HasHostBits(op.request.cidr.block)
  }

  lemma StepKeepsPoolsInside(c: Config, w: World, op: Op)
    requires PoolsInside(w.tables) && Plain(op) && Canonical(op)
    ensures PoolsInside(Step(c, w, op).tables)
  {
    if op.Create? && Step(c, w, op).tables != w.tables {
      var row := StoredRow(c, w, op.request, op.flags, op.environment, op.id);
      Pools.PoolInsideBlock(row.cidr, Reserve(c, op.request));
    }
  }

  /** Over every run without flags whose CIDRs have no host bits, each pool lies inside its block. */
  lemma {:induction false} RunsKeepPoolsInside(c: Config, w: World, ops: seq<Op>)
    requires PoolsInside(w.tables)
    requires forall op | op in ops :: Plain(op) && Canonical(op)
    ensures PoolsInside(Run(c, w, ops).tables)
  {
    if ops != [] {
      var n := |ops| - 1;
      assert ops[n] in ops && forall op | op in ops[..n] :: op in ops;
      RunsKeepPoolsInside(c, w, ops[..n]);
      StepKeepsPoolsInside(c, Run(c, w, ops[..n]), ops[n]);
    }
  }

  /** So over such a run from the empty table the pools of different subnets never collide, and lie inside
      the allowed block. */
  lemma PoolsNeverCollide(c: Config, w: World, ops: seq<Op>, a: SubnetRow, b: SubnetRow, x: nat)
    requires w.tables.subnets == []
    requires forall op | op in ops :: Plain(op) && Canonical(op)
    requires a in Run(c, w, ops).tables.subnets && a.pool.Some? && Pools.InPool(x, a.pool.value)
    ensures In(x, c.allowed)
    ensures b in Run(c, w, ops).tables.subnets && b.pool.Some? && Pools.InPool(x, b.pool.value) ==> a == b
  {
    RunsStayDisjoint(c, w, ops);
    RunsKeepPoolsInside(c, w, ops);
    RunsStayAllowedAndDistinct(c, w, ops);
    ContainsIsInclusion(c.allowed, a.cidr);
    assert In(x, a.cidr);
  }

  // ----- agreement between database and switches

  ghost function NetSet(i: L3.Interface): set<Block> {
    set e | e in i :: Net(e.block)
  }

  /** The blocks configured on one interface. */
  ghost function OnSwitch(n: Network, device: Id, tag: int): set<Block> {
    if device in n && tag in n[device] then NetSet(n[device][tag]) else {}
  }

  /** The interface a VLAN's subnets go to. */
  ghost predicate Located(t: Tables, vlan: Option<Id>, device: Id, tag: int) {
    vlan.Some? && FindVlan(t.vlans, vlan.value).Some?
    && var v := FindVlan(t.vlans, vlan.value).value;
       v.tag == tag && DevicesOf(t.devices, v.bridgeGroup) == {device}
  }

  /** The blocks the database has for one interface. */
  ghost function InDatabase(t: Tables, device: Id, tag: int): set<Block> {
    set s | s in t.subnets && Located(t, s.vlan, device, tag) :: Net(s.cidr)
  }

  ghost predicate Agrees(w: World) {
    forall device: Id, tag: int :: OnSwitch(w.network, device, tag) == InDatabase(w.tables, device, tag)
  }

  /** The call gets as far as the push. */
  ghost predicate ReachesPush(c: Config, w: World, r: Request, env: Environment, id: Id) {
    && Admit(c, w.tables, r, NO_FLAGS) == Ok(None)
    && Db.CreateSubnet(w.tables, NewRow(r, id, None)).Ok?
    && Locate(c, w.tables, r.vlan).Ok?
    && RoutesPass(env.before, r.cidr.block, Pre)
    && Locate(c, w.tables, r.vlan).value.device in w.network
  }

  /** The switch takes the address: the driver's checks pass and the command has an effect. */
  ghost predicate Accepts(c: Config, os: Os, i: L3.Interface, b: Block) {
    |i| < c.maxSubnets && L3.FirstOverlap(L3.Blocks(i), b).None? && (os == Junos || i != [] ==> L3.HasPrimary(i))
  }

  /** The ways a call without flags separates the database from the switch, given that it reaches the push. */
  ghost predicate LeaksAt(c: Config, w: World, r: Request, env: Environment, p: Place)
    requires r.cidr.Cidr? && p.device in w.network
  {
    var visible := RoutesPass(env.after, r.cidr.block, Post);
    var hasPool := Pools.AllocationRange(r.cidr.block, Reserve(c, r)).Ok?;
    if p.os == Ios then
      visible && hasPool && env.commits  // the IOS driver configures nothing
    else
      && p.tag in w.network[p.device]
      && Accepts(c, p.os, InterfaceAt(w.network, p), GatewayAddress(r))
      && (|| env.push == LostAfter  // applied, then the connection is lost: never compensated
          || (env.push == Healthy &&
              if !visible then
                || env.undo == Refuses || env.undo == LostBefore  // the compensating delete fails
                || (p.os != Junos && InterfaceAt(w.network, p) == [])  // or cannot remove a primary address
              else
                || !hasPool  // the size guard comes after the push
                || !env.commits  // and so does the commit
                || !In(r.gateway, r.cidr.block)))  // the gateway is never checked against the CIDR
  }

  ghost predicate Leaks(c: Config, w: World, r: Request, env: Environment, id: Id) {
    ReachesPush(c, w, r, env, id) && LeaksAt(c, w, r, env, Locate(c, w.tables, r.vlan).value)
  }

  lemma LocatedExactly(c: Config, t: Tables, vlan: Id, device: Id, tag: int)
    requires Locate(c, t, vlan).Ok?
    ensures var p := Locate(c, t, vlan).value;
            Located(t, Some(vlan), device, tag) <==> device == p.device && tag == p.tag
  {
    var v := FindVlan(t.vlans, vlan).value;
    var d := TheOne(DevicesOf(t.devices, v.bridgeGroup));
    assert {d} == {device} ==> d == device by {
      assert d in {d};
    }
  }

  /** The new row adds its block at its own interface and nowhere else. */
  lemma DatabaseAfter(c: Config, t: Tables, row: SubnetRow, vlan: Id, device: Id, tag: int)
    requires Locate(c, t, vlan).Ok? && row.vlan == Some(vlan)
    ensures var p := Locate(c, t, vlan).value;
            InDatabase(t.(subnets := t.subnets + [row]), device, tag)
            == InDatabase(t, device, tag) + if device == p.device && tag == p.tag then {Net(row.cidr)} else {}
  {
    LocatedExactly(c, t, vlan, device, tag);
    var t' := t.(subnets := t.subnets + [row]);
    assert row in t'.subnets;
    assert forall s | s in t'.subnets :: s in t.subnets || s == row;
    assert forall s | s in t.subnets :: s in t'.subnets;
    assert forall o: Option<Id> :: Located(t', o, device, tag) == Located(t, o, device, tag);
  }

  /** A block that overlaps no stored row is not among the database's blocks. */
  lemma NewBlockNotInDatabase(t: Tables, cidr: Block, device: Id, tag: int)
    requires FirstOverlappingRow(t.subnets, cidr).None?
    ensures Net(cidr) !in InDatabase(t, device, tag)
  {
    OverlappingRowExact(t.subnets, cidr);
    if Net(cidr) in InDatabase(t, device, tag) {
      var s :| s in t.subnets && Net(s.cidr) == Net(cidr);
      SameNetOverlaps(cidr, s.cidr);
      OverlapTestsExact(cidr, s.cidr);
    }
  }

  /** An accepted push adds exactly the pushed block, which was not there. */
  lemma PushAddsBlock(c: Config, os: Os, i: L3.Interface, b: Block)
    requires Accepts(c, os, i, b)
    ensures NetSet(L3.Pushed(os, i, b)) == NetSet(i) + {Net(b)} && Net(b) !in NetSet(i)
    ensures b in L3.Blocks(L3.Pushed(os, i, b))
  {
    L3.FirstOverlapExact(L3.Blocks(i), b);
    L3.NewBlockIsAbsent(i, b);
    if e :| e in i && Net(e.block) == Net(b) {
      var k :| 0 <= k < |i| && i[k] == e;
      SameNetOverlaps(b, e.block);
      OverlapTestsExact(b, L3.Blocks(i)[k]);
    }
    var added := L3.Entry(b, os != Junos && i == []);
    var i' := L3.Pushed(os, i, b);
    if i == [] {
      assert Filter(i, L3.Secondary()) == [];
    }
    assert i' == i + [added];
    assert L3.Blocks(i')[|i|] == b;
    assert added in i' && forall e | e in i' :: e in i || e == added;
    assert forall e | e in i :: e in i';
  }

  /** What the driver's create leaves, in terms of Accepts. */
  lemma CreatedCases(c: Config, os: Os, i: L3.Interface, b: Block, fault: Fault)
    requires os != Ios
    ensures var (i', e) := L3.Created(os, i, b, c.maxSubnets, fault);
            var applies := Accepts(c, os, i, b) && (fault == Healthy || fault == LostAfter);
            && i' == (if applies then L3.Pushed(os, i, b) else i)
            && (e == None <==> Accepts(c, os, i, b) && fault == Healthy)
  {
    if L3.FirstOverlap(L3.Blocks(i), b).None? {
      L3.NewBlockIsAbsent(i, b);
      if Accepts(c, os, i, b) {
        PushAddsBlock(c, os, i, b);
      }
    }
  }

  /** The interface's blocks after the whole call: the old ones, or those and the pushed one. */
  ghost predicate PushRemains(c: Config, w: World, r: Request, env: Environment, p: Place)
    requires r.cidr.Cidr? && p.device in w.network
  {
    p.os != Ios && p.tag in w.network[p.device] && Accepts(c, p.os, InterfaceAt(w.network, p), GatewayAddress(r))
    && (|| env.push == LostAfter
        || (env.push == Healthy &&
            (RoutesPass(env.after, r.cidr.block, Post)
             || env.undo == Refuses || env.undo == LostBefore
             || (p.os != Junos && InterfaceAt(w.network, p) == []))))
  }

  /** The call commits its row. */
  ghost predicate Commits(c: Config, w: World, r: Request, env: Environment, p: Place)
    requires r.cidr.Cidr? && p.device in w.network
  {
    && RoutesPass(env.after, r.cidr.block, Post) && Pools.AllocationRange(r.cidr.block, Reserve(c, r)).Ok?
       && env.commits
    && (p.os == Ios || (p.tag in w.network[p.device] && env.push == Healthy
                        && Accepts(c, p.os, InterfaceAt(w.network, p), GatewayAddress(r))))
  }

  /** The push phase leaves the interface as it was, or as the push command made it. */
  lemma InterfaceAfterPush(c: Config, w: World, r: Request, env: Environment, id: Id, p: Place)
    requires r.cidr.Cidr? && p.device in w.network && p.os != Ios && p.tag in w.network[p.device]
    ensures var i := InterfaceAt(w.network, p);
            var i' := if PushRemains(c, w, r, env, p) then L3.Pushed(p.os, i, GatewayAddress(r)) else i;
            Push(c, w, r, NO_FLAGS, env, id, p).0.network == WithInterface(w.network, p, i')
  {
    var i, b := InterfaceAt(w.network, p), GatewayAddress(r);
    CreatedCases(c, p.os, i, b, env.push);
    var pushed := L3.Pushed(p.os, i, b);
    Overwritten(w.network, p, pushed, L3.Deleted(p.os, pushed, b, env.undo).0);
    if Accepts(c, p.os, i, b) {
      UndoneExactly(c, p.os, i, b, env.undo);
    }
  }

  /** What a compensating delete leaves of an accepted push. */
  lemma UndoneExactly(c: Config, os: Os, i: L3.Interface, b: Block, undo: Fault)
    requires os != Ios && Accepts(c, os, i, b)
    ensures L3.Deleted(os, L3.Pushed(os, i, b), b, undo).0
            == if undo == Refuses || undo == LostBefore || (os != Junos && i == []) then L3.Pushed(os, i, b) else i
  {
    L3.CompensationExact(os, i, b);
    if i == [] && os != Junos {
      EmptyUndo(os, b);
    }
  }

  lemma Overwritten(n: Network, p: Place, first: L3.Interface, second: L3.Interface)
    requires p.device in n && p.tag in n[p.device]
    ensures WithInterface(WithInterface(n, p, first), p, second) == WithInterface(n, p, second)
  {
    assert n[p.device][p.tag := first][p.tag := second] == n[p.device][p.tag := second];
  }

  lemma NetworkAfterPush(c: Config, w: World, r: Request, env: Environment, id: Id, p: Place)
    requires r.cidr.Cidr? && p.device in w.network
    ensures var w' := Push(c, w, r, NO_FLAGS, env, id, p).0;
            forall device: Id, tag: int ::
              OnSwitch(w'.network, device, tag)
              == OnSwitch(w.network, device, tag)
                 + if device == p.device && tag == p.tag
                     && PushRemains(c, w, r, env, p) then {Net(GatewayAddress(r))} else {}
  {
    if p.os != Ios && p.tag in w.network[p.device] {
      InterfaceAfterPush(c, w, r, env, id, p);
      if PushRemains(c, w, r, env, p) {
        PushAddsBlock(c, p.os, InterfaceAt(w.network, p), GatewayAddress(r));
      }
    }
  }

  lemma EmptyUndo(os: Os, b: Block)
    requires os != Junos
    ensures L3.Removed(os, L3.Pushed(os, [], b), b) == L3.Pushed(os, [], b)
  {
    assert L3.Pushed(os, [], b) == [L3.Entry(b, true)];
    FilterAll([L3.Entry(b, true)], L3.NotSecondary(b));
  }

  lemma TablesAfterPush(c: Config, w: World, r: Request, env: Environment, id: Id, p: Place)
    requires r.cidr.Cidr? && p.device in w.network
    ensures var w' := Push(c, w, r, NO_FLAGS, env, id, p).0;
            if Commits(c, w, r, env, p) then
              var pool := Pools.AllocationRange(r.cidr.block, Reserve(c, r)).value;
              w'.tables == w.tables.(subnets := w.tables.subnets + [NewRow(r, id, Some(pool))])
            else w'.tables == w.tables
  {
    if p.os != Ios && p.tag in w.network[p.device] {
      CreatedCases(c, p.os, w.network[p.device][p.tag], GatewayAddress(r), env.push);
    }
  }

  lemma DatabaseAfterPush(c: Config, w: World, r: Request, env: Environment, id: Id, p: Place)
    requires r.cidr.Cidr? && p.device in w.network && Locate(c, w.tables, r.vlan) == Ok(p)
    ensures var w' := Push(c, w, r, NO_FLAGS, env, id, p).0;
            forall device: Id, tag: int ::
              InDatabase(w'.tables, device, tag)
              == InDatabase(w.tables, device, tag)
                 + if device == p.device && tag == p.tag && Commits(c, w, r, env, p) then {Net(r.cidr.block)} else {}
  {
    TablesAfterPush(c, w, r, env, id, p);
    if Commits(c, w, r, env, p) {
      var row := NewRow(r, id, Some(Pools.AllocationRange(r.cidr.block, Reserve(c, r)).value));
      forall device: Id, tag: int {
        DatabaseAfter(c, w.tables, row, r.vlan, device, tag);
      }
    }
  }

  /** If the blocks on every interface were those of the database, they are again after a call without
      flags, whether it returned or raised, exactly when the call does not leak. */
  lemma AgreementKeptExactly(c: Config, w: World, r: Request, env: Environment, id: Id)
    requires Agrees(w)
    ensures Agrees(SubnetAdmission.Create(c, w, r, NO_FLAGS, env, id).0) <==> !Leaks(c, w, r, env, id)
  {
    var w' := SubnetAdmission.Create(c, w, r, NO_FLAGS, env, id).0;
    if ReachesPush(c, w, r, env, id) {
      var p := Locate(c, w.tables, r.vlan).value;
      NetworkAfterPush(c, w, r, env, id, p);
      DatabaseAfterPush(c, w, r, env, id, p);
      NewBlockNotInDatabase(w.tables, r.cidr.block, p.device, p.tag);
      NetOfMember(r.gateway, r.cidr.block);
      if PushRemains(c, w, r, env, p) {
        PushAddsBlock(c, p.os, InterfaceAt(w.network, p), GatewayAddress(r));
      }
      AgreementAt(c, w, w', r, env, p);
    } else {
      assert w' == w;
    }
  }

  /** The two sides change by at most one block each, both new, at one interface. */
  lemma AgreementAt(c: Config, w: World, w': World, r: Request, env: Environment, p: Place)
    requires Agrees(w) && r.cidr.Cidr? && p.device in w.network
    requires forall device: Id, tag: int ::
               OnSwitch(w'.network, device, tag)
               == OnSwitch(w.network, device, tag)
                  + if device == p.device && tag == p.tag
                      && PushRemains(c, w, r, env, p) then {Net(GatewayAddress(r))} else {}
    requires forall device: Id, tag: int ::
               InDatabase(w'.tables, device, tag)
               == InDatabase(w.tables, device, tag)
                  + if device == p.device && tag == p.tag && Commits(c, w, r, env, p) then {Net(r.cidr.block)} else {}
    requires Net(r.cidr.block) !in InDatabase(w.tables, p.device, p.tag)
    requires PushRemains(c, w, r, env, p) ==> Net(GatewayAddress(r)) !in OnSwitch(w.network, p.device, p.tag)
    requires Net(GatewayAddress(r)) == Net(r.cidr.block) <==> In(r.gateway, r.cidr.block)
    ensures Agrees(w') <==> !LeaksAt(c, w, r, env, p)
  {
    var pushed, stored := PushRemains(c, w, r, env, p), Commits(c, w, r, env, p);
    var old', b, net := InDatabase(w.tables, p.device, p.tag), Net(GatewayAddress(r)), Net(r.cidr.block);
    assert OnSwitch(w.network, p.device, p.tag) == old';
    assert OnSwitch(w'.network, p.device, p.tag) == old' + if pushed then {b} else {};
    assert InDatabase(w'.tables, p.device, p.tag) == old' + if stored then {net} else {};
    assert OnSwitch(w'.network, p.device, p.tag) == InDatabase(w'.tables, p.device, p.tag)
           <==> pushed == stored && (pushed ==> b == net);
  }

  // ----- runs

  datatype Call = Call(request: Request, environment: Environment, id: Id)

  ghost function AfterCalls(c: Config, w: World, calls: seq<Call>): World {
    if calls == [] then w
    else
      var last := calls[|calls| - 1];
      var before := AfterCalls(c, w, calls[..|calls| - 1]);
      SubnetAdmission.Create(c, before, last.request, NO_FLAGS, last.environment, last.id).0
  }

  /** The blocks agree before the run and after each call of it. */
  ghost predicate AgreesThroughout(c: Config, w: World, calls: seq<Call>) {
    Agrees(AfterCalls(c, w, calls)) && (calls == [] || AgreesThroughout(c, w, calls[..|calls| - 1]))
  }

  /** No call of the run leaks in the state it meets. */
  ghost predicate NeverLeaks(c: Config, w: World, calls: seq<Call>) {
    calls == []
    || (NeverLeaks(c, w, calls[..|calls| - 1])
        && var last := calls[|calls| - 1];
           !Leaks(c, AfterCalls(c, w, calls[..|calls| - 1]), last.request, last.environment, last.id))
  }

  /** Database and switches agree after every call of a run, returned or raised, if and only if none leaks. */
  lemma {:induction false} RunsAgreeExactly(c: Config, w: World, calls: seq<Call>)
    requires Agrees(w)
    ensures AgreesThroughout(c, w, calls) <==> NeverLeaks(c, w, calls)
  {
    if calls != [] {
      var n := |calls| - 1;
      RunsAgreeExactly(c, w, calls[..n]);
      var before := AfterCalls(c, w, calls[..n]);
      if AgreesThroughout(c, w, calls[..n]) {
        AgreementKeptExactly(c, before, calls[n].request, calls[n].environment, calls[n].id);
      }
    }
  }

  /** A gateway inside its block, room for the reserved addresses, a switch that never loses a connection
      after applying a push and does not fail a compensating delete, and a database that commits. */
  predicate Careful(c: Config, call: Call) {
    && (call.request.cidr.Cidr? ==>
          && In(call.request.gateway, call.request.cidr.block)
          && Pools.AllocationRange(call.request.cidr.block, Reserve(c, call.request)).Ok?)
    && call.environment.push != LostAfter
    && (call.environment.undo == Healthy || call.environment.undo == LostAfter)
    && call.environment.commits
  }

  /** No IOS switch, and every interface already has an address. */
  ghost predicate Ready(w: World) {
    && (forall d | d in w.tables.devices :: w.tables.devices[d].os != Ios)
    && (forall d, tag | d in w.network && tag in w.network[d] :: w.network[d][tag] != [])
  }

  lemma CarefulDoesNotLeak(c: Config, w: World, call: Call)
    requires Ready(w) && Careful(c, call)
    ensures !Leaks(c, w, call.request, call.environment, call.id)
  {
    if ReachesPush(c, w, call.request, call.environment, call.id) {
      var v := FindVlan(w.tables.vlans, call.request.vlan).value;
      var devices := DevicesOf(w.tables.devices, v.bridgeGroup);
      assert TheOne(devices) in devices;
    }
  }

  /** An interface that had an address still has one. */
  lemma PushKeepsAddresses(c: Config, w: World, r: Request, env: Environment, id: Id, p: Place)
    requires r.cidr.Cidr? && p.device in w.network && forall d, tag | d in w.network && tag in w.network[d] ::
             w.network[d][tag] != []
    ensures var n := Push(c, w, r, NO_FLAGS, env, id, p).0.network;
            forall d, tag | d in n && tag in n[d] :: n[d][tag] != []
  {
    if p.os != Ios && p.tag in w.network[p.device] {
      InterfaceAfterPush(c, w, r, env, id, p);
      if PushRemains(c, w, r, env, p) {
        PushAddsBlock(c, p.os, InterfaceAt(w.network, p), GatewayAddress(r));
      }
    }
  }

  lemma StaysReady(c: Config, w: World, call: Call)
    requires Ready(w)
    ensures Ready(SubnetAdmission.Create(c, w, call.request, NO_FLAGS, call.environment, call.id).0)
  {
    var r, env, id := call.request, call.environment, call.id;
    if ReachesPush(c, w, r, env, id) {
      var p := Locate(c, w.tables, r.vlan).value;
      TablesAfterPush(c, w, r, env, id, p);
      PushKeepsAddresses(c, w, r, env, id, p);
    }
  }

  /** Database and switches agree after every careful run, through every return and every exception. */
  lemma {:induction false} CarefulRunsAgree(c: Config, w: World, calls: seq<Call>)
    requires Agrees(w) && Ready(w)
    requires forall call | call in calls :: Careful(c, call)
    ensures Agrees(AfterCalls(c, w, calls)) && Ready(AfterCalls(c, w, calls))
  {
    if calls != [] {
      var n := |calls| - 1;
      assert calls[n] in calls && forall call | call in calls[..n] :: call in calls;
      CarefulRunsAgree(c, w, calls[..n]);
      var before := AfterCalls(c, w, calls[..n]);
      CarefulDoesNotLeak(c, before, calls[n]);
      StaysReady(c, before, calls[n]);
      AgreementKeptExactly(c, before, calls[n].request, calls[n].environment, calls[n].id);
    }
  }

  /** The row's VLAN has an interface on some switch. */
  ghost predicate HasInterface(t: Tables, s: SubnetRow) {
    exists device: Id, tag: int :: Located(t, s.vlan, device, tag)
  }

  /** `delete_subnet` only deletes the row, so on an agreeing world with disjoint blocks the agreement
      survives exactly when the id names no row whose VLAN has an interface. */
  lemma DeleteSubnetForgetsTheSwitch(w: World, id: Id)
    requires Agrees(w) && PairwiseDisjoint(w.tables)
    ensures Agrees(w.(tables := Db.DeleteSubnet(w.tables, id)))
            <==> forall s | s in w.tables.subnets && s.id == id :: !HasInterface(w.tables, s)
  {
    var t, t' := w.tables, Db.DeleteSubnet(w.tables, id);
    if s :| s in t.subnets && s.id == id && HasInterface(t, s) {
      var device: Id, tag: int :| Located(t, s.vlan, device, tag);
      AddressForgotten(w, s, device, tag);
    } else {
      forall device: Id, tag: int
        ensures InDatabase(t', device, tag) == InDatabase(t, device, tag)
      {
        RowsWithoutInterfaceDoNotCount(t, id, device, tag);
      }
    }
  }

  lemma RowsWithoutInterfaceDoNotCount(t: Tables, id: Id, device: Id, tag: int)
    requires forall s | s in t.subnets && s.id == id :: !HasInterface(t, s)
    ensures InDatabase(Db.DeleteSubnet(t, id), device, tag) == InDatabase(t, device, tag)
  {
    var t' := Db.DeleteSubnet(t, id);
    assert forall o: Option<Id> :: Located(t', o, device, tag) == Located(t, o, device, tag);
    forall s | s in t.subnets && Located(t, s.vlan, device, tag)
      ensures s in t'.subnets
    {
    }
  }

  lemma AddressForgotten(w: World, s: SubnetRow, device: Id, tag: int)
    requires Agrees(w) && PairwiseDisjoint(w.tables)
    requires s in w.tables.subnets && Located(w.tables, s.vlan, device, tag)
    ensures !Agrees(w.(tables := Db.DeleteSubnet(w.tables, s.id)))
  {
    var t' := Db.DeleteSubnet(w.tables, s.id);
    assert Net(s.cidr) in InDatabase(w.tables, device, tag);
    assert OnSwitch(w.network, device, tag) == InDatabase(w.tables, device, tag);
    if Net(s.cidr) in InDatabase(t', device, tag) {
      var other :| other in t'.subnets && Net(other.cidr) == Net(s.cidr);
      SameNetOverlaps(other.cidr, s.cidr);
      OverlapTestsExact(other.cidr, s.cidr);
    }
  }

  lemma LocatedAfterDelete(t: Tables, id: Id, vlan: Option<Id>, device: Id, tag: int)
    requires Db.Keyed(t) && HasVlan(t, id)
    ensures Located(Db.DeleteVlan(t, id).value, vlan, device, tag)
            <==> vlan != Some(id) && Located(t, vlan, device, tag)
  {
    var t' := Db.DeleteVlan(t, id).value;
    if vlan.Some? && vlan != Some(id) && FindVlan(t.vlans, vlan.value).Some? {
      assert FindVlan(t.vlans, vlan.value).value in t'.vlans;
    }
  }

  /** What the database still has for an interface: the rows of the other VLANs. */
  lemma DatabaseAfterDelete(t: Tables, id: Id, device: Id, tag: int)
    requires Db.Keyed(t) && HasVlan(t, id)
    ensures InDatabase(Db.DeleteVlan(t, id).value, device, tag)
            == set s | s in t.subnets && s.vlan != Some(id) && Located(t, s.vlan, device, tag) :: Net(s.cidr)
  {
    var t' := Db.DeleteVlan(t, id).value;
    forall o: Option<Id>
      ensures Located(t', o, device, tag) <==> o != Some(id) && Located(t, o, device, tag)
    {
      LocatedAfterDelete(t, id, o, device, tag);
    }
    forall s | s in t.subnets && s.vlan != Some(id)
      ensures s in t'.subnets
    {
      var i :| 0 <= i < |t.subnets| && t.subnets[i] == s;
      assert t'.subnets[i] == s;
    }
  }

  /** Deleting a VLAN detaches its subnets and never asks the switch, so on an agreeing world with disjoint
      blocks the agreement survives exactly when the VLAN has no subnet or no interface. */
  lemma DeletingVlanForgetsTheSwitch(w: World, id: Id)
    requires Agrees(w) && PairwiseDisjoint(w.tables) && Db.Keyed(w.tables) && HasVlan(w.tables, id)
    ensures Agrees(w.(tables := Db.DeleteVlan(w.tables, id).value))
            <==> forall s | s in w.tables.subnets && s.vlan == Some(id) :: !HasInterface(w.tables, s)
  {
    var t, t' := w.tables, Db.DeleteVlan(w.tables, id).value;
    if s :| s in t.subnets && s.vlan == Some(id) && HasInterface(t, s) {
      var device: Id, tag: int :| Located(t, s.vlan, device, tag);
      DetachedForgotten(w, s, id, device, tag);
    } else {
      forall device: Id, tag: int
        ensures InDatabase(t', device, tag) == InDatabase(t, device, tag)
      {
        DatabaseAfterDelete(t, id, device, tag);
      }
    }
  }

  lemma DetachedForgotten(w: World, s: SubnetRow, id: Id, device: Id, tag: int)
    requires Agrees(w) && PairwiseDisjoint(w.tables) && Db.Keyed(w.tables) && HasVlan(w.tables, id)
    requires s in w.tables.subnets && s.vlan == Some(id) && Located(w.tables, s.vlan, device, tag)
    ensures !Agrees(w.(tables := Db.DeleteVlan(w.tables, id).value))
  {
    var t' := Db.DeleteVlan(w.tables, id).value;
    DatabaseAfterDelete(w.tables, id, device, tag);
    assert Net(s.cidr) in InDatabase(w.tables, device, tag);
    assert OnSwitch(w.network, device, tag) == InDatabase(w.tables, device, tag);
    if Net(s.cidr) in InDatabase(t', device, tag) {
      var other :| other in w.tables.subnets && other.vlan != Some(id) && Net(other.cidr) == Net(s.cidr);
      SameNetOverlaps(other.cidr, s.cidr);
      OverlapTestsExact(other.cidr, s.cidr);
    }
  }
}
