/** What `update_port` does, told by its request and the tables before it: which rows it stores, what it
    restores, what agrees when it returns, and what every run of it keeps. */
module PortFlipRuns {
  import opened Prelude
  import opened Rows
  import opened Schema
  import opened Text
  import opened PortFlip
  import opened VlanRange
  import Db = NetforceDb
  import Sw = SwitchPort

  // ----- the request on the tables before the call

  /** What finding the VLANs of a request depends on. */
  predicate SameLookups(t: Tables, t': Tables, port: Id) {
    && t'.vlans == t.vlans && t'.vpcs == t.vpcs && t'.devices == t.devices
    && port in t.ports && port in t'.ports && t'.ports[port].device == t.ports[port].device
  }

  lemma ResolveFrame(t: Tables, t': Tables, port: Id, ref: VlanRef)
    requires SameLookups(t, t', port)
    ensures Resolve(t', port, ref) == Resolve(t, port, ref)
  {
  }

  predicate Resolvable(t: Tables, port: Id, refs: seq<VlanRef>) {
    forall k | 0 <= k < |refs| :: Resolve(t, port, refs[k]).Ok?
  }

  /** Every reference names a VLAN, no two the same. */
  predicate Storable(t: Tables, port: Id, refs: seq<VlanRef>) {
    && Resolvable(t, port, refs)
    && forall i, j | 0 <= i < j < |refs| :: Resolve(t, port, refs[i]).value.id != Resolve(t, port, refs[j]).value.id
  }

  function RowsFor(t: Tables, port: Id, refs: seq<VlanRef>): (rows: seq<AssociationRow>)
    requires Resolvable(t, port, refs)
    ensures |rows| == |refs|
  {
    seq(|refs|, k requires 0 <= k < |refs| =>
      AssociationRow(port, Resolve(t, port, refs[k]).value.id, IsNative(refs[k])))
  }

  function TaggedAll(t: Tables, port: Id, refs: seq<VlanRef>): (tagged: seq<VlanRef>)
    requires Resolvable(t, port, refs)
    ensures |tagged| == |refs|
  {
    seq(|refs|, k requires 0 <= k < |refs| => Tagged(refs[k], Resolve(t, port, refs[k]).value))
  }

  /** The flip that reaches the driver: every VLAN by the tag given, or by its stored tag. */
  function RequestFlip(t: Tables, port: Id, r: Request): Sw.Flip
    requires r.vlans.Some? && SwitchPortMode in r.columns && Resolvable(t, port, r.vlans.value)
  {
    ToFlip(r.columns[SwitchPortMode], TaggedAll(t, port, r.vlans.value))
  }

  /** No earlier reference names the VLAN of the last one. */
  predicate LastIsNew(t: Tables, port: Id, refs: seq<VlanRef>)
    requires refs != [] && Resolvable(t, port, refs)
  {
    forall k | 0 <= k < |refs| - 1 :: Resolve(t, port, refs[k]).value.id != Resolve(t, port, refs[|refs| - 1]).value.id
  }

  lemma StorableSnoc(t: Tables, port: Id, refs: seq<VlanRef>)
    requires refs != []
    ensures Storable(t, port, refs) <==>
            Storable(t, port, refs[..|refs| - 1]) && Resolvable(t, port, refs) && LastIsNew(t, port, refs)
    ensures Resolvable(t, port, refs)
            <==> Resolvable(t, port, refs[..|refs| - 1]) && Resolve(t, port, refs[|refs| - 1]).Ok?
  {
    assert forall k | 0 <= k < |refs| - 1 :: refs[..|refs| - 1][k] == refs[k];
  }

  lemma RowsSnoc(t: Tables, port: Id, refs: seq<VlanRef>)
    requires refs != [] && Resolvable(t, port, refs) && Resolvable(t, port, refs[..|refs| - 1])
    ensures var last := refs[|refs| - 1];
            RowsFor(t, port, refs)
            == RowsFor(t, port, refs[..|refs| - 1])
                + [AssociationRow(port, Resolve(t, port, last).value.id, IsNative(last))]
  {
    assert forall k | 0 <= k < |refs| - 1 :: refs[..|refs| - 1][k] == refs[k];
  }

  /** A row is stored unless its pair is taken. */
  lemma StoredUnlessTaken(t: Tables, row: AssociationRow)
    requires row.port in t.ports && HasVlan(t, row.vlan)
    ensures Db.CreateAssociation(t, row).Ok?
            <==> !exists a | a in t.associations :: a.port == row.port && a.vlan == row.vlan
    ensures Db.CreateAssociation(t, row).Ok? ==>
              var t' := Db.CreateAssociation(t, row).value;
              && t' == t.(associations := t'.associations)
              && AssociationsOf(t', row.port) == AssociationsOf(t, row.port) + [row]
  {
    FilterSnoc(t.associations, row, OnPort(row.port));
  }

  lemma OneMore(t: Tables, t1: Tables, port: Id, done: seq<VlanRef>, refs: seq<VlanRef>)
    requires refs != [] && SameLookups(t, t1, port) && t1 == t.(associations := t1.associations)
    requires Storable(t, port, refs[..|refs| - 1]) && AssociationsOf(t1, port) == RowsFor(t, port, refs[..|refs| - 1])
    ensures AssociateOne(t1, port, done, refs[|refs| - 1]).Ok? <==> Storable(t, port, refs)
    ensures Storable(t, port, refs) ==>
              var (t', done') := AssociateOne(t1, port, done, refs[|refs| - 1]).value;
              && t' == t1.(associations := t'.associations) && AssociationsOf(t', port) == RowsFor(t, port, refs)
              && done' == done + [Tagged(refs[|refs| - 1], Resolve(t, port, refs[|refs| - 1]).value)]
  {
    var last := refs[|refs| - 1];
    ResolveFrame(t, t1, port, last);
    StorableSnoc(t, port, refs);
    if Resolve(t, port, last).Ok? {
      var v := Resolve(t, port, last).value;
      PairTaken(t, t1, port, refs, v.id);
      StoredUnlessTaken(t1, AssociationRow(port, v.id, IsNative(last)));
      RowsSnoc(t, port, refs);
    }
  }

  /** A pair is taken exactly by an earlier reference to the same VLAN. */
  lemma PairTaken(t: Tables, t1: Tables, port: Id, refs: seq<VlanRef>, vlan: Id)
    requires refs != [] && Resolvable(t, port, refs[..|refs| - 1])
    requires AssociationsOf(t1, port) == RowsFor(t, port, refs[..|refs| - 1])
    ensures (exists a | a in t1.associations :: a.port == port && a.vlan == vlan)
            <==> exists k :: 0 <= k < |refs| - 1 && Resolve(t, port, refs[k]).value.id == vlan
  {
    var n := |refs| - 1;
    var rows := RowsFor(t, port, refs[..n]);
    assert forall k | 0 <= k < n :: refs[..n][k] == refs[k];
    if a :| a in t1.associations && a.port == port && a.vlan == vlan {
      assert a in rows;
      var k :| 0 <= k < n && rows[k] == a;
    }
    if k :| 0 <= k < n && Resolve(t, port, refs[k]).value.id == vlan {
      assert rows[k] in AssociationsOf(t1, port);
    }
  }

  /** The loop's work: one row per reference, for the VLAN it names and with its native flag, and each
      reference rewritten to a tag. */
  ghost predicate Stored(t: Tables, t': Tables, port: Id, refs: seq<VlanRef>, done: seq<VlanRef>)
    requires Resolvable(t, port, refs)
  {
    t' == t.(associations := t'.associations) && AssociationsOf(t', port) == RowsFor(t, port, refs)
        && done == TaggedAll(t, port, refs)
  }

  lemma TaggedSnoc(t: Tables, port: Id, refs: seq<VlanRef>)
    requires refs != [] && Resolvable(t, port, refs) && Resolvable(t, port, refs[..|refs| - 1])
    ensures TaggedAll(t, port, refs)
            == TaggedAll(t, port, refs[..|refs| - 1])
                + [Tagged(refs[|refs| - 1], Resolve(t, port, refs[|refs| - 1]).value)]
  {
    assert forall k | 0 <= k < |refs| - 1 :: refs[..|refs| - 1][k] == refs[k];
  }

  /** The loop returns exactly for a storable request, with its work done. */
  lemma {:induction false} LoopStoresRequest(t: Tables, port: Id, refs: seq<VlanRef>)
    requires AssociationsOf(t, port) == [] && port in t.ports
    ensures Associated(t, port, refs).Ok? <==> Storable(t, port, refs)
    ensures Storable(t, port, refs) ==>
              Stored(t, Associated(t, port, refs).value.0, port, refs, Associated(t, port, refs).value.1)
  {
    if refs != [] {
      var n := |refs| - 1;
      LoopStoresRequest(t, port, refs[..n]);
      StorableSnoc(t, port, refs);
      if Storable(t, port, refs[..n]) {
        var (t1, done) := Associated(t, port, refs[..n]).value;
        OneMore(t, t1, port, done, refs);
        if Storable(t, port, refs) {
          TaggedSnoc(t, port, refs);
        }
      }
    }
  }

  /** The database transaction goes through. */
  predicate Commits(t: Tables, port: Id, r: Request, env: Environment)
    requires port in t.ports
  {
    && (Flips(r) ==> Storable(t, port, r.vlans.value))
    && AdminStep(t.ports[port].columns, r, env) == None
    && !(Label in r.columns && !env.labelOk)
  }

  /** The tables before the loop: columns updated, associations flushed. */
  function Flushed(t: Tables, port: Id, r: Request): Tables
    requires port in t.ports
  {
    Db.DeleteAssociationsOfPort(Db.UpdatePort(t, port, r.columns).value, port)
  }

  lemma FlushedLookups(t: Tables, port: Id, r: Request, refs: seq<VlanRef>)
    requires port in t.ports
    ensures AssociationsOf(Flushed(t, port, r), port) == [] && SameLookups(t, Flushed(t, port, r), port)
    ensures Storable(Flushed(t, port, r), port, refs) == Storable(t, port, refs)
    ensures Storable(t, port, refs) ==> RowsFor(Flushed(t, port, r), port, refs) == RowsFor(t, port, refs)
    ensures Storable(t, port, refs) ==> TaggedAll(Flushed(t, port, r), port, refs) == TaggedAll(t, port, refs)
  {
    var start := Flushed(t, port, r);
    FilterNone(start.associations, OnPort(port));
    forall k | 0 <= k < |refs|
      ensures Resolve(start, port, refs[k]) == Resolve(t, port, refs[k])
    {
      ResolveFrame(t, start, port, refs[k]);
    }
  }

  /** It commits exactly for those requests, with the rows they name. */
  lemma CommittedExactly(t: Tables, port: Id, r: Request, env: Environment)
    requires port in t.ports
    ensures Committed(t, port, r, env).Ok? <==> Commits(t, port, r, env)
    ensures Commits(t, port, r, env) && Flips(r) ==>
              var (t', refs) := Committed(t, port, r, env).value;
              AssociationsOf(t', port) == RowsFor(t, port, r.vlans.value) && refs == TaggedAll(t, port, r.vlans.value)
  {
    if Flips(r) {
      FlushedLookups(t, port, r, r.vlans.value);
      LoopStoresRequest(Flushed(t, port, r), port, r.vlans.value);
    }
  }

  // ----- the MAC check

  /** The check cannot pass: no usable native VLAN, no MAC table, or a table without the address. */
  predicate MacFails(f: Sw.Flip, r: Request, env: Environment) {
    r.mac.Some? &&
    (|| (match Sw.FirstNative(f.vlans) case None => true case Some(tag) => ParseInt(tag) == Some(0))
     || (match env.macs case None => true case Some(macs) => macs != [] && r.mac.value !in macs))
  }

  /** Stored rows and the flip's VLANs, one by one. */
  ghost predicate Aligned(vlans: seq<VlanRow>, rows: seq<AssociationRow>, asked: seq<Sw.FlipVlan>) {
    |rows| == |asked| && forall k | 0 <= k < |rows| ::
      && FindVlan(vlans, rows[k].vlan).Some? && ParseInt(asked[k].tag) == Some(FindVlan(vlans, rows[k].vlan).value.tag)
      && rows[k].isNative == asked[k].isNative
  }

  lemma {:induction false} NativeTagIsFirst(vlans: seq<VlanRow>, rows: seq<AssociationRow>, asked: seq<Sw.FlipVlan>)
    requires Aligned(vlans, rows, asked)
    ensures NativeTag(vlans, rows).None? <==>
            match Sw.FirstNative(asked) case None => true case Some(tag) => ParseInt(tag) == Some(0)
  {
    if rows != [] && !rows[0].isNative {
      NativeTagIsFirst(vlans, rows[1..], asked[1..]);
    }
  }

  lemma ResolvedIsFound(t: Tables, port: Id, ref: VlanRef)
    requires Db.Keyed(t) && Resolve(t, port, ref).Ok?
    ensures var v := Resolve(t, port, ref).value;
            && FindVlan(t.vlans, v.id) == Some(v)
            && Tagged(ref, v).tag.Some? && ParseInt(Tagged(ref, v).tag.value) == Some(v.tag)
            && IsNative(Tagged(ref, v)) == IsNative(ref)
  {
    ParseDecimal(Resolve(t, port, ref).value.tag);
  }

  lemma RequestIsAligned(t: Tables, port: Id, r: Request)
    requires Db.Keyed(t) && r.vlans.Some? && SwitchPortMode in r.columns && Resolvable(t, port, r.vlans.value)
    ensures Aligned(t.vlans, RowsFor(t, port, r.vlans.value), RequestFlip(t, port, r).vlans)
  {
    forall k | 0 <= k < |r.vlans.value| {
      ResolvedIsFound(t, port, r.vlans.value[k]);
    }
  }

  lemma MacStepOfRows(t: Tables, port: Id, r: Request, env: Environment, f: Sw.Flip)
    requires Aligned(t.vlans, AssociationsOf(t, port), f.vlans)
    ensures MacStep(t, port, r, env).Some? <==> MacFails(f, r, env)
  {
    NativeTagIsFirst(t.vlans, AssociationsOf(t, port), f.vlans);
  }

  lemma MacStepExactly(t: Tables, port: Id, r: Request, env: Environment)
    requires Db.Keyed(t) && port in t.ports && Flips(r) && SwitchPortMode in r.columns && Commits(t, port, r, env)
    ensures Committed(t, port, r, env).Ok?
    ensures MacStep(Committed(t, port, r, env).value.0, port, r, env).Some?
            <==> MacFails(RequestFlip(t, port, r), r, env)
  {
    CommittedExactly(t, port, r, env);
    CommittedFrame(t, port, r, env);
    RequestIsAligned(t, port, r);
    MacStepOfRows(Committed(t, port, r, env).value.0, port, r, env, RequestFlip(t, port, r));
  }

  // ----- every exit of the call

  /** The failures of the MAC check, between the commit and the push. */
  predicate InMacCheck(e: Error) {
    e.NoNativeVlan? || e.MacReadFailed? || e.MacNotOnInterface?
  }

  /** The call commits; a flip then goes on to the MAC check. */
  predicate GoesOn(t: Tables, port: Id, r: Request, env: Environment) {
    EarlyError(t, port, r) == None && Commits(t, port, r, env)
  }

  lemma FlipHasMode(t: Tables, port: Id, r: Request, env: Environment)
    requires GoesOn(t, port, r, env) && Flips(r)
    ensures SwitchPortMode in r.columns && Resolvable(t, port, r.vlans.value)
  {
  }

  /** The request and the MAC table decide, before the switch is asked: a request that does not commit
      changes nothing anywhere; one without VLANs changes the row only; one whose MAC check cannot pass keeps
      the new rows although the switch is not touched; any other one is pushed. */
  lemma EarlyFailures<D>(dr: Sw.Driver<D>, t: Tables, d: D, port: Id, r: Request, env: Environment)
    requires Db.Keyed(t)
    ensures var final := Update(dr, t, d, port, r, env);
            if !GoesOn(t, port, r, env) then final.tables == t && final.device == d && final.answer.Some?
            else
              && Committed(t, port, r, env).Ok?
              && var t1 := Committed(t, port, r, env).value.0;
                 if !Flips(r) then final == Final(t1, d, None)
                 else if MacFails(RequestFlip(t, port, r), r, env) then
                   final.tables == t1 && final.device == d && final.answer.Some? && InMacCheck(final.answer.value)
                 else port in t1.ports && final == PushPhase(dr, t, t1, d, port, RequestFlip(t, port, r), env)
  {
    if EarlyError(t, port, r) == None {
      CommittedExactly(t, port, r, env);
      if Commits(t, port, r, env) {
        CommittedFrame(t, port, r, env);
        if Flips(r) {
          MacStepExactly(t, port, r, env);
        }
      }
    }
  }

  // ----- rollback

  /** The fields a snapshot can give back: all that were not empty, or that the request leaves as they are. */
  predicate Restorable(columns: Columns, patch: Columns) {
    forall f | f in {AssetId, Label} && f in patch ::
      f in columns && ((columns[f] != None && columns[f] != Some("")) || columns[f] == patch[f])
  }

  lemma ColumnsRestoredExactly(columns: Columns, patch: Columns)
    requires columns.Keys == ALL_FIELDS && patch.Keys <= ALL_FIELDS
    ensures columns + patch + Snapshot(columns) == columns <==> Restorable(columns, patch)
  {
    var after := columns + patch + Snapshot(columns);
    assert after.Keys == columns.Keys;
    if Restorable(columns, patch) {
      forall f | f in columns ensures after[f] == columns[f] {
      }
      assert after == columns;
    } else {
      var f :| f in {AssetId, Label} && f in patch
               && !(f in columns && ((columns[f] != None && columns[f] != Some("")) || columns[f] == patch[f]));
      assert f in columns && after[f] == patch[f] != columns[f];
    }
  }

  /** Errors after which the database is rolled back from the snapshot. */
  predicate RollsBack(e: Error) {
    e.InterfaceUnreadable? || e.DeviceError?
  }

  lemma PushErrors<D>(dr: Sw.Driver<D>, t: Tables, t1: Tables, d: D, port: Id, f: Sw.Flip, env: Environment)
    requires port in t.ports && port in t1.ports
    ensures var final := PushPhase(dr, t, t1, d, port, f, env);
            && (final.answer.Some? && RollsBack(final.answer.value) ==>
                  final.tables == RolledBack(t1, port, Snapshot(t.ports[port].columns), AssociationsOf(t, port)))
            && (final.answer.Some? && !RollsBack(final.answer.value) ==>
                  final.answer == Some(ChangeStopActive) && final.tables == t1)
            && (final.answer == None ==> final.tables == t1)
  {
  }

  /** The exceptions that leave the transaction. */
  predicate InTransaction(e: Error) {
    match e
    case NoNativeVlan | MacReadFailed | MacNotOnInterface | InterfaceUnreadable | ChangeStopActive | DeviceError(_)
         | FlipAndEnableTogether | PortNotFound => false
    case _ => true
  }

  lemma CommittedErrors(t: Tables, port: Id, r: Request, env: Environment)
    requires port in t.ports
    ensures Committed(t, port, r, env).Raised? ==> InTransaction(Committed(t, port, r, env).error)
  {
    if Flips(r) {
      AssociatedErrors(Flushed(t, port, r), port, r.vlans.value);
    }
  }

  lemma {:induction false} AssociatedErrors(t: Tables, port: Id, refs: seq<VlanRef>)
    ensures Associated(t, port, refs).Raised? ==> InTransaction(Associated(t, port, refs).error)
  {
    if refs != [] {
      AssociatedErrors(t, port, refs[..|refs| - 1]);
      if Associated(t, port, refs[..|refs| - 1]).Ok? {
        var t' := Associated(t, port, refs[..|refs| - 1]).value.0;
        ResolveErrors(t', port, refs[|refs| - 1]);
      }
    }
  }

  lemma ResolveErrors(t: Tables, port: Id, ref: VlanRef)
    ensures Resolve(t, port, ref).Raised? ==> InTransaction(Resolve(t, port, ref).error)
  {
    if PortGroup(t, port).Some? && ref.vpc.Some? {
      VpcScanErrors(t.vpcs, VlansOf(t, PortGroup(t, port).value), ref.vpc.value);
    }
  }

  lemma {:induction false} VpcScanErrors(vpcs: seq<NamedRow>, vlans: seq<VlanRow>, name: string)
    ensures FindByVpcName(vpcs, vlans, name).Raised? ==> InTransaction(FindByVpcName(vpcs, vlans, name).error)
  {
    if vlans != [] {
      VpcScanErrors(vpcs, vlans[1..], name);
    }
  }

  lemma RollbackCommitted<D>(dr: Sw.Driver<D>, t: Tables, d: D, port: Id, r: Request, env: Environment)
    requires Update(dr, t, d, port, r, env).answer.Some? && RollsBack(Update(dr, t, d, port, r, env).answer.value)
    ensures EarlyError(t, port, r) == None && Flips(r) && Committed(t, port, r, env).Ok?
    ensures MacStep(Committed(t, port, r, env).value.0, port, r, env) == None
  {
    assert EarlyError(t, port, r) == None;
    CommittedErrors(t, port, r, env);
  }

  /** Which branch a rolled-back call took. */
  lemma RollbackCase<D>(dr: Sw.Driver<D>, t: Tables, d: D, port: Id, r: Request, env: Environment)
    requires Update(dr, t, d, port, r, env).answer.Some? && RollsBack(Update(dr, t, d, port, r, env).answer.value)
    ensures EarlyError(t, port, r) == None && Flips(r) && Committed(t, port, r, env).Ok?
    ensures port in Committed(t, port, r, env).value.0.ports
    ensures var t1 := Committed(t, port, r, env).value.0;
            Update(dr, t, d, port, r, env).tables
            == RolledBack(t1, port, Snapshot(t.ports[port].columns), AssociationsOf(t, port))
  {
    RollbackCommitted(dr, t, d, port, r, env);
    var (t1, refs) := Committed(t, port, r, env).value;
    CommittedFrame(t, port, r, env);
    PushErrors(dr, t, t1, d, port, ToFlip(r.columns[SwitchPortMode], refs), env);
  }

  /** What the rollback puts into the port table. */
  lemma PortsRestored(t: Tables, t1: Tables, port: Id, patch: Columns)
    requires port in t.ports && t.ports[port].columns.Keys == ALL_FIELDS && patch.Keys <= ALL_FIELDS
    requires t1.ports == t.ports[port := t.ports[port].(columns := t.ports[port].columns + patch)]
    ensures var ports := RolledBack(t1, port, Snapshot(t.ports[port].columns), AssociationsOf(t, port)).ports;
            && ports - {port} == t.ports - {port} && port in ports && ports[port].device == t.ports[port].device
            && (ports == t.ports <==> Restorable(t.ports[port].columns, patch))
  {
    var ports := RolledBack(t1, port, Snapshot(t.ports[port].columns), AssociationsOf(t, port)).ports;
    ColumnsRestoredExactly(t.ports[port].columns, patch);
    assert ports[port].columns == t.ports[port].columns + patch + Snapshot(t.ports[port].columns);
    assert ports == t.ports[port := t.ports[port].(columns := ports[port].columns)];
    if ports[port].columns == t.ports[port].columns {
      assert t.ports[port := t.ports[port]] == t.ports;
    }
  }

  /** A flip that fails on the switch leaves every table as before: all associations of all ports, and
      every column of the port exactly when its asset id and label were not empty, or not in the request. */
  lemma RollbackRestores<D>(dr: Sw.Driver<D>, t: Tables, d: D, port: Id, r: Request, env: Environment)
    requires Update(dr, t, d, port, r, env).answer.Some? && RollsBack(Update(dr, t, d, port, r, env).answer.value)
    requires port in t.ports ==> t.ports[port].columns.Keys == ALL_FIELDS && r.columns.Keys <= ALL_FIELDS
    ensures port in t.ports
    ensures var t' := Update(dr, t, d, port, r, env).tables;
            && multiset(t'.associations) == multiset(t.associations)
            && (forall q: Id :: AssociationsOf(t', q) == AssociationsOf(t, q))
            && t' == t.(associations := t'.associations, ports := t'.ports)
            && t'.ports - {port} == t.ports - {port} && port in t'.ports
               && t'.ports[port].device == t.ports[port].device
            && (t'.ports == t.ports <==> Restorable(t.ports[port].columns, r.columns))
  {
    RollbackCase(dr, t, d, port, r, env);
    RolledBackRestores(t, port, r, env);
  }

  lemma RolledBackRestores(t: Tables, port: Id, r: Request, env: Environment)
    requires port in t.ports && Flips(r) && Committed(t, port, r, env).Ok?
    requires t.ports[port].columns.Keys == ALL_FIELDS && r.columns.Keys <= ALL_FIELDS
    requires port in Committed(t, port, r, env).value.0.ports
    ensures var t1 := Committed(t, port, r, env).value.0;
            var t' := RolledBack(t1, port, Snapshot(t.ports[port].columns), AssociationsOf(t, port));
            && multiset(t'.associations) == multiset(t.associations)
            && (forall q: Id :: AssociationsOf(t', q) == AssociationsOf(t, q))
            && t' == t.(associations := t'.associations, ports := t'.ports)
            && t'.ports - {port} == t.ports - {port} && port in t'.ports
               && t'.ports[port].device == t.ports[port].device
            && (t'.ports == t.ports <==> Restorable(t.ports[port].columns, r.columns))
  {
    var t1 := Committed(t, port, r, env).value.0;
    CommittedFrame(t, port, r, env);
    AssociationsRestored(t, t1, port, r, env);
    PortsRestored(t, t1, port, r.columns);
  }

  /** Before the push, the other ports' rows are untouched and in place. */
  lemma {:induction false} AssociatedKeepsOthers(t: Tables, port: Id, refs: seq<VlanRef>)
    requires Associated(t, port, refs).Ok?
    ensures Filter(Associated(t, port, refs).value.0.associations, OffPort(port))
            == Filter(t.associations, OffPort(port))
  {
    if refs != [] {
      var n := |refs| - 1;
      AssociatedKeepsOthers(t, port, refs[..n]);
      var (t1, done) := Associated(t, port, refs[..n]).value;
      var v := Resolve(t1, port, refs[n]).value;
      FilterSnoc(t1.associations, AssociationRow(port, v.id, IsNative(refs[n])), OffPort(port));
    }
  }

  lemma AssociationsRestored(t: Tables, t1: Tables, port: Id, r: Request, env: Environment)
    requires port in t.ports && Flips(r) && Committed(t, port, r, env).Ok? && t1 == Committed(t, port, r, env).value.0
    ensures var rows := Db.DeleteAssociationsOfPort(t1, port).associations + AssociationsOf(t, port);
            && rows == Filter(t.associations, OffPort(port)) + Filter(t.associations, OnPort(port))
            && multiset(rows) == multiset(t.associations)
            && forall q: Id :: Filter(rows, OnPort(q)) == Filter(t.associations, OnPort(q))
  {
    AssociatedKeepsOthers(Flushed(t, port, r), port, r.vlans.value);
    var off, on := Filter(t.associations, OffPort(port)), Filter(t.associations, OnPort(port));
    FilterAll(off, OffPort(port));
    FilterSplits(t.associations, OffPort(port));
    FilterSame(t.associations, Not(OffPort(port)), OnPort(port));
    forall q: Id
      ensures Filter(off + on, OnPort(q)) == Filter(t.associations, OnPort(q))
    {
      RegroupedRows(t.associations, port, q);
    }
  }

  /** Putting a port's rows at the end changes no port's rows. */
  lemma RegroupedRows(rows: seq<AssociationRow>, port: Id, q: Id)
    ensures Filter(Filter(rows, OffPort(port)) + Filter(rows, OnPort(port)), OnPort(q)) == Filter(rows, OnPort(q))
  {
    var off, on := Filter(rows, OffPort(port)), Filter(rows, OnPort(port));
    FilterAppend(off, on, OnPort(q));
    FilterTwice(rows, OffPort(port), OnPort(q));
    FilterTwice(rows, OnPort(port), OnPort(q));
    if q == port {
      FilterNone(off, OnPort(q));
      FilterSame(rows, Both(OnPort(port), OnPort(q)), OnPort(q));
    } else {
      FilterNone(on, OnPort(q));
      FilterSame(rows, Both(OffPort(port), OnPort(q)), OnPort(q));
    }
  }

  // ----- agreement

  /** The tags of the port's associations. */
  function StoredTags(t: Tables, port: Id): set<nat> {
    set a | a in AssociationsOf(t, port) && FindVlan(t.vlans, a.vlan).Some? :: FindVlan(t.vlans, a.vlan).value.tag
  }

  function StoredNatives(t: Tables, port: Id): set<nat> {
    set a | a in AssociationsOf(t, port) && a.isNative && FindVlan(t.vlans, a.vlan).Some? ::
        FindVlan(t.vlans, a.vlan).value.tag
  }

  /** The native tags a flip asks for. */
  function RequestedNatives(vlans: seq<Sw.FlipVlan>): set<nat> {
    set v | v in vlans && v.isNative && IsNumeral(v.tag) :: ParseNat(v.tag)
  }

  /** Rows aligned with a flip store exactly what it asks for. */
  lemma AlignedStores(t: Tables, port: Id, asked: seq<Sw.FlipVlan>)
    requires Aligned(t.vlans, AssociationsOf(t, port), asked)
    ensures Sw.Numerals(asked)
    ensures StoredTags(t, port) == Sw.Requested(asked) && StoredNatives(t, port) == RequestedNatives(asked)
  {
    var rows := AssociationsOf(t, port);
    forall v | v in asked
      ensures IsNumeral(v.tag) && ParseNat(v.tag) in StoredTags(t, port)
      ensures v.isNative ==> ParseNat(v.tag) in StoredNatives(t, port)
    {
      var k :| 0 <= k < |asked| && asked[k] == v;
      assert rows[k] in rows;
    }
    forall a | a in rows
      ensures FindVlan(t.vlans, a.vlan).Some? && FindVlan(t.vlans, a.vlan).value.tag in Sw.Requested(asked)
      ensures a.isNative ==> FindVlan(t.vlans, a.vlan).value.tag in RequestedNatives(asked)
    {
      var k :| 0 <= k < |rows| && rows[k] == a;
      assert asked[k] in asked;
    }
  }

  /** However the request named its VLANs, after the commit the port's rows are those the driver is given. */
  lemma CommitStoresRequest(t: Tables, port: Id, r: Request, env: Environment)
    requires Db.Keyed(t) && port in t.ports && Flips(r) && SwitchPortMode in r.columns && Commits(t, port, r, env)
    ensures Committed(t, port, r, env).Ok?
    ensures var t1, f := Committed(t, port, r, env).value.0, RequestFlip(t, port, r);
            && Aligned(t1.vlans, AssociationsOf(t1, port), f.vlans) && Sw.Numerals(f.vlans) && f.vlans != []
            && StoredTags(t1, port) == Sw.Requested(f.vlans) && StoredNatives(t1, port) == RequestedNatives(f.vlans)
  {
    CommittedExactly(t, port, r, env);
    CommittedFrame(t, port, r, env);
    RequestIsAligned(t, port, r);
    AlignedStores(Committed(t, port, r, env).value.0, port, RequestFlip(t, port, r).vlans);
  }

  /** With a single native tag, the first VLAN marked native has it. */
  lemma FirstOfOneNative(vlans: seq<Sw.FlipVlan>, n: nat)
    requires Sw.Numerals(vlans) && RequestedNatives(vlans) == {n}
    ensures Sw.FirstNative(vlans).Some? && ParseInt(Sw.FirstNative(vlans).value) == Some(n)
  {
    assert n in RequestedNatives(vlans);
    var v :| v in vlans && v.isNative && Some(v.tag) == Sw.FirstNative(vlans);
    assert ParseNat(v.tag) in RequestedNatives(vlans);
  }

  /** Stored rows and a read-back agree: on a single native tag, and on the VLANs exactly when the read-back
      lists only numbers and ranges that denote any. */
  ghost predicate Matches(t: Tables, port: Id, data: Sw.VlanData) {
    && (Sw.Carried(data) == Tags(StoredTags(t, port)) <==> Sw.AllPlain(Sw.MembersRead(data)) && Sw.Carried(data) != {})
    && (data.mode == Sw.Trunk && |StoredNatives(t, port)| == 1 ==>
          data.native.Some? && IsNumeral(data.native.value) && StoredNatives(t, port) == {ParseNat(data.native.value)})
  }

  /** When a flip returns, whether or not it had to push and however the VLANs were named, database and
      switch agree: the same mode, in trunk mode with one native tag the same native VLAN, and the port
      carries exactly the stored tags if and only if its read-back lists numbers and ranges that denote any. */
  lemma ReturnedFlipAgrees<D(!new)>(dr: Sw.Driver<D>, t: Tables, d: D, port: Id, r: Request, env: Environment)
    requires Db.Keyed(t) && Flips(r) && Sw.ReadsTheDevice(dr) && Update(dr, t, d, port, r, env).answer == None
    requires dr.read(Update(dr, t, d, port, r, env).device).Ok? ==>
               Sw.WellShaped(dr.read(Update(dr, t, d, port, r, env).device).value)
    ensures var final := Update(dr, t, d, port, r, env);
            && dr.read(final.device).Ok? && port in final.tables.ports
               && SwitchPortMode in final.tables.ports[port].columns
            && dr.read(final.device).value.mode == ModeOf(final.tables.ports[port].columns[SwitchPortMode])
            && Matches(final.tables, port, dr.read(final.device).value)
  {
    EarlyFailures(dr, t, d, port, r, env);
    CommittedFrame(t, port, r, env);
    CommitStoresRequest(t, port, r, env);
    ReturnedPushAgrees(dr, t, d, port, r, env);
  }

  lemma ReturnedPushAgrees<D(!new)>(dr: Sw.Driver<D>, t: Tables, d: D, port: Id, r: Request, env: Environment)
    requires Sw.ReadsTheDevice(dr) && GoesOn(t, port, r, env) && Flips(r) && Committed(t, port, r, env).Ok?
    requires SwitchPortMode in r.columns
    requires var t1, f := Committed(t, port, r, env).value.0, RequestFlip(t, port, r);
             && port in t1.ports && PushPhase(dr, t, t1, d, port, f, env).answer == None
             && Sw.Numerals(f.vlans) && f.vlans != []
             && StoredTags(t1, port) == Sw.Requested(f.vlans) && StoredNatives(t1, port) == RequestedNatives(f.vlans)
    requires var f := RequestFlip(t, port, r);
             dr.read(Sw.Update(dr, d, f).0).Ok? ==> Sw.WellShaped(dr.read(Sw.Update(dr, d, f).0).value)
    ensures var t1, f := Committed(t, port, r, env).value.0, RequestFlip(t, port, r);
            && PushPhase(dr, t, t1, d, port, f, env) == Final(t1, Sw.Update(dr, d, f).0, None)
            && dr.read(Sw.Update(dr, d, f).0).Ok? && dr.read(Sw.Update(dr, d, f).0).value.mode == f.mode
            && Matches(t1, port, dr.read(Sw.Update(dr, d, f).0).value)
  {
    var t1, f := Committed(t, port, r, env).value.0, RequestFlip(t, port, r);
    Sw.ReturnedMeansAgreement(dr, d, f);
    if f.mode == Sw.Trunk && |StoredNatives(t1, port)| == 1 {
      var n :| n in StoredNatives(t1, port);
      OnlyElement(StoredNatives(t1, port), n);
      FirstOfOneNative(f.vlans, n);
    }
  }

  lemma OnlyElement(s: set<nat>, n: nat)
    requires |s| == 1 && n in s
    ensures s == {n}
  {
    assert |s - {n}| == 0;
  }

  // ----- the database over runs of updates

  ghost predicate Sound(t: Tables) {
    Db.Integrity(t) && Db.UniquePairs(t.associations) && Db.Keyed(t)
  }

  lemma {:induction false} AssociatedKeepsSound(t: Tables, port: Id, refs: seq<VlanRef>)
    requires Sound(t) && Associated(t, port, refs).Ok?
    ensures Sound(Associated(t, port, refs).value.0)
  {
    if refs != [] {
      AssociatedKeepsSound(t, port, refs[..|refs| - 1]);
      var (t1, done) := Associated(t, port, refs[..|refs| - 1]).value;
      AssociateOneKeepsSound(t1, port, done, refs[|refs| - 1]);
    }
  }

  lemma AssociateOneKeepsSound(t: Tables, port: Id, done: seq<VlanRef>, ref: VlanRef)
    requires Sound(t) && AssociateOne(t, port, done, ref).Ok?
    ensures Sound(AssociateOne(t, port, done, ref).value.0)
  {
    assert forall i | 0 <= i < |t.associations| :: t.associations[i] in t.associations;
  }

  lemma CommittedIsSound(t: Tables, port: Id, r: Request, env: Environment)
    requires Sound(t) && port in t.ports && Committed(t, port, r, env).Ok?
    ensures Sound(Committed(t, port, r, env).value.0)
  {
    var updated := Db.UpdatePort(t, port, r.columns).value;
    assert Sound(updated);
    if Flips(r) {
      Db.FilterKeepsUnique(updated.associations, OffPort(port));
      AssociatedKeepsSound(Flushed(t, port, r), port, r.vlans.value);
    }
  }

  lemma RolledBackPairsUnique(rows: seq<AssociationRow>, now: seq<AssociationRow>, port: Id)
    requires Db.UniquePairs(rows) && Db.UniquePairs(now)
    ensures Db.UniquePairs(Filter(now, OffPort(port)) + Filter(rows, OnPort(port)))
  {
    var kept, restored := Filter(now, OffPort(port)), Filter(rows, OnPort(port));
    Db.FilterKeepsUnique(now, OffPort(port));
    Db.FilterKeepsUnique(rows, OnPort(port));
    assert forall i | 0 <= i < |kept| :: kept[i] in kept;
    assert forall i | 0 <= i < |restored| :: restored[i] in restored;
  }

  lemma RolledBackIsSound(t: Tables, t1: Tables, port: Id, columns: Columns)
    requires Sound(t) && Sound(t1) && port in t1.ports && t1.vlans == t.vlans
    ensures Sound(RolledBack(t1, port, columns, AssociationsOf(t, port)))
  {
    RolledBackPairsUnique(t.associations, t1.associations, port);
    RolledBackHasIntegrity(t, t1, port, columns);
  }

  lemma RolledBackHasIntegrity(t: Tables, t1: Tables, port: Id, columns: Columns)
    requires Db.Integrity(t) && Db.Integrity(t1) && port in t1.ports && t1.vlans == t.vlans
    ensures Db.Integrity(RolledBack(t1, port, columns, AssociationsOf(t, port)))
  {
    var t2 := RolledBack(t1, port, columns, AssociationsOf(t, port));
    forall a | a in t2.associations
      ensures a.port in t2.ports && HasVlan(t2, a.vlan)
    {
      assert a in t1.associations || a in t.associations;
    }
  }

  /** Every update, however it ends, keeps references intact, pairs unique and keys identifying. */
  lemma UpdateKeepsSound<D>(dr: Sw.Driver<D>, t: Tables, d: D, port: Id, r: Request, env: Environment)
    requires Sound(t)
    ensures Sound(Update(dr, t, d, port, r, env).tables)
  {
    UpdateOutcomes(dr, t, d, port, r, env);
    if EarlyError(t, port, r) == None && Committed(t, port, r, env).Ok? {
      CommittedIsSound(t, port, r, env);
      CommittedFrame(t, port, r, env);
      RolledBackIsSound(t, Committed(t, port, r, env).value.0, port, Snapshot(t.ports[port].columns));
    }
  }

  /** The tables after an update: the old ones, the committed ones, or the rolled-back ones. */
  lemma UpdateOutcomes<D>(dr: Sw.Driver<D>, t: Tables, d: D, port: Id, r: Request, env: Environment)
    ensures var t' := Update(dr, t, d, port, r, env).tables;
            || t' == t
            || (&& EarlyError(t, port, r) == None && Committed(t, port, r, env).Ok?
                && var t1 := Committed(t, port, r, env).value.0;
                   && port in t1.ports
                   && (|| t' == t1
                       || t' == RolledBack(t1, port, Snapshot(t.ports[port].columns), AssociationsOf(t, port))))
  {
    if EarlyError(t, port, r) == None && Committed(t, port, r, env).Ok? {
      CommittedFrame(t, port, r, env);
      var (t1, refs) := Committed(t, port, r, env).value;
      if Flips(r) && MacStep(t1, port, r, env) == None {
        PushErrors(dr, t, t1, d, port, ToFlip(r.columns[SwitchPortMode], refs), env);
      }
    }
  }

  datatype Call = Call(port: Id, request: Request, environment: Environment)

  /** The tables and the switch after a run of updates of its ports, each with the driver of its port. */
  function AfterCalls<D>(drivers: Id -> Sw.Driver<D>, t: Tables, d: D, calls: seq<Call>): (Tables, D) {
    if calls == [] then (t, d)
    else
      var (t1, d1) := AfterCalls(drivers, t, d, calls[..|calls| - 1]);
      var last := calls[|calls| - 1];
      var final := Update(drivers(last.port), t1, d1, last.port, last.request, last.environment);
      (final.tables, final.device)
  }

  /** Over every run of updates, returned or raised, the database stays sound: the state UpdatePort demands. */
  lemma {:induction false} RunsStaySound<D>(drivers: Id -> Sw.Driver<D>, t: Tables, d: D, calls: seq<Call>)
    requires Sound(t)
    ensures Sound(AfterCalls(drivers, t, d, calls).0)
  {
    if calls != [] {
      RunsStaySound(drivers, t, d, calls[..|calls| - 1]);
      var (t1, d1) := AfterCalls(drivers, t, d, calls[..|calls| - 1]);
      var last := calls[|calls| - 1];
      UpdateKeepsSound(drivers(last.port), t1, d1, last.port, last.request, last.environment);
    }
  }
}
