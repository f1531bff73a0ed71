/** Which VLAN a reference of a flip stands for, told without the scans that look for it, what a flip stores
    and pushes for it, and which exception ends a call. */
module PortReferences {
  import opened Prelude
  import opened Schema
  import opened Text
  import opened PortFlip
  import opened PortFlipRuns
  import Db = NetforceDb
  import Sw = SwitchPort

  // ----- the VLAN a reference stands for

  /** The bridge group of the port's device. */
  predicate GroupOf(t: Tables, port: Id, group: Id) {
    && port in t.ports && t.ports[port].device in t.devices
    && t.devices[t.ports[port].device].bridgeGroup == Some(group)
  }

  predicate FirstByTag(vlans: seq<VlanRow>, tag: nat, k: nat) {
    k < |vlans| && vlans[k].tag == tag && forall j | 0 <= j < k :: vlans[j].tag != tag
  }

  predicate OfOtherVpc(vpcs: seq<NamedRow>, v: VlanRow, name: string) {
    VpcName(vpcs, v).Some? && VpcName(vpcs, v) != Some(name)
  }

  /** VLAN k is of the VPC, and the ones before it are of other VPCs. */
  predicate FirstByVpc(vpcs: seq<NamedRow>, vlans: seq<VlanRow>, name: string, k: nat) {
    && k < |vlans| && VpcName(vpcs, vlans[k]) == Some(name)
    && forall j | 0 <= j < k :: OfOtherVpc(vpcs, vlans[j], name)
  }

  /** VLAN k has no VPC, and the ones before it are of other VPCs. */
  predicate FirstWithoutVpc(vpcs: seq<NamedRow>, vlans: seq<VlanRow>, name: string, k: nat) {
    && k < |vlans| && VpcName(vpcs, vlans[k]) == None
    && forall j | 0 <= j < k :: OfOtherVpc(vpcs, vlans[j], name)
  }

  /** The tag given is looked for in the port's bridge group; without a tag the id counts, in all groups; and
      without either the VPC name, in the port's group again. */
  ghost predicate StandsFor(t: Tables, port: Id, ref: VlanRef, v: VlanRow) {
    if ref.tag.Some? then
      exists group, k: nat | GroupOf(t, port, group) && ParseInt(ref.tag.value).Some? ::
        FirstByTag(VlansOf(t, group), ParseInt(ref.tag.value).value, k) && VlansOf(t, group)[k] == v
    else if ref.id.Some? then v in t.vlans && v.id == ref.id.value
    else
      exists group, k: nat | GroupOf(t, port, group) && ref.vpc.Some? ::
        FirstByVpc(t.vpcs, VlansOf(t, group), ref.vpc.value, k) && VlansOf(t, group)[k] == v
  }

  /** Where the scan by tag ends. */
  lemma {:induction false} TagScan(vlans: seq<VlanRow>, tag: nat) returns (k: nat)
    ensures k <= |vlans| && forall j | 0 <= j < k :: vlans[j].tag != tag
    ensures k < |vlans| ==> vlans[k].tag == tag
    ensures FindByTag(vlans, tag) == if k < |vlans| then Some(vlans[k]) else None
  {
    if vlans == [] || vlans[0].tag == tag {
      k := 0;
    } else {
      k := TagScan(vlans[1..], tag);
      k := k + 1;
    }
  }

  /** Where the scan by VPC name ends: at the first VLAN that is not of another VPC. */
  lemma {:induction false} VpcScan(vpcs: seq<NamedRow>, vlans: seq<VlanRow>, name: string) returns (k: nat)
    ensures k <= |vlans| && forall j | 0 <= j < k :: OfOtherVpc(vpcs, vlans[j], name)
    ensures k < |vlans| ==> !OfOtherVpc(vpcs, vlans[k], name)
    ensures FindByVpcName(vpcs, vlans, name)
            == if k == |vlans| then Raised(VlanNotFound)
               else if VpcName(vpcs, vlans[k]) == None then Raised(VlanWithoutVpc)
               else Ok(vlans[k])
  {
    if vlans == [] || !OfOtherVpc(vpcs, vlans[0], name) {
      k := 0;
    } else {
      k := VpcScan(vpcs, vlans[1..], name);
      k := k + 1;
    }
  }

  /** A reference by VPC name: the first VLAN of that VPC in the port's group, unless one without a VPC comes
      before it, which raises; nothing is found exactly if all VLANs of the group are of other VPCs. */
  lemma VpcReferenceExactly(t: Tables, port: Id, ref: VlanRef, group: Id)
    requires ref.tag.None? && ref.id.None? && ref.vpc.Some? && GroupOf(t, port, group)
    ensures var vlans, name, found := VlansOf(t, group), ref.vpc.value, Resolve(t, port, ref);
            && (forall k: nat | FirstByVpc(t.vpcs, vlans, name, k) :: found == Ok(vlans[k]))
            && (found.Ok? ==> exists k: nat :: FirstByVpc(t.vpcs, vlans, name, k) && found == Ok(vlans[k]))
            && (found == Raised(VlanWithoutVpc) <==> exists k: nat :: FirstWithoutVpc(t.vpcs, vlans, name, k))
            && (found == Raised(VlanNotFound)
                <==> forall v | v in t.vlans && v.bridgeGroup == group :: OfOtherVpc(t.vpcs, v, name))
            && (found.Raised? ==> found.error == VlanWithoutVpc || found.error == VlanNotFound)
  {
    var vlans, name := VlansOf(t, group), ref.vpc.value;
    var k := VpcScan(t.vpcs, vlans, name);
    assert forall v :: v in vlans <==> v in t.vlans && v.bridgeGroup == group;
    if k < |vlans| {
      assert vlans[k] in vlans;
      if VpcName(t.vpcs, vlans[k]) == None {
        assert FirstWithoutVpc(t.vpcs, vlans, name, k);
      } else {
        assert FirstByVpc(t.vpcs, vlans, name, k);
      }
    }
  }

  /** A reference by tag: the first VLAN of the port's group with the number, whatever else it names. */
  lemma TagReferenceExactly(t: Tables, port: Id, ref: VlanRef, group: Id, tag: nat)
    requires ref.tag.Some? && ParseInt(ref.tag.value) == Some(tag) && GroupOf(t, port, group)
    ensures var vlans, found := VlansOf(t, group), Resolve(t, port, ref);
            && (forall k: nat | FirstByTag(vlans, tag, k) :: found == Ok(vlans[k]))
            && (found.Ok? ==> exists k: nat :: FirstByTag(vlans, tag, k) && found == Ok(vlans[k]))
            && (found.Raised? <==> forall v | v in t.vlans && v.bridgeGroup == group :: v.tag != tag)
            && (found.Raised? ==> found.error == VlanNotFound)
  {
    var vlans := VlansOf(t, group);
    var k := TagScan(vlans, tag);
    assert forall v :: v in vlans <==> v in t.vlans && v.bridgeGroup == group;
    if k < |vlans| {
      assert vlans[k] in vlans;
      assert FirstByTag(vlans, tag, k);
    }
  }

  /** The other references: by id, in whatever group; and those that find no group, or name nothing. */
  lemma OtherReferencesExactly(t: Tables, port: Id, ref: VlanRef)
    requires Db.Keyed(t)
    ensures var found := Resolve(t, port, ref);
            && (ref.tag.None? && ref.id.Some? ==>
                  if HasVlan(t, ref.id.value) then found.Ok? && found.value in t.vlans && found.value.id == ref.id.value
                  else found == Raised(VlanNotFound))
            && (ref.tag.Some? || (ref.id.None? && ref.vpc.Some?) ==>
                  (found == Raised(NoBridgeGroup) <==> forall group: Id :: !GroupOf(t, port, group)))
            && (ref.tag.Some? && ParseInt(ref.tag.value).None? ==> found.Raised?)
            && (ref.tag.None? && ref.id.None? && ref.vpc.None? ==> found == Raised(BadPayload))
  {
    if group: Id :| GroupOf(t, port, group) {
      if ref.tag.None? && ref.id.None? && ref.vpc.Some? {
        VpcReferenceExactly(t, port, ref, group);
      }
    } else if PortGroup(t, port).Some? {
      assert GroupOf(t, port, PortGroup(t, port).value);
    }
  }

  /** Resolving a reference finds the VLAN it stands for, and no other. */
  lemma ResolveExactly(t: Tables, port: Id, ref: VlanRef, v: VlanRow)
    requires Db.Keyed(t)
    ensures Resolve(t, port, ref) == Ok(v) <==> StandsFor(t, port, ref, v)
  {
    OtherReferencesExactly(t, port, ref);
    if group :| GroupOf(t, port, group) {
      if ref.tag.Some? && ParseInt(ref.tag.value).Some? {
        TagReferenceExactly(t, port, ref, group, ParseInt(ref.tag.value).value);
      } else if ref.tag.None? && ref.id.None? && ref.vpc.Some? {
        VpcReferenceExactly(t, port, ref, group);
      }
    }
  }

  /** The payload names every VLAN by tag afterwards: the tag given, or the stored one in place of id or name. */
  lemma RewrittenExactly(ref: VlanRef, v: VlanRow)
    requires ref.tag.Some? || ref.id.Some? || ref.vpc.Some?
    ensures Tagged(ref, v)
            == VlanRef(if ref.tag.Some? then ref.tag else Some(Decimal(v.tag)),
                       if ref.tag.Some? then ref.id else None,
                       if ref.tag.None? && ref.id.None? then None else ref.vpc,
                       Some(ref.isNative == Some(true)))
  {
  }

  // ----- what is stored and pushed for it

  /** The row stored for a reference, and the VLAN the driver is given: the tag as the request wrote it, or
      else the stored one. */
  ghost predicate Done(t: Tables, port: Id, ref: VlanRef, row: AssociationRow, asked: Sw.FlipVlan) {
    exists v ::
      && StandsFor(t, port, ref, v) && row == AssociationRow(port, v.id, ref.isNative == Some(true))
      && asked == Sw.FlipVlan(if ref.tag.Some? then ref.tag.value else Decimal(v.tag), ref.isNative == Some(true))
  }

  lemma ReferenceIsDone(t: Tables, port: Id, refs: seq<VlanRef>, mode: Option<string>, k: nat)
    requires Db.Keyed(t) && Resolvable(t, port, refs) && k < |refs|
    ensures Done(t, port, refs[k], RowsFor(t, port, refs)[k], ToFlip(mode, TaggedAll(t, port, refs)).vlans[k])
  {
    var v := Resolve(t, port, refs[k]).value;
    ResolveExactly(t, port, refs[k], v);
    assert TaggedAll(t, port, refs)[k] == Tagged(refs[k], v);
  }

  /** What a call does for every VLAN of its request: one row in the table, one VLAN for the driver, in the
      order of the request, and the mode by its text. */
  ghost predicate AllDone(t: Tables, t1: Tables, port: Id, r: Request, f: Sw.Flip)
    requires r.vlans.Some? && SwitchPortMode in r.columns
  {
    var refs, rows := r.vlans.value, AssociationsOf(t1, port);
    && |rows| == |refs| == |f.vlans| && (forall k | 0 <= k < |refs| :: Done(t, port, refs[k], rows[k], f.vlans[k]))
    && (f.mode == Sw.Access <==> r.columns[SwitchPortMode] == Some("access"))
    && (f.mode == Sw.Trunk <==> r.columns[SwitchPortMode] == Some("trunk"))
  }

  lemma FlipMode(text: Option<string>, refs: seq<VlanRef>)
    ensures ToFlip(text, refs).mode == Sw.Access <==> text == Some("access")
    ensures ToFlip(text, refs).mode == Sw.Trunk <==> text == Some("trunk")
  {
    assert "access"[0] != "trunk"[0];
  }

  /** A flip that goes on has been committed with the rows its references stand for, and is pushed, if its MAC
      check passes, with their tags. */
  lemma FlipDoesItsReferences(t: Tables, port: Id, r: Request, env: Environment)
    requires Db.Keyed(t) && GoesOn(t, port, r, env) && Flips(r)
    ensures SwitchPortMode in r.columns && Resolvable(t, port, r.vlans.value) && Committed(t, port, r, env).Ok?
    ensures AllDone(t, Committed(t, port, r, env).value.0, port, r, RequestFlip(t, port, r))
  {
    CommittedExactly(t, port, r, env);
    var refs := r.vlans.value;
    forall k | 0 <= k < |refs|
      ensures Done(t, port, refs[k], RowsFor(t, port, refs)[k], RequestFlip(t, port, r).vlans[k])
    {
      ReferenceIsDone(t, port, refs, r.columns[SwitchPortMode], k);
    }
    FlipMode(r.columns[SwitchPortMode], TaggedAll(t, port, refs));
  }

  /** The row of a reference by VPC name is that of a VLAN of this VPC, in the port's group. */
  ghost predicate OfItsVpc(t: Tables, port: Id, ref: VlanRef, row: AssociationRow) {
    exists v | v in t.vlans ::
      && v.id == row.vlan && GroupOf(t, port, v.bridgeGroup) && ref.vpc.Some? && VpcName(t.vpcs, v) == ref.vpc
  }

  lemma DoneByVpc(t: Tables, port: Id, ref: VlanRef, row: AssociationRow, asked: Sw.FlipVlan)
    requires Done(t, port, ref, row, asked) && ref.tag.None? && ref.id.None?
    ensures OfItsVpc(t, port, ref, row)
  {
    var v :| StandsFor(t, port, ref, v) && row.vlan == v.id;
    var group, k: nat :| GroupOf(t, port, group) && k < |VlansOf(t, group)| && VlansOf(t, group)[k] == v
                         && FirstByVpc(t.vpcs, VlansOf(t, group), ref.vpc.value, k);
    assert v in VlansOf(t, group);
  }

  /** After a call that returned, the table has for every reference by VPC name a VLAN of that VPC. */
  lemma ReturnedStoresItsVpcs<D>(dr: Sw.Driver<D>, t: Tables, d: D, port: Id, r: Request, env: Environment, k: nat)
    requires Db.Keyed(t) && Flips(r) && Update(dr, t, d, port, r, env).answer == None && k < |r.vlans.value|
    requires r.vlans.value[k].tag.None? && r.vlans.value[k].id.None?
    ensures var t' := Update(dr, t, d, port, r, env).tables;
            && |AssociationsOf(t', port)| == |r.vlans.value|
            && OfItsVpc(t', port, r.vlans.value[k], AssociationsOf(t', port)[k])
  {
    EarlyFailures(dr, t, d, port, r, env);
    FlipDoesItsReferences(t, port, r, env);
    CommittedFrame(t, port, r, env);
    var t1, f := Committed(t, port, r, env).value.0, RequestFlip(t, port, r);
    PushErrors(dr, t, t1, d, port, f, env);
    DoneByVpc(t, port, r.vlans.value[k], AssociationsOf(t1, port)[k], f.vlans[k]);
  }

  // ----- which exception ends a call

  /** VLANs without a mode or a mode without VLANs, a VLAN not named at all, or a tag that is no number from 1
      to 4096. */
  predicate Malformed(r: Request) {
    || r.vlans.Some? != (SwitchPortMode in r.columns)
    || (r.vlans.Some? && exists ref | ref in r.vlans.value ::
          || (ref.tag.None? && ref.id.None? && ref.vpc.None?)
          || (ref.tag.Some? && (!IsNumeral(ref.tag.value) || ParseNat(ref.tag.value) == 0
                                || ParseNat(ref.tag.value) > 4096)))
  }

  /** The loop over the references fails at this one: it stands for no VLAN, or for that of an earlier one. */
  predicate FailsAt(t: Tables, port: Id, refs: seq<VlanRef>, n: nat) {
    n < |refs| && Storable(t, port, refs[..n]) && !Storable(t, port, refs[..n + 1])
  }

  function FailureAt(t: Tables, port: Id, ref: VlanRef): Error {
    if Resolve(t, port, ref).Raised? then Resolve(t, port, ref).error else Refused(Db.Duplicate)
  }

  lemma {:induction false} SomeReferenceFails(t: Tables, port: Id, refs: seq<VlanRef>) returns (n: nat)
    requires !Storable(t, port, refs)
    ensures FailsAt(t, port, refs, n)
  {
    var m := |refs| - 1;
    assert refs[..m + 1] == refs;
    if Storable(t, port, refs[..m]) {
      n := m;
    } else {
      n := SomeReferenceFails(t, port, refs[..m]);
      assert refs[..m][..n] == refs[..n] && refs[..m][..n + 1] == refs[..n + 1];
    }
  }

  lemma LoopFailsAt(t: Tables, port: Id, refs: seq<VlanRef>, n: nat)
    requires AssociationsOf(t, port) == [] && port in t.ports && FailsAt(t, port, refs, n)
    ensures Associated(t, port, refs) == Raised(FailureAt(t, port, refs[n]))
  {
    var done, more := refs[..n], refs[..n + 1];
    assert more[..n] == done && more[n] == refs[n];
    LoopStoresRequest(t, port, done);
    var (t1, tagged) := Associated(t, port, done).value;
    AssociatedStep(t, port, refs, n, t1, tagged);
    OneMore(t, t1, port, tagged, more);
    ResolveFrame(t, t1, port, refs[n]);
    StorableSnoc(t, port, more);
    if Resolve(t, port, refs[n]).Ok? {
      PairTaken(t, t1, port, more, Resolve(t, port, refs[n]).value.id);
    }
  }

  lemma FailureIsAnswered<D>(dr: Sw.Driver<D>, t: Tables, d: D, port: Id, r: Request, env: Environment, n: nat)
    requires EarlyError(t, port, r) == None && Flips(r) && FailsAt(t, port, r.vlans.value, n)
    ensures Update(dr, t, d, port, r, env) == Final(t, d, Some(FailureAt(t, port, r.vlans.value[n])))
  {
    var start, refs := Flushed(t, port, r), r.vlans.value;
    FlushedLookups(t, port, r, refs[..n]);
    FlushedLookups(t, port, r, refs[..n + 1]);
    ResolveFrame(t, start, port, refs[n]);
    LoopFailsAt(start, port, refs, n);
  }

  lemma MalformedExactly(r: Request)
    ensures Malformed(r) <==> !ValidVlans(r)
  {
  }

  /** The request changes the stored admin status. */
  predicate ChangesStatus(t: Tables, port: Id, r: Request)
    requires port in t.ports
  {
    var columns := t.ports[port].columns;
    AdminStatus in r.columns && AdminStatus in columns && r.columns[AdminStatus] != columns[AdminStatus]
  }

  /** The exceptions before the MAC check: nothing has changed anywhere. */
  lemma EarlyAnswersExactly<D>(dr: Sw.Driver<D>, t: Tables, d: D, port: Id, r: Request, env: Environment)
    requires Db.Keyed(t) && !GoesOn(t, port, r, env)
    ensures var final := Update(dr, t, d, port, r, env);
            && final.tables == t && final.device == d
            && if Malformed(r) then final.answer == Some(BadPayload)
               else if Flips(r) && AdminStatus in r.columns then final.answer == Some(FlipAndEnableTogether)
               else if port !in t.ports then final.answer == Some(PortNotFound)
               else if Flips(r) && !Storable(t, port, r.vlans.value) then
                 exists n: nat :: FailsAt(t, port, r.vlans.value, n)
                                  && final.answer == Some(FailureAt(t, port, r.vlans.value[n]))
               else if ChangesStatus(t, port, r) && r.mac.None? then final.answer == Some(MacAddressNotPassed)
               else if ChangesStatus(t, port, r) && !env.adminOk then final.answer == Some(AdminPushFailed)
               else Label in r.columns && !env.labelOk && final.answer == Some(LabelPushFailed)
  {
    MalformedExactly(r);
    if EarlyError(t, port, r) == None {
      if Flips(r) && !Storable(t, port, r.vlans.value) {
        var n := SomeReferenceFails(t, port, r.vlans.value);
        FailureIsAnswered(dr, t, d, port, r, env, n);
      } else if Flips(r) {
        FlushedLookups(t, port, r, r.vlans.value);
        LoopStoresRequest(Flushed(t, port, r), port, r.vlans.value);
      }
    }
  }

  /** No VLAN of the flip is marked native, or the first one so marked has the tag 0. */
  predicate WithoutNative(f: Sw.Flip) {
    match Sw.FirstNative(f.vlans) case None => true case Some(tag) => ParseInt(tag) == Some(0)
  }

  lemma MacStepAnswers(t: Tables, port: Id, r: Request, env: Environment, f: Sw.Flip)
    requires Aligned(t.vlans, AssociationsOf(t, port), f.vlans)
    ensures MacStep(t, port, r, env)
            == if r.mac.None? then None
               else if WithoutNative(f) then Some(NoNativeVlan)
               else if env.macs.None? then Some(MacReadFailed)
               else if env.macs.value != [] && r.mac.value !in env.macs.value then Some(MacNotOnInterface)
               else None
  {
    NativeTagIsFirst(t.vlans, AssociationsOf(t, port), f.vlans);
  }

  /** What a flip that was committed answers: the exceptions of the MAC check, the unreadable interface, and
      that of the driver's update as a device error, unless a change was stopped. */
  lemma LateAnswersExactly<D>(dr: Sw.Driver<D>, t: Tables, d: D, port: Id, r: Request, env: Environment)
    requires Db.Keyed(t) && GoesOn(t, port, r, env) && Flips(r)
    ensures SwitchPortMode in r.columns && Resolvable(t, port, r.vlans.value)
    ensures var answer, f := Update(dr, t, d, port, r, env).answer, RequestFlip(t, port, r);
            var outcome := Sw.Update(dr, d, f).1;
            answer
            == if r.mac.Some? && WithoutNative(f) then Some(NoNativeVlan)
               else if r.mac.Some? && env.macs.None? then Some(MacReadFailed)
               else if r.mac.Some? && env.macs.value != [] && r.mac.value !in env.macs.value then
                 Some(MacNotOnInterface)
               else if !env.readable then Some(InterfaceUnreadable)
               else if outcome.Ok? then None
               else if outcome.error == Sw.ChangeStopActive then Some(ChangeStopActive)
               else Some(DeviceError(outcome.error))
  {
    FlipHasMode(t, port, r, env);
    CommitStoresRequest(t, port, r, env);
    CommittedExactly(t, port, r, env);
    CommittedFrame(t, port, r, env);
    MacStepAnswers(Committed(t, port, r, env).value.0, port, r, env, RequestFlip(t, port, r));
  }
}
