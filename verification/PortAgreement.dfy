/** Database and a Junos switch in step: mode, VLANs and native VLAN of every port, exactly when a call of
    `update_port` keeps them so, and over runs. */
module PortAgreement {
  import opened Prelude
  import opened Rows
  import opened Schema
  import opened Text
  import opened VlanRange
  import opened PortFlip
  import opened PortFlipRuns
  import Db = NetforceDb
  import Junos = JunosPort
  import Sw = SwitchPort

  /** The port of the switch has the mode, carries exactly these tags, and as a trunk this one native tag. */
  predicate Says(p: Junos.PortConfig, mode: Sw.Mode, tags: set<nat>, natives: set<nat>) {
    && p.mode == mode && DenotesAll(p.members) == Tags(tags)
    && (mode == Sw.Trunk ==> p.native.Some? && IsNumeral(p.native.value) && natives == {ParseNat(p.native.value)})
  }

  function StoredMode(t: Tables, port: Id): Sw.Mode
    requires port in t.ports && SwitchPortMode in t.ports[port].columns
  {
    ModeOf(t.ports[port].columns[SwitchPortMode])
  }

  /** The stored port and the port of the switch say the same. */
  predicate InStep(t: Tables, d: Junos.Device, port: Id, interface: string) {
    && port in t.ports && SwitchPortMode in t.ports[port].columns
    && interface in d.ports && Junos.Regular(d.ports[interface])
    && Says(d.ports[interface], StoredMode(t, port), StoredTags(t, port), StoredNatives(t, port))
  }

  /** Only these parts of the two worlds matter. */
  lemma InStepFrame(t: Tables, d: Junos.Device, t': Tables, d': Junos.Device, port: Id, interface: string)
    requires InStep(t, d, port, interface)
    requires t'.vlans == t.vlans && AssociationsOf(t', port) == AssociationsOf(t, port)
    requires port in t'.ports && SwitchPortMode in t'.ports[port].columns && StoredMode(t', port) == StoredMode(t, port)
    requires interface in d'.ports && d'.ports[interface] == d.ports[interface]
    ensures InStep(t', d', port, interface)
  {
    SameStored(t, t', port);
  }

  lemma SameStored(t: Tables, t': Tables, port: Id)
    requires t'.vlans == t.vlans && AssociationsOf(t', port) == AssociationsOf(t, port)
    ensures StoredTags(t', port) == StoredTags(t, port) && StoredNatives(t', port) == StoredNatives(t, port)
  {
  }

  /** The same mode, tags, and on a trunk native tags. */
  predicate Same(mode: Sw.Mode, tags: set<nat>, natives: set<nat>, mode': Sw.Mode, tags': set<nat>,
      natives': set<nat>) {
    mode == mode' && tags == tags' && (mode == Sw.Trunk ==> natives == natives')
  }

  lemma SaysOnlyTheSame(p: Junos.PortConfig, mode: Sw.Mode, tags: set<nat>, natives: set<nat>,
                        mode': Sw.Mode, tags': set<nat>, natives': set<nat>)
    requires Says(p, mode, tags, natives)
    ensures Says(p, mode', tags', natives') <==> Same(mode, tags, natives, mode', tags', natives')
  {
    if Tags(tags) == Tags(tags') {
      forall n
        ensures n in tags <==> n in tags'
      {
        assert n in tags <==> Tag(n) in Tags(tags);
        assert n in tags' <==> Tag(n) in Tags(tags');
      }
    }
  }

  // ----- what a call does to other ports

  lemma CommittedKeepsOther(t: Tables, port: Id, r: Request, env: Environment, other: Id)
    requires port in t.ports && Committed(t, port, r, env).Ok? && other != port
    ensures AssociationsOf(Committed(t, port, r, env).value.0, other) == AssociationsOf(t, other)
  {
    if Flips(r) {
      var start := Flushed(t, port, r);
      var t1 := Committed(t, port, r, env).value.0;
      AssociatedKeepsOthers(start, port, r.vlans.value);
      OffPortHoldsOther(t1.associations, port, other);
      OffPortHoldsOther(start.associations, port, other);
      OffPortHoldsOther(t.associations, port, other);
    }
  }

  lemma OffPortHoldsOther(rows: seq<AssociationRow>, port: Id, other: Id)
    requires other != port
    ensures Filter(Filter(rows, OffPort(port)), OnPort(other)) == Filter(rows, OnPort(other))
  {
    FilterTwice(rows, OffPort(port), OnPort(other));
    FilterSame(rows, Both(OffPort(port), OnPort(other)), OnPort(other));
  }

  /** Whatever happens, the rows of every other port are as before. */
  lemma UpdateKeepsOther<D>(dr: Sw.Driver<D>, t: Tables, d: D, port: Id, r: Request, env: Environment, other: Id)
    requires other != port && other in t.ports
    ensures var t' := Update(dr, t, d, port, r, env).tables;
            && t'.vlans == t.vlans && AssociationsOf(t', other) == AssociationsOf(t, other)
            && other in t'.ports && t'.ports[other] == t.ports[other]
  {
    UpdateOutcomes(dr, t, d, port, r, env);
    if EarlyError(t, port, r) == None && Committed(t, port, r, env).Ok? {
      CommittedFrame(t, port, r, env);
      CommittedKeepsOther(t, port, r, env, other);
      RolledBackKeepsOther(t, Committed(t, port, r, env).value.0, port, other);
    }
  }

  lemma RolledBackKeepsOther(t: Tables, t1: Tables, port: Id, other: Id)
    requires other != port && port in t1.ports && port in t.ports
             && AssociationsOf(t1, other) == AssociationsOf(t, other)
    ensures AssociationsOf(RolledBack(t1, port, Snapshot(t.ports[port].columns), AssociationsOf(t, port)), other)
            == AssociationsOf(t, other)
  {
    var kept, on := Filter(t1.associations, OffPort(port)), AssociationsOf(t, port);
    FilterAppend(kept, on, OnPort(other));
    FilterNone(on, OnPort(other));
    OffPortHoldsOther(t1.associations, port, other);
  }

  /** Whatever happens, every other port of the switch is as before. */
  lemma UpdateTouchesOnePort(t: Tables, d: Junos.Device, interface: string, link: Junos.Link, port: Id, r: Request,
      env: Environment)
    requires Db.Keyed(t)
    ensures var d' := Update(Junos.JunosDriver(interface, link), t, d, port, r, env).device;
            forall other | other in d.ports && other != interface ::
                other in d'.ports && d'.ports[other] == d.ports[other]
  {
    EarlyFailures(Junos.JunosDriver(interface, link), t, d, port, r, env);
    if GoesOn(t, port, r, env) && Flips(r) {
      CommitStoresRequest(t, port, r, env);
      if !MacFails(RequestFlip(t, port, r), r, env) {
        var t1, f := Committed(t, port, r, env).value.0, RequestFlip(t, port, r);
        PhaseTouchesOnePort(t, t1, d, port, interface, f, env, link);
      }
    }
  }

  lemma PhaseTouchesOnePort(t: Tables, t1: Tables, d: Junos.Device, port: Id, interface: string, f: Sw.Flip,
      env: Environment, link: Junos.Link)
    requires port in t.ports && port in t1.ports && Sw.Numerals(f.vlans)
    ensures var d' := PushPhase(Junos.JunosDriver(interface, link), t, t1, d, port, f, env).device;
            forall other | other in d.ports && other != interface ::
                other in d'.ports && d'.ports[other] == d.ports[other]
  {
    Junos.UpdateFrame(d, interface, f, link);
  }

  // ----- what a call does to its port

  /** The tables after the commit, and after the rollback. */
  lemma CommittedSays(t: Tables, port: Id, r: Request, env: Environment)
    requires Db.Keyed(t) && GoesOn(t, port, r, env) && Flips(r) && SwitchPortMode in r.columns
    ensures Committed(t, port, r, env).Ok?
    ensures var t1, f := Committed(t, port, r, env).value.0, RequestFlip(t, port, r);
            && port in t1.ports && SwitchPortMode in t1.ports[port].columns && StoredMode(t1, port) == f.mode
            && StoredTags(t1, port) == Sw.Requested(f.vlans) && StoredNatives(t1, port) == RequestedNatives(f.vlans)
            && Sw.Numerals(f.vlans) && f.vlans != []
  {
    CommitStoresRequest(t, port, r, env);
    CommittedFrame(t, port, r, env);
  }

  lemma RolledBackSays(t: Tables, port: Id, r: Request, env: Environment)
    requires GoesOn(t, port, r, env) && Flips(r) && Committed(t, port, r, env).Ok?
    requires SwitchPortMode in t.ports[port].columns && port in Committed(t, port, r, env).value.0.ports
    ensures var t1 := Committed(t, port, r, env).value.0;
            var t' := RolledBack(t1, port, Snapshot(t.ports[port].columns), AssociationsOf(t, port));
            && port in t'.ports && SwitchPortMode in t'.ports[port].columns
               && StoredMode(t', port) == StoredMode(t, port)
            && StoredTags(t', port) == StoredTags(t, port) && StoredNatives(t', port) == StoredNatives(t, port)
  {
    var t1 := Committed(t, port, r, env).value.0;
    CommittedFrame(t, port, r, env);
    AssociationsRestored(t, t1, port, r, env);
    SameStored(t, RolledBack(t1, port, Snapshot(t.ports[port].columns), AssociationsOf(t, port)), port);
  }

  /** Two VLANs of a trunk request are marked native with different tags. */
  predicate SplitNatives(f: Sw.Flip) {
    f.mode == Sw.Trunk && exists v, w | v in f.vlans && w in f.vlans ::
        v.isNative && w.isNative && ParseInt(v.tag) != ParseInt(w.tag)
  }

  /** Nothing but the request would be told apart: what is stored for the port is what the flip says. */
  predicate AlreadyStored(t: Tables, port: Id, f: Sw.Flip, natives: set<nat>)
    requires port in t.ports && SwitchPortMode in t.ports[port].columns
  {
    Same(StoredMode(t, port), StoredTags(t, port), StoredNatives(t, port), f.mode, Sw.Requested(f.vlans), natives)
  }

  /** The native tag the port has after the push: the last one. */
  function PushedNatives(f: Sw.Flip): set<nat> {
    match Sw.LastNative(f.vlans) case Some(tag) => if IsNumeral(tag) then {ParseNat(tag)} else {} case None => {}
  }

  /** The ways a flip that asks the switch separates it from the database. */
  predicate PushDrifts(t: Tables, d: Junos.Device, port: Id, interface: string, f: Sw.Flip, link: Junos.Link)
    requires port in t.ports && SwitchPortMode in t.ports[port].columns
  {
    if Junos.Applies(d, interface, f, link) then
      if Junos.Confirmed(f, link) then
        // returned: the database has every native tag, the switch the last one
        SplitNatives(f)
      else
        // flipped and raised, the connection lost after the commit or before the second read, or the last
        // native tag not the first: only the database is rolled back
        !AlreadyStored(t, port, f, PushedNatives(f))
    else
      // found in place: the switch has the first native tag
      Sw.PreCheck(Junos.JunosDriver(interface, link), d, f) == Ok(false) && SplitNatives(f)
  }

  /** The ways a call separates the database from the switch, by its request, the port before, the MAC table
      and the connection. */
  predicate Drifts(t: Tables, d: Junos.Device, port: Id, interface: string, r: Request, env: Environment,
      link: Junos.Link)
    requires port in t.ports && SwitchPortMode in t.ports[port].columns
  {
    GoesOn(t, port, r, env) &&
    if !Flips(r) then
      // another mode with an empty VLAN list: only the row changes
      SwitchPortMode in r.columns && ModeOf(r.columns[SwitchPortMode]) != StoredMode(t, port)
    else
      SwitchPortMode in r.columns && Resolvable(t, port, r.vlans.value) &&
      var f := RequestFlip(t, port, r);
      if MacFails(f, r, env) then
        // the new rows stay, the switch is never asked
        !AlreadyStored(t, port, f, RequestedNatives(f.vlans))
      else
        env.readable && PushDrifts(t, d, port, interface, f, link)
  }

  lemma TargetSays(f: Sw.Flip)
    requires Sw.Sendable(f) && Sw.Numerals(f.vlans) && (f.mode == Sw.Access || f.mode == Sw.Trunk)
    ensures Junos.Regular(Junos.Target(f)) && Says(Junos.Target(f), f.mode, Sw.Requested(f.vlans), PushedNatives(f))
  {
    Junos.TargetIsRegular(f);
  }

  /** The natives a trunk request asks for are the one the switch has, exactly when they are not split. */
  lemma OneNativeExactly(f: Sw.Flip, native: string)
    requires f.mode == Sw.Trunk && Sw.Numerals(f.vlans) && exists v | v in f.vlans :: v.isNative && v.tag == native
    ensures RequestedNatives(f.vlans) == {ParseNat(native)} <==> !SplitNatives(f)
  {
    var v :| v in f.vlans && v.isNative && v.tag == native;
    assert ParseNat(native) in RequestedNatives(f.vlans);
    if !SplitNatives(f) {
      forall w | w in f.vlans && w.isNative
        ensures ParseNat(w.tag) == ParseNat(native)
      {
        assert ParseInt(v.tag) == ParseInt(w.tag);
      }
    }
    if RequestedNatives(f.vlans) == {ParseNat(native)} {
      forall w | w in f.vlans && w.isNative
        ensures ParseInt(w.tag) == Some(ParseNat(native))
      {
        assert ParseNat(w.tag) in RequestedNatives(f.vlans);
      }
    }
  }

  /** A regular port that is accepted unpushed says what is asked, exactly when the natives are not split. */
  lemma AcceptedSays(d: Junos.Device, interface: string, f: Sw.Flip, link: Junos.Link)
    requires interface in d.ports && Junos.Regular(d.ports[interface]) && Sw.Numerals(f.vlans) && f.vlans != []
    requires Sw.PreCheck(Junos.JunosDriver(interface, link), d, f) == Ok(false)
    ensures Says(d.ports[interface], f.mode, Sw.Requested(f.vlans), RequestedNatives(f.vlans)) <==> !SplitNatives(f)
  {
    var p := d.ports[interface];
    Junos.ReadsWhatItCarries(d, interface);
    Sw.AcceptedMeansAgreement(f, Junos.Read(d, interface).value);
    if f.mode == Sw.Trunk {
      NoneIsNoNumeral();
      OneNativeExactly(f, p.native.value);
    }
  }

  lemma NoneIsNoNumeral()
    ensures !IsNumeral("None")
  {
    assert !IsDigit("None"[0]);
  }

  /** A port just pushed and confirmed says what is asked, exactly when the natives are not split. */
  lemma ConfirmedSays(f: Sw.Flip, link: Junos.Link)
    requires Sw.Sendable(f) && Sw.Numerals(f.vlans) && (f.mode == Sw.Access || f.mode == Sw.Trunk)
    ensures Says(Junos.Target(f), f.mode, Sw.Requested(f.vlans), RequestedNatives(f.vlans)) <==> !SplitNatives(f)
  {
    TargetSays(f);
    if f.mode == Sw.Trunk {
      OneNativeExactly(f, Sw.LastNative(f.vlans).value);
    }
  }

  lemma AppliesMeansMode(d: Junos.Device, interface: string, f: Sw.Flip, link: Junos.Link)
    requires Junos.Applies(d, interface, f, link)
    ensures f.mode == Sw.Access || f.mode == Sw.Trunk
  {
  }

  /** What the tables say about a port. */
  predicate Holds(t: Tables, port: Id, mode: Sw.Mode, tags: set<nat>, natives: set<nat>) {
    && port in t.ports && SwitchPortMode in t.ports[port].columns
    && StoredMode(t, port) == mode && StoredTags(t, port) == tags && StoredNatives(t, port) == natives
  }

  lemma InStepBy(t: Tables, d: Junos.Device, port: Id, interface: string, mode: Sw.Mode, tags: set<nat>,
      natives: set<nat>)
    requires Holds(t, port, mode, tags, natives) && interface in d.ports
    ensures InStep(t, d, port, interface)
            <==> Junos.Regular(d.ports[interface]) && Says(d.ports[interface], mode, tags, natives)
  {
  }

  /** The four ways the push phase can end. */
  lemma PhaseEnds(t: Tables, t1: Tables, d: Junos.Device, port: Id, interface: string, f: Sw.Flip, env: Environment,
      link: Junos.Link)
    requires port in t.ports && port in t1.ports && Sw.Numerals(f.vlans)
    ensures var final := PushPhase(Junos.JunosDriver(interface, link), t, t1, d, port, f, env);
            var restored := RolledBack(t1, port, Snapshot(t.ports[port].columns), AssociationsOf(t, port));
            var applies := env.readable && Junos.Applies(d, interface, f, link);
            var inPlace := env.readable && Sw.PreCheck(Junos.JunosDriver(interface, link), d, f) == Ok(false);
            && final.device == (if applies then Junos.WithPort(d, interface, Junos.Target(f)) else d)
            && final.tables == (if (applies && Junos.Confirmed(f, link)) || inPlace then t1 else restored)
  {
    Junos.UpdateExactly(d, interface, f, link);
    Junos.NeverStops(d, interface, f, link);
  }

  /** The push phase, for any tables that hold the request and tables to go back to. */
  lemma PushDriftsExactly(t: Tables, t1: Tables, d: Junos.Device, port: Id, interface: string, f: Sw.Flip,
      env: Environment, link: Junos.Link)
    requires InStep(t, d, port, interface) && Sw.Numerals(f.vlans) && f.vlans != []
    requires Holds(t1, port, f.mode, Sw.Requested(f.vlans), RequestedNatives(f.vlans))
    requires Holds(RolledBack(t1, port, Snapshot(t.ports[port].columns), AssociationsOf(t, port)), port,
                   StoredMode(t, port), StoredTags(t, port), StoredNatives(t, port))
    ensures var final := PushPhase(Junos.JunosDriver(interface, link), t, t1, d, port, f, env);
            InStep(final.tables, final.device, port, interface)
            <==> !(env.readable && PushDrifts(t, d, port, interface, f, link))
  {
    var restored := RolledBack(t1, port, Snapshot(t.ports[port].columns), AssociationsOf(t, port));
    var mode, tags, natives := StoredMode(t, port), StoredTags(t, port), StoredNatives(t, port);
    PhaseEnds(t, t1, d, port, interface, f, env, link);
    InStepBy(restored, d, port, interface, mode, tags, natives);
    InStepBy(t1, d, port, interface, f.mode, Sw.Requested(f.vlans), RequestedNatives(f.vlans));
    if env.readable && Junos.Applies(d, interface, f, link) {
      var d' := Junos.WithPort(d, interface, Junos.Target(f));
      AppliesMeansMode(d, interface, f, link);
      TargetSays(f);
      ConfirmedSays(f, link);
      SaysOnlyTheSame(Junos.Target(f), f.mode, Sw.Requested(f.vlans), PushedNatives(f), mode, tags, natives);
      InStepBy(restored, d', port, interface, mode, tags, natives);
      InStepBy(t1, d', port, interface, f.mode, Sw.Requested(f.vlans), RequestedNatives(f.vlans));
    } else if env.readable && Sw.PreCheck(Junos.JunosDriver(interface, link), d, f) == Ok(false) {
      AcceptedSays(d, interface, f, link);
    }
  }

  /** A call keeps its port in step, whether it returned or raised, if and only if it does not drift. */
  lemma DriftsExactly(t: Tables, d: Junos.Device, port: Id, interface: string, r: Request, env: Environment,
      link: Junos.Link)
    requires Db.Keyed(t) && InStep(t, d, port, interface)
    ensures var final := Update(Junos.JunosDriver(interface, link), t, d, port, r, env);
            InStep(final.tables, final.device, port, interface) <==> !Drifts(t, d, port, interface, r, env, link)
  {
    EarlyFailures(Junos.JunosDriver(interface, link), t, d, port, r, env);
    if GoesOn(t, port, r, env) {
      if !Flips(r) {
        WithoutVlansExactly(t, d, port, interface, r, env);
      } else {
        FlipHasMode(t, port, r, env);
        CommittedSays(t, port, r, env);
        var t1, f := Committed(t, port, r, env).value.0, RequestFlip(t, port, r);
        if MacFails(f, r, env) {
          SaysOnlyTheSame(d.ports[interface], StoredMode(t, port), StoredTags(t, port), StoredNatives(t, port),
                          f.mode, Sw.Requested(f.vlans), RequestedNatives(f.vlans));
        } else {
          RolledBackSays(t, port, r, env);
          PushDriftsExactly(t, t1, d, port, interface, f, env, link);
        }
      }
    }
  }

  /** An update without VLANs keeps its port in step exactly when it keeps the mode: an empty VLAN list
      with another mode changes the database only. */
  lemma WithoutVlansExactly(t: Tables, d: Junos.Device, port: Id, interface: string, r: Request, env: Environment)
    requires InStep(t, d, port, interface) && GoesOn(t, port, r, env) && !Flips(r)
    ensures Committed(t, port, r, env).Ok?
    ensures InStep(Committed(t, port, r, env).value.0, d, port, interface)
            <==> (SwitchPortMode in r.columns ==> ModeOf(r.columns[SwitchPortMode]) == StoredMode(t, port))
  {
    CommittedExactly(t, port, r, env);
    CommittedFrame(t, port, r, env);
    SameStored(t, Committed(t, port, r, env).value.0, port);
  }

  /** The flip reaches the switch, its push applies, and the port was not yet the one its commands make. */
  predicate Reaches(t: Tables, d: Junos.Device, port: Id, interface: string, r: Request, env: Environment,
                    link: Junos.Link)
  {
    && GoesOn(t, port, r, env) && Flips(r) && SwitchPortMode in r.columns && Resolvable(t, port, r.vlans.value)
    && var f := RequestFlip(t, port, r);
       && !MacFails(f, r, env) && env.readable && Junos.Applies(d, interface, f, link)
       && interface in d.ports && d.ports[interface] != Junos.Target(f)
  }

  lemma AppliesToAPort(d: Junos.Device, interface: string, f: Sw.Flip, link: Junos.Link)
    requires Junos.Applies(d, interface, f, link)
    ensures interface in d.ports
  {
  }

  /** A push that applies leaves the switch as it was exactly if the port was already its target. */
  lemma PhaseIsAllOrNothing(t: Tables, t1: Tables, d: Junos.Device, port: Id, interface: string, f: Sw.Flip,
      env: Environment, link: Junos.Link)
    requires port in t.ports && port in t1.ports && Sw.Numerals(f.vlans)
    ensures PushPhase(Junos.JunosDriver(interface, link), t, t1, d, port, f, env).device == d
            <==> !(env.readable && Junos.Applies(d, interface, f, link)
                   && interface in d.ports && d.ports[interface] != Junos.Target(f))
  {
    PhaseEnds(t, t1, d, port, interface, f, env, link);
    if Junos.Applies(d, interface, f, link) {
      AppliesToAPort(d, interface, f, link);
      assert d.ports[interface := d.ports[interface]] == d.ports;
    }
  }

  /** A call, returned or raised, has changed the switch if and only if its flip reaches it: so one that
      raised is all or nothing exactly if it does not. */
  lemma JunosFlipIsAllOrNothing(t: Tables, d: Junos.Device, port: Id, interface: string, r: Request, env: Environment,
      link: Junos.Link)
    requires Db.Keyed(t)
    ensures Update(Junos.JunosDriver(interface, link), t, d, port, r, env).device == d
            <==> !Reaches(t, d, port, interface, r, env, link)
  {
    EarlyFailures(Junos.JunosDriver(interface, link), t, d, port, r, env);
    if GoesOn(t, port, r, env) && Flips(r) {
      FlipHasMode(t, port, r, env);
      CommitStoresRequest(t, port, r, env);
      var t1, f := Committed(t, port, r, env).value.0, RequestFlip(t, port, r);
      if !MacFails(f, r, env) {
        PhaseIsAllOrNothing(t, t1, d, port, interface, f, env, link);
      }
    }
  }

  /** A flip that returned leaves its port in step, whatever was stored before, if and only if the native tags
      it asks for are not split, and it was pushed or the port was regular before. */
  lemma ReturnedIsInStep(t: Tables, d: Junos.Device, port: Id, interface: string, r: Request, env: Environment,
      link: Junos.Link)
    requires Db.Keyed(t) && Flips(r) && Update(Junos.JunosDriver(interface, link), t, d, port, r, env).answer == None
    ensures SwitchPortMode in r.columns && Resolvable(t, port, r.vlans.value) && interface in d.ports
    ensures var final := Update(Junos.JunosDriver(interface, link), t, d, port, r, env);
            var f := RequestFlip(t, port, r);
            InStep(final.tables, final.device, port, interface)
            <==> !SplitNatives(f) && (Junos.Applies(d, interface, f, link) || Junos.Regular(d.ports[interface]))
  {
    EarlyFailures(Junos.JunosDriver(interface, link), t, d, port, r, env);
    FlipHasMode(t, port, r, env);
    CommittedSays(t, port, r, env);
    ReturnedPhase(t, Committed(t, port, r, env).value.0, d, port, interface, RequestFlip(t, port, r), env, link);
  }

  lemma ReturnedPhase(t: Tables, t1: Tables, d: Junos.Device, port: Id, interface: string, f: Sw.Flip,
      env: Environment, link: Junos.Link)
    requires port in t.ports && Sw.Numerals(f.vlans) && f.vlans != []
    requires Holds(t1, port, f.mode, Sw.Requested(f.vlans), RequestedNatives(f.vlans))
    requires PushPhase(Junos.JunosDriver(interface, link), t, t1, d, port, f, env).answer == None
    ensures interface in d.ports
    ensures var final := PushPhase(Junos.JunosDriver(interface, link), t, t1, d, port, f, env);
            InStep(final.tables, final.device, port, interface)
            <==> !SplitNatives(f) && (Junos.Applies(d, interface, f, link) || Junos.Regular(d.ports[interface]))
  {
    Junos.UpdateExactly(d, interface, f, link);
    if Junos.Applies(d, interface, f, link) {
      PushedSays(t1, d, port, interface, f, link);
    } else {
      FoundInPlaceSays(t1, d, port, interface, f, link);
    }
  }

  lemma PushedSays(t1: Tables, d: Junos.Device, port: Id, interface: string, f: Sw.Flip, link: Junos.Link)
    requires Sw.Numerals(f.vlans) && Junos.Applies(d, interface, f, link)
    requires Holds(t1, port, f.mode, Sw.Requested(f.vlans), RequestedNatives(f.vlans))
    ensures interface in d.ports
    ensures InStep(t1, Junos.WithPort(d, interface, Junos.Target(f)), port, interface) <==> !SplitNatives(f)
  {
    AppliesMeansMode(d, interface, f, link);
    AppliesToAPort(d, interface, f, link);
    TargetSays(f);
    ConfirmedSays(f, link);
  }

  lemma FoundInPlaceSays(t1: Tables, d: Junos.Device, port: Id, interface: string, f: Sw.Flip, link: Junos.Link)
    requires Sw.Numerals(f.vlans) && f.vlans != []
    requires Sw.PreCheck(Junos.JunosDriver(interface, link), d, f) == Ok(false)
    requires Holds(t1, port, f.mode, Sw.Requested(f.vlans), RequestedNatives(f.vlans))
    ensures interface in d.ports
    ensures InStep(t1, d, port, interface) <==> !SplitNatives(f) && Junos.Regular(d.ports[interface])
  {
    InStepBy(t1, d, port, interface, f.mode, Sw.Requested(f.vlans), RequestedNatives(f.vlans));
    if Junos.Regular(d.ports[interface]) {
      AcceptedSays(d, interface, f, link);
    }
  }

  // ----- the deletion of a VLAN

  /** Another VLAN of the port has the tag of the association's VLAN, and as a native one if that matters. */
  predicate HasTwin(t: Tables, port: Id, a: AssociationRow, asNative: bool) {
    exists b | b in AssociationsOf(t, port) ::
      && b.vlan != a.vlan && (asNative ==> b.isNative)
      && FindVlan(t.vlans, a.vlan).Some? && FindVlan(t.vlans, b.vlan).Some?
      && FindVlan(t.vlans, b.vlan).value.tag == FindVlan(t.vlans, a.vlan).value.tag
  }

  lemma FiltersCommute(rows: seq<AssociationRow>, p: AssociationRow -> bool, q: AssociationRow -> bool)
    ensures Filter(Filter(rows, p), q) == Filter(Filter(rows, q), p)
  {
    FilterTwice(rows, p, q);
    FilterTwice(rows, q, p);
    FilterSame(rows, Both(p, q), Both(q, p));
  }

  lemma TagsAfterDelete(t: Tables, port: Id, id: Id)
    requires Db.Keyed(t) && HasVlan(t, id)
    ensures var t' := Db.DeleteVlan(t, id).value;
            && AssociationsOf(t', port) == Filter(AssociationsOf(t, port), OffVlan(id))
            && (forall a | a in AssociationsOf(t', port) :: FindVlan(t'.vlans, a.vlan) == FindVlan(t.vlans, a.vlan))
  {
    var t' := Db.DeleteVlan(t, id).value;
    FiltersCommute(t.associations, OffVlan(id), OnPort(port));
    forall a | a in AssociationsOf(t', port)
      ensures FindVlan(t'.vlans, a.vlan) == FindVlan(t.vlans, a.vlan)
    {
      if FindVlan(t.vlans, a.vlan).Some? {
        assert FindVlan(t.vlans, a.vlan).value in t'.vlans;
      }
    }
  }

  /** Deleting a VLAN never asks the switch: the port stays in step exactly if each of its associations
      with the VLAN has a twin. */
  lemma DeletingVlanDriftsExactly(t: Tables, d: Junos.Device, port: Id, interface: string, id: Id)
    requires Db.Keyed(t) && Db.Integrity(t) && HasVlan(t, id) && InStep(t, d, port, interface)
    ensures InStep(Db.DeleteVlan(t, id).value, d, port, interface)
            <==> forall a | a in AssociationsOf(t, port) && a.vlan == id ::
                   && HasTwin(t, port, a, false)
                   && (StoredMode(t, port) == Sw.Trunk && a.isNative ==> HasTwin(t, port, a, true))
  {
    var t' := Db.DeleteVlan(t, id).value;
    TagsAfterDelete(t, port, id);
    TwinsKeepTags(t, t', port, id);
    TwinsKeepNatives(t, t', port, id);
    SaysOnlyTheSame(d.ports[interface], StoredMode(t, port), StoredTags(t, port), StoredNatives(t, port),
                    StoredMode(t', port), StoredTags(t', port), StoredNatives(t', port));
  }

  lemma TwinsKeepTags(t: Tables, t': Tables, port: Id, id: Id)
    requires AssociationsOf(t', port) == Filter(AssociationsOf(t, port), OffVlan(id))
    requires forall a | a in AssociationsOf(t', port) :: FindVlan(t'.vlans, a.vlan) == FindVlan(t.vlans, a.vlan)
    requires forall a | a in AssociationsOf(t, port) :: FindVlan(t.vlans, a.vlan).Some?
    ensures StoredTags(t', port) == StoredTags(t, port)
            <==> forall a | a in AssociationsOf(t, port) && a.vlan == id :: HasTwin(t, port, a, false)
  {
    forall a | a in AssociationsOf(t, port) && a.vlan == id
      ensures HasTwin(t, port, a, false) <==> FindVlan(t.vlans, a.vlan).value.tag in StoredTags(t', port)
    {
    }
  }

  lemma TwinsKeepNatives(t: Tables, t': Tables, port: Id, id: Id)
    requires AssociationsOf(t', port) == Filter(AssociationsOf(t, port), OffVlan(id))
    requires forall a | a in AssociationsOf(t', port) :: FindVlan(t'.vlans, a.vlan) == FindVlan(t.vlans, a.vlan)
    requires forall a | a in AssociationsOf(t, port) :: FindVlan(t.vlans, a.vlan).Some?
    ensures StoredNatives(t', port) == StoredNatives(t, port)
            <==> forall a | a in AssociationsOf(t, port) && a.vlan == id && a.isNative :: HasTwin(t, port, a, true)
  {
    forall a | a in AssociationsOf(t, port) && a.vlan == id && a.isNative
      ensures HasTwin(t, port, a, true) <==> FindVlan(t.vlans, a.vlan).value.tag in StoredNatives(t', port)
    {
    }
  }

  // ----- all ports of the switch, over runs

  /** The ports of the switch and their interface names. */
  predicate AllInStep(t: Tables, d: Junos.Device, names: map<Id, string>) {
    forall port | port in names :: InStep(t, d, port, names[port])
  }

  predicate DistinctNames(names: map<Id, string>) {
    forall p, q | p in names && q in names && p != q :: names[p] != names[q]
  }

  datatype FlipCall = FlipCall(port: Id, request: Request, environment: Environment, link: Junos.Link)

  function AfterCall(t: Tables, d: Junos.Device, names: map<Id, string>, c: FlipCall): Final<Junos.Device>
    requires c.port in names
  {
    Update(Junos.JunosDriver(names[c.port], c.link), t, d, c.port, c.request, c.environment)
  }

  predicate CallDrifts(t: Tables, d: Junos.Device, names: map<Id, string>, c: FlipCall)
    requires c.port in names && AllInStep(t, d, names)
  {
    assert InStep(t, d, c.port, names[c.port]);
    Drifts(t, d, c.port, names[c.port], c.request, c.environment, c.link)
  }

  /** A call keeps every port of the switch in step, whether it returned or raised, if and only if it does
      not drift. */
  lemma CallKeepsAllInStep(t: Tables, d: Junos.Device, names: map<Id, string>, c: FlipCall)
    requires Db.Keyed(t) && DistinctNames(names) && AllInStep(t, d, names) && c.port in names
    ensures AllInStep(AfterCall(t, d, names, c).tables, AfterCall(t, d, names, c).device, names)
            <==> !CallDrifts(t, d, names, c)
  {
    var final := AfterCall(t, d, names, c);
    assert InStep(t, d, c.port, names[c.port]);
    DriftsExactly(t, d, c.port, names[c.port], c.request, c.environment, c.link);
    UpdateTouchesOnePort(t, d, names[c.port], c.link, c.port, c.request, c.environment);
    forall q | q in names && q != c.port
      ensures InStep(final.tables, final.device, q, names[q])
    {
      assert InStep(t, d, q, names[q]);
      UpdateKeepsOther(Junos.JunosDriver(names[c.port], c.link), t, d, c.port, c.request, c.environment, q);
      InStepFrame(t, d, final.tables, final.device, q, names[q]);
    }
  }

  function AfterRun(t: Tables, d: Junos.Device, names: map<Id, string>, calls: seq<FlipCall>): (Tables, Junos.Device)
    requires forall c | c in calls :: c.port in names
  {
    if calls == [] then (t, d)
    else
      assert calls[|calls| - 1] in calls && forall c | c in calls[..|calls| - 1] :: c in calls;
      var (t1, d1) := AfterRun(t, d, names, calls[..|calls| - 1]);
      var final := AfterCall(t1, d1, names, calls[|calls| - 1]);
      (final.tables, final.device)
  }

  /** Every port is in step before the run and after each call of it. */
  predicate InStepThroughout(t: Tables, d: Junos.Device, names: map<Id, string>, calls: seq<FlipCall>)
    requires forall c | c in calls :: c.port in names
  {
    assert forall c | c in calls[..if calls == [] then 0 else |calls| - 1] :: c in calls;
    AllInStep(AfterRun(t, d, names, calls).0, AfterRun(t, d, names, calls).1, names)
    && (calls == [] || InStepThroughout(t, d, names, calls[..|calls| - 1]))
  }

  /** No call of the run drifts in the state it meets. */
  predicate NeverDrifts(t: Tables, d: Junos.Device, names: map<Id, string>, calls: seq<FlipCall>)
    requires forall c | c in calls :: c.port in names
  {
    calls == []
    || (assert calls[|calls| - 1] in calls && forall c | c in calls[..|calls| - 1] :: c in calls;
        var (t1, d1) := AfterRun(t, d, names, calls[..|calls| - 1]);
        NeverDrifts(t, d, names, calls[..|calls| - 1])
        && AllInStep(t1, d1, names) && !CallDrifts(t1, d1, names, calls[|calls| - 1]))
  }

  lemma {:induction false} RunIsSound(t: Tables, d: Junos.Device, names: map<Id, string>, calls: seq<FlipCall>)
    requires Sound(t) && forall c | c in calls :: c.port in names
    ensures Sound(AfterRun(t, d, names, calls).0)
  {
    if calls != [] {
      var n := |calls| - 1;
      assert calls[n] in calls && forall c | c in calls[..n] :: c in calls;
      RunIsSound(t, d, names, calls[..n]);
      var (t1, d1) := AfterRun(t, d, names, calls[..n]);
      var last, dr := calls[n], Junos.JunosDriver(names[calls[n].port], calls[n].link);
      UpdateKeepsSound(dr, t1, d1, last.port, last.request, last.environment);
    }
  }

  /** One more call: in step throughout exactly if in step so far and the call does not drift. */
  lemma OneMoreCall(t: Tables, d: Junos.Device, names: map<Id, string>, calls: seq<FlipCall>)
    requires Sound(t) && DistinctNames(names) && calls != [] && forall c | c in calls :: c.port in names
    requires forall c | c in calls[..|calls| - 1] :: c.port in names
    requires var (t1, d1) := AfterRun(t, d, names, calls[..|calls| - 1]); AllInStep(t1, d1, names)
    ensures calls[|calls| - 1].port in names
    ensures var (t1, d1) := AfterRun(t, d, names, calls[..|calls| - 1]);
            AllInStep(AfterRun(t, d, names, calls).0, AfterRun(t, d, names, calls).1, names)
            <==> !CallDrifts(t1, d1, names, calls[|calls| - 1])
  {
    var n := |calls| - 1;
    assert calls[n] in calls;
    RunIsSound(t, d, names, calls[..n]);
    var (t1, d1) := AfterRun(t, d, names, calls[..n]);
    CallKeepsAllInStep(t1, d1, names, calls[n]);
  }

  lemma {:induction false} ThroughoutEndsInStep(t: Tables, d: Junos.Device, names: map<Id, string>,
      calls: seq<FlipCall>)
    requires forall c | c in calls :: c.port in names
    requires InStepThroughout(t, d, names, calls)
    ensures AllInStep(AfterRun(t, d, names, calls).0, AfterRun(t, d, names, calls).1, names)
  {
  }

  /** Database and switch are in step on every port after every call of a run, returned or raised, if and
      only if no call of it drifts. */
  lemma {:induction false} RunsStayInStep(t: Tables, d: Junos.Device, names: map<Id, string>, calls: seq<FlipCall>)
    requires Sound(t) && DistinctNames(names) && AllInStep(t, d, names)
    requires forall c | c in calls :: c.port in names
    ensures InStepThroughout(t, d, names, calls) <==> NeverDrifts(t, d, names, calls)
  {
    if calls != [] {
      var n := |calls| - 1;
      assert forall c | c in calls[..n] :: c in calls;
      RunsStayInStep(t, d, names, calls[..n]);
      if InStepThroughout(t, d, names, calls[..n]) {
        ThroughoutEndsInStep(t, d, names, calls[..n]);
        OneMoreCall(t, d, names, calls);
      }
    }
  }

  /** What a caller can see to without looking at the state: at most one native VLAN, a mode only with VLANs,
      no MAC address to check, and a connection that is not lost after the commit. */
  predicate Careful(c: FlipCall) {
    && (SwitchPortMode in c.request.columns ==> Flips(c.request))
    && (Flips(c.request) ==> AtMostOneNative(c.request.vlans.value))
    && c.request.mac.None? && c.link.commit != LostAfter && c.link.secondRead
  }

  predicate AtMostOneNative(refs: seq<VlanRef>) {
    forall j, k | 0 <= j < |refs| && 0 <= k < |refs| :: IsNative(refs[j]) && IsNative(refs[k]) ==> j == k
  }

  lemma FlagsOfRequest(t: Tables, port: Id, r: Request)
    requires Db.Keyed(t) && r.vlans.Some? && SwitchPortMode in r.columns && Resolvable(t, port, r.vlans.value)
    ensures var f := RequestFlip(t, port, r);
            && |f.vlans| == |r.vlans.value| && forall k | 0 <= k < |f.vlans| ::
               f.vlans[k].isNative == IsNative(r.vlans.value[k])
  {
    forall k | 0 <= k < |r.vlans.value| {
      ResolvedIsFound(t, port, r.vlans.value[k]);
    }
  }

  lemma OneNativeIsNotSplit(t: Tables, port: Id, r: Request)
    requires Db.Keyed(t) && r.vlans.Some? && SwitchPortMode in r.columns && Resolvable(t, port, r.vlans.value)
    requires AtMostOneNative(r.vlans.value)
    ensures var f := RequestFlip(t, port, r); !SplitNatives(f) && Sw.FirstNative(f.vlans) == Sw.LastNative(f.vlans)
  {
    var f := RequestFlip(t, port, r);
    FlagsOfRequest(t, port, r);
    forall v, w | v in f.vlans && w in f.vlans && v.isNative && w.isNative
      ensures v == w
    {
      var j :| 0 <= j < |f.vlans| && f.vlans[j] == v;
      var k :| 0 <= k < |f.vlans| && f.vlans[k] == w;
      assert IsNative(r.vlans.value[j]) && IsNative(r.vlans.value[k]);
    }
  }

  lemma CarefulDoesNotDrift(t: Tables, d: Junos.Device, names: map<Id, string>, c: FlipCall)
    requires Db.Keyed(t) && AllInStep(t, d, names) && c.port in names && Careful(c)
    ensures !CallDrifts(t, d, names, c)
  {
    if GoesOn(t, c.port, c.request, c.environment) && Flips(c.request) {
      FlipHasMode(t, c.port, c.request, c.environment);
      OneNativeIsNotSplit(t, c.port, c.request);
    }
  }

  /** So over every run of careful calls database and switch stay in step on every port. */
  lemma {:induction false} CarefulRunsStayInStep(t: Tables, d: Junos.Device, names: map<Id, string>,
      calls: seq<FlipCall>)
    requires Sound(t) && DistinctNames(names) && AllInStep(t, d, names)
    requires forall c | c in calls :: c.port in names && Careful(c)
    ensures InStepThroughout(t, d, names, calls)
  {
    if calls != [] {
      var n := |calls| - 1;
      assert calls[n] in calls && forall c | c in calls[..n] :: c in calls;
      CarefulRunsStayInStep(t, d, names, calls[..n]);
      ThroughoutEndsInStep(t, d, names, calls[..n]);
      OneMoreCarefulCall(t, d, names, calls);
    }
  }

  lemma OneMoreCarefulCall(t: Tables, d: Junos.Device, names: map<Id, string>, calls: seq<FlipCall>)
    requires Sound(t) && DistinctNames(names) && calls != [] && forall c | c in calls :: c.port in names
    requires forall c | c in calls[..|calls| - 1] :: c.port in names
    requires Careful(calls[|calls| - 1])
    requires var (t1, d1) := AfterRun(t, d, names, calls[..|calls| - 1]); AllInStep(t1, d1, names)
    ensures AllInStep(AfterRun(t, d, names, calls).0, AfterRun(t, d, names, calls).1, names)
  {
    var n := |calls| - 1;
    OneMoreCall(t, d, names, calls);
    RunIsSound(t, d, names, calls[..n]);
    var (t1, d1) := AfterRun(t, d, names, calls[..n]);
    CarefulDoesNotDrift(t1, d1, names, calls[n]);
  }
}
