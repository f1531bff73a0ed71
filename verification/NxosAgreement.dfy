/** Database and an NXOS switch in step: exactly when a call of `update_port` separates them. */
module NxosAgreement {
  import opened Prelude
  import opened Schema
  import opened Text
  import opened PortFlip
  import opened PortFlipRuns
  import Agreement = PortAgreement
  import Db = NetforceDb
  import Nxos = NxosPort
  import Sw = SwitchPort

  /** The port of the switch has the mode, and as an access port this one tag, else exactly these tags and as
      a trunk this one native tag. */
  predicate Says(p: Nxos.Port, mode: Sw.Mode, tags: set<nat>, natives: set<nat>) {
    && p.mode == mode && tags == (if mode == Sw.Access then {p.access} else p.allowed)
    && (mode == Sw.Trunk ==> natives == {p.native})
  }

  /** The stored port and the port of the switch say the same. */
  predicate InStep(t: Tables, d: Nxos.Device, port: Id, interface: string) {
    && port in t.ports && SwitchPortMode in t.ports[port].columns && interface in d.ports
    && Says(d.ports[interface], Agreement.StoredMode(t, port), StoredTags(t, port), StoredNatives(t, port))
  }

  /** Two ports that differ in nothing their mode makes use of. */
  predicate Alike(p: Nxos.Port, q: Nxos.Port) {
    && p.mode == q.mode && (p.mode == Sw.Access ==> p.access == q.access)
    && (p.mode != Sw.Access ==> p.allowed == q.allowed) && (p.mode == Sw.Trunk ==> p.native == q.native)
  }

  lemma SaysOnlyAlike(p: Nxos.Port, q: Nxos.Port, mode: Sw.Mode, tags: set<nat>, natives: set<nat>)
    requires Says(p, mode, tags, natives)
    ensures Says(q, mode, tags, natives) <==> Alike(p, q)
  {
    assert mode == Sw.Access && q.mode == mode && tags == {q.access} ==> q.access in tags;
    assert mode == Sw.Trunk && natives == {q.native} ==> q.native in natives;
  }

  /** The ways a flip that asks the switch separates it from the database. */
  predicate PushDrifts(d: Nxos.Device, interface: string, f: Sw.Flip, render: Nxos.Rendering, link: Nxos.Link)
    requires interface in d.ports && Sw.Numerals(f.vlans)
  {
    var p := d.ports[interface];
    if Nxos.Applies(d, interface, f, render, link) then
      if Nxos.Confirmed(f, link) then
        // returned: the database has every native tag, the switch the last one
        Agreement.SplitNatives(f)
      else
        // raised: only the database is rolled back, the commands sent stay
        !Alike(p, Nxos.PushedPort(p, f, link.lostAfter))
    else
      // found in place: the switch has the first native tag, or the digits of the one VLAN shown were taken
      // for the tags
      Sw.PreCheck(Nxos.NxosDriver(interface, render, link), d, f) == Ok(false)
      && if f.mode == Sw.Access then p.access >= 10 else Agreement.SplitNatives(f)
  }

  /** The ways a call separates the database from the switch, by its request, the port before, the MAC table
      and the connection. */
  predicate Drifts(t: Tables, d: Nxos.Device, port: Id, interface: string, r: Request, env: Environment,
      render: Nxos.Rendering, link: Nxos.Link)
    requires Db.Keyed(t) && InStep(t, d, port, interface)
  {
    GoesOn(t, port, r, env) &&
    if !Flips(r) then
      SwitchPortMode in r.columns && ModeOf(r.columns[SwitchPortMode]) != Agreement.StoredMode(t, port)
    else
      SwitchPortMode in r.columns && Resolvable(t, port, r.vlans.value) &&
      var f := RequestFlip(t, port, r);
      if MacFails(f, r, env) then
        !Agreement.AlreadyStored(t, port, f, RequestedNatives(f.vlans))
      else
        assert Sw.Numerals(f.vlans) by { FlipHasNumerals(t, port, r, env); }
        env.readable && PushDrifts(d, interface, f, render, link)
  }

  lemma FlipHasNumerals(t: Tables, port: Id, r: Request, env: Environment)
    requires Db.Keyed(t) && GoesOn(t, port, r, env) && Flips(r)
    requires SwitchPortMode in r.columns && Resolvable(t, port, r.vlans.value)
    ensures Sw.Numerals(RequestFlip(t, port, r).vlans)
  {
    Agreement.CommittedSays(t, port, r, env);
  }

  // ----- the port after the push phase

  /** The target port says what is asked exactly when the native tags are not split. */
  lemma TargetSays(f: Sw.Flip)
    requires Sw.Sendable(f) && Sw.Numerals(f.vlans) && (f.mode == Sw.Access || f.mode == Sw.Trunk)
    ensures Says(Nxos.Target(f), f.mode, Sw.Requested(f.vlans), RequestedNatives(f.vlans))
            <==> !Agreement.SplitNatives(f)
  {
    if f.mode == Sw.Trunk {
      Agreement.OneNativeExactly(f, Sw.LastNative(f.vlans).value);
    } else {
      assert f.vlans[0] in f.vlans;
      assert Sw.Requested(f.vlans) == {ParseNat(f.vlans[0].tag)};
    }
  }

  /** A trunk that allows some VLAN and is found in place says what is asked, exactly when the natives are
      not split. */
  lemma TrunkInPlaceSays(p: Nxos.Port, f: Sw.Flip)
    requires f.mode == Sw.Trunk && Sw.Numerals(f.vlans) && Nxos.InPlace(p, f) && p.allowed != {}
    ensures Says(p, f.mode, Sw.Requested(f.vlans), RequestedNatives(f.vlans)) <==> !Agreement.SplitNatives(f)
  {
    ParseDecimal(p.native);
    Agreement.OneNativeExactly(f, Decimal(p.native));
  }

  /** An access port found in place has the VLAN asked for exactly when its tag has one digit. */
  lemma AccessInPlaceSays(p: Nxos.Port, f: Sw.Flip)
    requires f.mode == Sw.Access && Sw.Numerals(f.vlans) && f.vlans != [] && Nxos.InPlace(p, f)
    ensures Says(p, f.mode, Sw.Requested(f.vlans), RequestedNatives(f.vlans)) <==> p.access < 10
  {
    var shown := Decimal(p.access);
    ParseDecimal(p.access);
    forall v | v in f.vlans
      ensures |v.tag| == 1 && ParseNat(v.tag) < 10 && (|shown| == 1 ==> v.tag == shown)
    {
      InPlaceHasOneDigit(p, f, v);
    }
    assert ParseNat(f.vlans[0].tag) in Sw.Requested(f.vlans);
    if p.access < 10 {
      assert |shown| == 1;
      assert Sw.Requested(f.vlans) == {p.access};
    }
  }

  lemma InPlaceHasOneDigit(p: Nxos.Port, f: Sw.Flip, v: Sw.FlipVlan)
    requires f.mode == Sw.Access && Sw.Numerals(f.vlans) && Nxos.InPlace(p, f) && v in f.vlans
    ensures |v.tag| == 1 && ParseNat(v.tag) < 10 && (|Decimal(p.access)| == 1 ==> v.tag == Decimal(p.access))
  {
    assert v.tag in Sw.RequestedTags(f.vlans);
    assert v.tag in Sw.AccessSet(Sw.TextForm(Decimal(p.access)));
    assert v.tag[..0] == "";
  }

  /** What is stored as native is stored, so a trunk in step allows some VLAN. */
  lemma TrunkAllowsSome(t: Tables, d: Nxos.Device, port: Id, interface: string)
    requires InStep(t, d, port, interface) && d.ports[interface].mode == Sw.Trunk
    ensures d.ports[interface].allowed != {}
  {
    assert d.ports[interface].native in StoredNatives(t, port);
    assert d.ports[interface].native in StoredTags(t, port);
  }

  /** A port in step that is found in place is in step with the request too, but for split natives and
      access VLANs of more than one digit. */
  lemma InPlaceSays(t: Tables, d: Nxos.Device, port: Id, interface: string, f: Sw.Flip, render: Nxos.Rendering,
      link: Nxos.Link)
    requires InStep(t, d, port, interface) && Sw.Numerals(f.vlans) && f.vlans != [] && Nxos.Renders(render)
    requires Sw.PreCheck(Nxos.NxosDriver(interface, render, link), d, f) == Ok(false)
    ensures Says(d.ports[interface], f.mode, Sw.Requested(f.vlans), RequestedNatives(f.vlans))
            <==> !(if f.mode == Sw.Access then d.ports[interface].access >= 10 else Agreement.SplitNatives(f))
  {
    Nxos.CheckedPortExists(d, interface, f, render, link);
    Nxos.PreCheckExactly(d, interface, f, render, link);
    if f.mode == Sw.Access {
      AccessInPlaceSays(d.ports[interface], f);
    } else {
      TrunkAllowsSome(t, d, port, interface);
      TrunkInPlaceSays(d.ports[interface], f);
    }
  }

  /** The switch after a push. */
  function AfterPush(d: Nxos.Device, interface: string, f: Sw.Flip, link: Nxos.Link): Nxos.Device
    requires interface in d.ports && Sw.Sendable(f)
  {
    Nxos.WithPort(d, interface, Nxos.PushedPort(d.ports[interface], f, link.lostAfter))
  }

  /** The ways the push phase can end. */
  lemma PhaseEnds(t: Tables, t1: Tables, d: Nxos.Device, port: Id, interface: string, f: Sw.Flip, env: Environment,
      render: Nxos.Rendering, link: Nxos.Link)
    requires port in t.ports && port in t1.ports && interface in d.ports
    requires Sw.Numerals(f.vlans) && Nxos.Renders(render)
    ensures var final := PushPhase(Nxos.NxosDriver(interface, render, link), t, t1, d, port, f, env);
            var restored := RolledBack(t1, port, Snapshot(t.ports[port].columns), AssociationsOf(t, port));
            var applies := env.readable && Nxos.Applies(d, interface, f, render, link);
            var inPlace := env.readable && Sw.PreCheck(Nxos.NxosDriver(interface, render, link), d, f) == Ok(false);
            && final.device == (if applies then AfterPush(d, interface, f, link) else d)
            && final.tables == (if (applies && Nxos.Confirmed(f, link)) || inPlace then t1 else restored)
  {
    Nxos.UpdateExactly(d, interface, f, render, link);
    Nxos.NeverStops(d, interface, f, render, link);
  }

  lemma InStepBy(t: Tables, d: Nxos.Device, port: Id, interface: string, mode: Sw.Mode, tags: set<nat>,
      natives: set<nat>)
    requires Agreement.Holds(t, port, mode, tags, natives) && interface in d.ports
    ensures InStep(t, d, port, interface) <==> Says(d.ports[interface], mode, tags, natives)
  {
  }

  /** The push phase, for any tables that hold the request and tables to go back to. */
  lemma PushDriftsExactly(t: Tables, t1: Tables, d: Nxos.Device, port: Id, interface: string, f: Sw.Flip,
      env: Environment, render: Nxos.Rendering, link: Nxos.Link)
    requires InStep(t, d, port, interface) && Sw.Numerals(f.vlans) && f.vlans != [] && Nxos.Renders(render)
    requires Agreement.Holds(t1, port, f.mode, Sw.Requested(f.vlans), RequestedNatives(f.vlans))
    requires Agreement.Holds(RolledBack(t1, port, Snapshot(t.ports[port].columns), AssociationsOf(t, port)), port,
                             Agreement.StoredMode(t, port), StoredTags(t, port), StoredNatives(t, port))
    ensures var final := PushPhase(Nxos.NxosDriver(interface, render, link), t, t1, d, port, f, env);
            InStep(final.tables, final.device, port, interface)
            <==> !(env.readable && PushDrifts(d, interface, f, render, link))
  {
    var restored := RolledBack(t1, port, Snapshot(t.ports[port].columns), AssociationsOf(t, port));
    var mode, tags, natives := Agreement.StoredMode(t, port), StoredTags(t, port), StoredNatives(t, port);
    PhaseEnds(t, t1, d, port, interface, f, env, render, link);
    InStepBy(restored, d, port, interface, mode, tags, natives);
    InStepBy(t1, d, port, interface, f.mode, Sw.Requested(f.vlans), RequestedNatives(f.vlans));
    if env.readable && Nxos.Applies(d, interface, f, render, link) {
      var d' := AfterPush(d, interface, f, link);
      Nxos.CheckedPortExists(d, interface, f, render, link);
      TargetSays(f);
      Nxos.PushedIsTarget(d.ports[interface], f);
      SaysOnlyAlike(d.ports[interface], d'.ports[interface], mode, tags, natives);
      InStepBy(restored, d', port, interface, mode, tags, natives);
      InStepBy(t1, d', port, interface, f.mode, Sw.Requested(f.vlans), RequestedNatives(f.vlans));
    } else if env.readable && Sw.PreCheck(Nxos.NxosDriver(interface, render, link), d, f) == Ok(false) {
      InPlaceSays(t, d, port, interface, f, render, link);
    }
  }

  /** An update without VLANs keeps its port in step exactly when it keeps the mode. */
  lemma WithoutVlans(t: Tables, d: Nxos.Device, port: Id, interface: string, r: Request, env: Environment)
    requires InStep(t, d, port, interface) && GoesOn(t, port, r, env) && !Flips(r)
    ensures Committed(t, port, r, env).Ok?
    ensures InStep(Committed(t, port, r, env).value.0, d, port, interface)
            <==> (SwitchPortMode in r.columns ==> ModeOf(r.columns[SwitchPortMode]) == Agreement.StoredMode(t, port))
  {
    CommittedExactly(t, port, r, env);
    CommittedFrame(t, port, r, env);
    Agreement.SameStored(t, Committed(t, port, r, env).value.0, port);
  }

  /** The new rows without a push are in step exactly when they say what was stored. */
  lemma MacFailureDrifts(t: Tables, d: Nxos.Device, port: Id, interface: string, f: Sw.Flip, t1: Tables)
    requires InStep(t, d, port, interface)
    requires Agreement.Holds(t1, port, f.mode, Sw.Requested(f.vlans), RequestedNatives(f.vlans))
    ensures InStep(t1, d, port, interface) <==> Agreement.AlreadyStored(t, port, f, RequestedNatives(f.vlans))
  {
  }

  /** A call keeps its port in step, whether it returned or raised, if and only if it does not drift. */
  lemma DriftsExactly(t: Tables, d: Nxos.Device, port: Id, interface: string, r: Request, env: Environment,
      render: Nxos.Rendering, link: Nxos.Link)
    requires Db.Keyed(t) && InStep(t, d, port, interface) && Nxos.Renders(render)
    ensures var final := Update(Nxos.NxosDriver(interface, render, link), t, d, port, r, env);
            InStep(final.tables, final.device, port, interface)
            <==> !Drifts(t, d, port, interface, r, env, render, link)
  {
    EarlyFailures(Nxos.NxosDriver(interface, render, link), t, d, port, r, env);
    if GoesOn(t, port, r, env) {
      if !Flips(r) {
        WithoutVlans(t, d, port, interface, r, env);
      } else {
        FlipHasMode(t, port, r, env);
        Agreement.CommittedSays(t, port, r, env);
        var t1, f := Committed(t, port, r, env).value.0, RequestFlip(t, port, r);
        if MacFails(f, r, env) {
          MacFailureDrifts(t, d, port, interface, f, t1);
        } else {
          Agreement.RolledBackSays(t, port, r, env);
          PushDriftsExactly(t, t1, d, port, interface, f, env, render, link);
        }
      }
    }
  }

  // ----- what a flip that returned is worth

  lemma ReturnedPhase(t: Tables, t1: Tables, d: Nxos.Device, port: Id, interface: string, f: Sw.Flip,
      env: Environment, render: Nxos.Rendering, link: Nxos.Link)
    requires port in t.ports && Sw.Numerals(f.vlans) && f.vlans != [] && Nxos.Renders(render)
    requires Agreement.Holds(t1, port, f.mode, Sw.Requested(f.vlans), RequestedNatives(f.vlans))
    requires PushPhase(Nxos.NxosDriver(interface, render, link), t, t1, d, port, f, env).answer == None
    ensures interface in d.ports && (f.mode == Sw.Access || f.mode == Sw.Trunk)
    ensures f.mode == Sw.Access ==> forall v | v in f.vlans :: |v.tag| == 1
    ensures var final := PushPhase(Nxos.NxosDriver(interface, render, link), t, t1, d, port, f, env);
            InStep(final.tables, final.device, port, interface)
            <==> !Agreement.SplitNatives(f)
                 && (Nxos.Applies(d, interface, f, render, link) || ShowsRequest(d.ports[interface], f.mode))
  {
    Nxos.UpdateExactly(d, interface, f, render, link);
    Nxos.CheckedPortExists(d, interface, f, render, link);
    if Nxos.Applies(d, interface, f, render, link) {
      PushedSays(t1, d, port, interface, f, link);
    } else {
      FoundSays(t1, d, port, interface, f, render, link);
    }
  }

  /** The port found in place is what it is taken for: an access VLAN of one digit, or a trunk with VLANs. */
  predicate ShowsRequest(p: Nxos.Port, mode: Sw.Mode) {
    if mode == Sw.Access then p.access < 10 else p.allowed != {}
  }

  lemma PushedSays(t1: Tables, d: Nxos.Device, port: Id, interface: string, f: Sw.Flip, link: Nxos.Link)
    requires interface in d.ports && Sw.Sendable(f) && Sw.Numerals(f.vlans) && Nxos.Confirmed(f, link)
    requires f.mode == Sw.Access || f.mode == Sw.Trunk
    requires Agreement.Holds(t1, port, f.mode, Sw.Requested(f.vlans), RequestedNatives(f.vlans))
    ensures f.mode == Sw.Access ==> forall v | v in f.vlans :: |v.tag| == 1
    ensures InStep(t1, AfterPush(d, interface, f, link), port, interface) <==> !Agreement.SplitNatives(f)
  {
    TargetSays(f);
    Nxos.PushedIsTarget(d.ports[interface], f);
  }

  lemma FoundSays(t1: Tables, d: Nxos.Device, port: Id, interface: string, f: Sw.Flip, render: Nxos.Rendering,
      link: Nxos.Link)
    requires interface in d.ports && Sw.Numerals(f.vlans) && f.vlans != [] && Nxos.Renders(render)
    requires f.mode == Sw.Access || f.mode == Sw.Trunk
    requires Sw.PreCheck(Nxos.NxosDriver(interface, render, link), d, f) == Ok(false)
    requires Agreement.Holds(t1, port, f.mode, Sw.Requested(f.vlans), RequestedNatives(f.vlans))
    ensures f.mode == Sw.Access ==> forall v | v in f.vlans :: |v.tag| == 1
    ensures InStep(t1, d, port, interface)
            <==> !Agreement.SplitNatives(f) && ShowsRequest(d.ports[interface], f.mode)
  {
    var p := d.ports[interface];
    Nxos.PreCheckExactly(d, interface, f, render, link);
    if f.mode == Sw.Access {
      AccessInPlaceSays(p, f);
      forall v | v in f.vlans ensures |v.tag| == 1 {
        InPlaceHasOneDigit(p, f, v);
      }
    } else if p.allowed != {} {
      TrunkInPlaceSays(p, f);
    } else {
      assert ParseNat(f.vlans[0].tag) in Sw.Requested(f.vlans);
    }
  }

  /** An access flip returns for one-digit tags only. A flip that returned, whatever was stored before, leaves
      its port in step if and only if its native tags are not split, and it was pushed or the port was what it
      was taken for. */
  lemma ReturnedIsInStep(t: Tables, d: Nxos.Device, port: Id, interface: string, r: Request, env: Environment,
      render: Nxos.Rendering, link: Nxos.Link)
    requires Db.Keyed(t) && Flips(r) && Nxos.Renders(render)
    requires Update(Nxos.NxosDriver(interface, render, link), t, d, port, r, env).answer == None
    ensures SwitchPortMode in r.columns && Resolvable(t, port, r.vlans.value) && interface in d.ports
    ensures var f := RequestFlip(t, port, r); f.mode == Sw.Access ==> forall v | v in f.vlans :: |v.tag| == 1
    ensures var final := Update(Nxos.NxosDriver(interface, render, link), t, d, port, r, env);
            var f := RequestFlip(t, port, r);
            InStep(final.tables, final.device, port, interface)
            <==> !Agreement.SplitNatives(f)
                 && (Nxos.Applies(d, interface, f, render, link) || ShowsRequest(d.ports[interface], f.mode))
  {
    EarlyFailures(Nxos.NxosDriver(interface, render, link), t, d, port, r, env);
    FlipHasMode(t, port, r, env);
    Agreement.CommittedSays(t, port, r, env);
    var t1, f := Committed(t, port, r, env).value.0, RequestFlip(t, port, r);
    ReturnedPhase(t, t1, d, port, interface, f, env, render, link);
  }
}
