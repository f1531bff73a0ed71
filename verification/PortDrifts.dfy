/** Concrete calls of `update_port` that separate the database from a Junos switch, or leave the row changed. */
module PortDrifts {
  import opened Prelude
  import opened Rows
  import opened Schema
  import opened Text
  import opened VlanRange
  import opened PortFlip
  import opened PortFlipRuns
  import opened PortAgreement
  import Db = NetforceDb
  import Junos = JunosPort
  import Sw = SwitchPort

  const TEN := VlanRow(10, "web", 10, 1, None, Active, NewlyActive)
  const TWENTY := VlanRow(20, "db", 20, 1, None, Active, NewlyActive)

  const ACCESS: Option<string> := Some("access")
  const TRUNK: Option<string> := Some("trunk")

  /** Every column empty but the mode. */
  const COLUMNS: Columns := map f | f in ALL_FIELDS :: if f == SwitchPortMode then ACCESS else None

  /** Port 7 of switch 3, an access port in VLAN 10. */
  const TABLES := Tables([NamedRow(1, "rack1")], [], map[3 := DeviceRow(Some(1), true, Junos)],
                         map[7 := PortRow(3, COLUMNS)], [TEN, TWENTY], [AssociationRow(7, 10, true)], [])

  const PORT := "ge-0/0/7"

  /** The switch agrees, and has both VLANs. */
  function Switch(): Junos.Device {
    Junos.Device(map[PORT := Junos.PortConfig(Sw.Access, None, [Decimal(10)])],
                 [Junos.DeviceVlan(Decimal(10), false), Junos.DeviceVlan(Decimal(20), false)])
  }

  const SMOOTH := Environment(true, true, Some([]), true)
  const GOOD_LINK := Junos.Link(true, Healthy, true)

  function ById(id: Id, native: bool): VlanRef {
    VlanRef(None, Some(id), None, Some(native))
  }

  lemma StoredIsTen()
    ensures AssociationsOf(TABLES, 7) == [AssociationRow(7, 10, true)]
    ensures StoredTags(TABLES, 7) == {10} && StoredNatives(TABLES, 7) == {10}
  {
    var row := AssociationRow(7, 10, true);
    FilterAll([row], OnPort(7));
    assert TABLES.vlans[0] == TEN;
    assert row in AssociationsOf(TABLES, 7);
  }

  lemma AccessPortSays(n: nat, natives: set<nat>)
    ensures var p := Junos.PortConfig(Sw.Access, None, [Decimal(n)]);
            Junos.Regular(p) && Says(p, Sw.Access, {n}, natives)
  {
    ParseDecimal(n);
    var member := Decimal(n);
    assert Denotes(member) == {Tag(n)};
    assert member in [member];
    assert Tag(n) in DenotesAll([member]);
  }

  lemma BeforeInStep()
    ensures InStep(TABLES, Switch(), 7, PORT)
  {
    StoredIsTen();
    AccessPortSays(10, {10});
  }

  lemma TablesAreKeyed()
    ensures Db.Keyed(TABLES)
  {
  }

  /** The flip of the references to VLANs 10 and 20 by id. */
  lemma ResolvedById()
    ensures Resolve(TABLES, 7, ById(10, true)) == Ok(TEN)
    ensures forall native :: Resolve(TABLES, 7, ById(20, native)) == Ok(TWENTY)
  {
    assert TABLES.vlans[0] == TEN && TABLES.vlans[1..][0] == TWENTY;
  }

  /** What the flip to access VLAN 20 comes to. */
  function TwentyFlip(): Sw.Flip {
    Sw.Flip(Sw.Access, [Sw.FlipVlan(Decimal(20), true)])
  }

  /** An access flip to VLAN 20. */
  function ToTwenty(mac: Option<string>): Request {
    Request(map[SwitchPortMode := ACCESS], Some([ById(20, true)]), mac)
  }

  lemma FlipOfOne(mode: Option<string>, ref: VlanRef)
    requires ref.tag.Some?
    ensures ToFlip(mode, [ref]) == Sw.Flip(ModeOf(mode), [Sw.FlipVlan(ref.tag.value, IsNative(ref))])
  {
  }

  lemma FlipOfTwo(mode: Option<string>, ref: VlanRef, other: VlanRef)
    requires ref.tag.Some? && other.tag.Some?
    ensures ToFlip(mode, [ref, other])
            == Sw.Flip(ModeOf(mode),
                       [Sw.FlipVlan(ref.tag.value, IsNative(ref)), Sw.FlipVlan(other.tag.value, IsNative(other))])
  {
  }

  /** A flip by ids that touches neither admin status nor label commits if its VLANs can be stored. */
  predicate Plain(t: Tables, port: Id, r: Request) {
    && port in t.ports && Flips(r) && SwitchPortMode in r.columns && AdminStatus !in r.columns && Label !in r.columns
    && Storable(t, port, r.vlans.value) && forall ref | ref in r.vlans.value :: ref.tag.None? && ref.id.Some?
  }

  lemma PlainFlipGoesOn(t: Tables, port: Id, r: Request, env: Environment)
    requires Plain(t, port, r)
    ensures GoesOn(t, port, r, env)
  {
  }

  lemma OneVlanFlip(t: Tables, port: Id, r: Request, ref: VlanRef, v: VlanRow)
    requires port in t.ports && r.vlans == Some([ref]) && SwitchPortMode in r.columns
    requires AdminStatus !in r.columns && Label !in r.columns
    requires ref.tag.None? && ref.id.Some? && Resolve(t, port, ref) == Ok(v)
    ensures Plain(t, port, r) && Resolvable(t, port, r.vlans.value)
    ensures RequestFlip(t, port, r)
            == Sw.Flip(ModeOf(r.columns[SwitchPortMode]), [Sw.FlipVlan(Decimal(v.tag), IsNative(ref))])
  {
    assert TaggedAll(t, port, [ref]) == [Tagged(ref, v)];
    FlipOfOne(r.columns[SwitchPortMode], Tagged(ref, v));
  }

  lemma TwoVlanFlip(t: Tables, port: Id, r: Request, ref: VlanRef, v: VlanRow, other: VlanRef, w: VlanRow)
    requires port in t.ports && r.vlans == Some([ref, other]) && SwitchPortMode in r.columns
    requires AdminStatus !in r.columns && Label !in r.columns
    requires ref.tag.None? && ref.id.Some? && Resolve(t, port, ref) == Ok(v)
    requires other.tag.None? && other.id.Some? && Resolve(t, port, other) == Ok(w) && v.id != w.id
    ensures Plain(t, port, r) && Resolvable(t, port, r.vlans.value)
    ensures RequestFlip(t, port, r)
            == Sw.Flip(ModeOf(r.columns[SwitchPortMode]),
                       [Sw.FlipVlan(Decimal(v.tag), IsNative(ref)), Sw.FlipVlan(Decimal(w.tag), IsNative(other))])
  {
    assert TaggedAll(t, port, [ref, other]) == [Tagged(ref, v), Tagged(other, w)];
    FlipOfTwo(r.columns[SwitchPortMode], Tagged(ref, v), Tagged(other, w));
  }

  lemma Modes()
    ensures ModeOf(ACCESS) == Sw.Access && ModeOf(TRUNK) == Sw.Trunk
  {
  }

  lemma ToTwentyIsPlain(r: Request)
    requires r.vlans == Some([ById(20, true)]) && SwitchPortMode in r.columns && r.columns[SwitchPortMode] == ACCESS
    requires AdminStatus !in r.columns && Label !in r.columns
    ensures Plain(TABLES, 7, r) && Resolvable(TABLES, 7, r.vlans.value) && RequestFlip(TABLES, 7, r) == TwentyFlip()
  {
    ResolvedById();
    Modes();
    OneVlanFlip(TABLES, 7, r, ById(20, true), TWENTY);
  }

  lemma ToTwentyGoesOn(mac: Option<string>, env: Environment)
    ensures GoesOn(TABLES, 7, ToTwenty(mac), env) && Resolvable(TABLES, 7, ToTwenty(mac).vlans.value)
    ensures RequestFlip(TABLES, 7, ToTwenty(mac)) == TwentyFlip()
  {
    ToTwentyIsPlain(ToTwenty(mac));
    PlainFlipGoesOn(TABLES, 7, ToTwenty(mac), env);
  }

  lemma TwentyIsNotStored(natives: set<nat>)
    ensures !AlreadyStored(TABLES, 7, TwentyFlip(), natives)
  {
    StoredIsTen();
    ParseDecimal(20);
    assert TwentyFlip().vlans[0] in TwentyFlip().vlans;
    assert 20 in Sw.Requested(TwentyFlip().vlans);
  }

  /** A drift takes the port out of step. */
  lemma DriftSeparates(r: Request, env: Environment, link: Junos.Link)
    requires Drifts(TABLES, Switch(), 7, PORT, r, env, link)
    ensures var final := Update(Junos.JunosDriver(PORT, link), TABLES, Switch(), 7, r, env);
            InStep(TABLES, Switch(), 7, PORT) && !InStep(final.tables, final.device, 7, PORT)
  {
    BeforeInStep();
    TablesAreKeyed();
    DriftsExactly(TABLES, Switch(), 7, PORT, r, env, link);
  }

  /** A MAC address to check and a switch whose MAC table cannot be read: VLAN 20 is stored, the switch
      keeps VLAN 10. */
  lemma MacFailureDrifts()
    ensures var r, env := ToTwenty(Some("00:11:22:33:44:55")), SMOOTH.(macs := None);
            var final := Update(Junos.JunosDriver(PORT, GOOD_LINK), TABLES, Switch(), 7, r, env);
            InStep(TABLES, Switch(), 7, PORT) && !InStep(final.tables, final.device, 7, PORT)
  {
    var r, env := ToTwenty(Some("00:11:22:33:44:55")), SMOOTH.(macs := None);
    ToTwentyGoesOn(r.mac, env);
    TwentyIsNotStored(RequestedNatives(TwentyFlip().vlans));
    DriftSeparates(r, env, GOOD_LINK);
  }

  lemma TwentyIsPushed(link: Junos.Link)
    requires link.firstRead && (link.commit == Healthy || link.commit == LostAfter)
    ensures Junos.Applies(Switch(), PORT, TwentyFlip(), link)
  {
    var f := TwentyFlip();
    ParseDecimal(10);
    ParseDecimal(20);
    assert f.vlans[..0] == [];
    assert Sw.RequestedTags(f.vlans) == [] + [Decimal(20)];
    assert Switch().vlans[1] in Switch().vlans;
    assert Decimal(10) in Sw.AsSet([Decimal(10)]);
  }

  lemma LostFlipDrifts(link: Junos.Link)
    requires link.firstRead && (link.commit == LostAfter || (link.commit == Healthy && !link.secondRead))
    ensures Drifts(TABLES, Switch(), 7, PORT, ToTwenty(None), SMOOTH, link)
  {
    ToTwentyGoesOn(None, SMOOTH);
    TwentyIsPushed(link);
    TwentyIsNotStored(PushedNatives(TwentyFlip()));
  }

  /** The connection lost after the commit, or a port that cannot be read again: the database is rolled
      back to VLAN 10, the switch stays in VLAN 20. */
  lemma LostConnectionDrifts(secondRead: bool)
    ensures var link := Junos.Link(true, if secondRead then LostAfter else Healthy, secondRead);
            var final := Update(Junos.JunosDriver(PORT, link), TABLES, Switch(), 7, ToTwenty(None), SMOOTH);
            InStep(TABLES, Switch(), 7, PORT) && !InStep(final.tables, final.device, 7, PORT)
  {
    var link := Junos.Link(true, if secondRead then LostAfter else Healthy, secondRead);
    LostFlipDrifts(link);
    DriftSeparates(ToTwenty(None), SMOOTH, link);
  }

  /** What the flip to a trunk with two native VLANs comes to. */
  function BothFlip(): Sw.Flip {
    Sw.Flip(Sw.Trunk, [Sw.FlipVlan(Decimal(10), true), Sw.FlipVlan(Decimal(20), true)])
  }

  /** A trunk flip to VLANs 10 and 20, both marked native. */
  function ToBoth(): Request {
    Request(map[SwitchPortMode := TRUNK], Some([ById(10, true), ById(20, true)]), None)
  }

  lemma ToBothIsPlain(r: Request)
    requires r.vlans == Some([ById(10, true), ById(20, true)]) && SwitchPortMode in r.columns
             && r.columns[SwitchPortMode] == TRUNK
    requires AdminStatus !in r.columns && Label !in r.columns
    ensures Plain(TABLES, 7, r) && Resolvable(TABLES, 7, r.vlans.value) && RequestFlip(TABLES, 7, r) == BothFlip()
  {
    ResolvedById();
    Modes();
    TwoVlanFlip(TABLES, 7, r, ById(10, true), TEN, ById(20, true), TWENTY);
  }

  lemma ToBothGoesOn()
    ensures GoesOn(TABLES, 7, ToBoth(), SMOOTH) && Resolvable(TABLES, 7, ToBoth().vlans.value)
    ensures RequestFlip(TABLES, 7, ToBoth()) == BothFlip()
  {
    ToBothIsPlain(ToBoth());
    PlainFlipGoesOn(TABLES, 7, ToBoth(), SMOOTH);
  }

  lemma BothArePushed()
    ensures Junos.Applies(Switch(), PORT, BothFlip(), GOOD_LINK)
    ensures Sw.FirstNative(BothFlip().vlans) == Some(Decimal(10))
            && Sw.LastNative(BothFlip().vlans) == Some(Decimal(20))
  {
    var f := BothFlip();
    forall tag | tag in Sw.RequestedTags(f.vlans)
      ensures exists v | v in Switch().vlans :: v.tag == tag
    {
      assert Switch().vlans[0] in Switch().vlans && Switch().vlans[1] in Switch().vlans;
    }
    assert forall v | v in Switch().vlans :: !v.suspended;
    assert Junos.CheckTags(Switch(), Sw.RequestedTags(f.vlans)) == None;
  }

  lemma BothPushDrifts()
    ensures PushDrifts(TABLES, Switch(), 7, PORT, BothFlip(), GOOD_LINK)
  {
    BothArePushed();
    ParseDecimal(10);
    ParseDecimal(20);
    Modes();
  }

  lemma ToBothIsADrift()
    ensures Drifts(TABLES, Switch(), 7, PORT, ToBoth(), SMOOTH, GOOD_LINK)
  {
    ToBothGoesOn();
    BothPushDrifts();
  }

  /** Two native VLANs pass validation; the push keeps 20, the check after it looks for 10: the database is
      rolled back to an access port, the switch stays a trunk. */
  lemma TwoNativesDrift()
    ensures var final := Update(Junos.JunosDriver(PORT, GOOD_LINK), TABLES, Switch(), 7, ToBoth(), SMOOTH);
            InStep(TABLES, Switch(), 7, PORT) && !InStep(final.tables, final.device, 7, PORT)
  {
    ToBothIsADrift();
    DriftSeparates(ToBoth(), SMOOTH, GOOD_LINK);
  }

  /** The flip to VLAN 20 that also sets the asset id, on a switch that cannot be reached. */
  function WithAsset(): Request {
    ToTwenty(None).(columns := map[SwitchPortMode := ACCESS, AssetId := Some("asset-1")])
  }

  const UNREACHABLE := SMOOTH.(readable := false)

  lemma UnreachableRollsBack<D>(dr: Sw.Driver<D>, t: Tables, d: D, port: Id, r: Request, env: Environment)
    requires Db.Keyed(t) && GoesOn(t, port, r, env) && Flips(r) && r.mac.None? && !env.readable
    ensures Update(dr, t, d, port, r, env).answer == Some(InterfaceUnreadable)
            && Update(dr, t, d, port, r, env).device == d
  {
    EarlyFailures(dr, t, d, port, r, env);
    FlipHasMode(t, port, r, env);
  }

  lemma WithAssetIsRolledBack(dr: Sw.Driver<Junos.Device>)
    ensures Update(dr, TABLES, Switch(), 7, WithAsset(), UNREACHABLE).answer == Some(InterfaceUnreadable)
    ensures Update(dr, TABLES, Switch(), 7, WithAsset(), UNREACHABLE).device == Switch()
  {
    TablesAreKeyed();
    ToTwentyIsPlain(WithAsset());
    PlainFlipGoesOn(TABLES, 7, WithAsset(), UNREACHABLE);
    UnreachableRollsBack(dr, TABLES, Switch(), 7, WithAsset(), UNREACHABLE);
  }

  lemma AssetIsNotRestorable()
    ensures TABLES.ports[7].columns.Keys == ALL_FIELDS && WithAsset().columns.Keys <= ALL_FIELDS
    ensures !Restorable(TABLES.ports[7].columns, WithAsset().columns)
  {
    assert AssetId in WithAsset().columns && AssetId in COLUMNS;
  }

  /** The rollback leaves the new asset id in the row. */
  lemma AssetIdSurvivesRollback(dr: Sw.Driver<Junos.Device>)
    ensures var final := Update(dr, TABLES, Switch(), 7, WithAsset(), UNREACHABLE);
            final.answer == Some(InterfaceUnreadable) && final.device == Switch() && final.tables.ports != TABLES.ports
  {
    WithAssetIsRolledBack(dr);
    AssetIsNotRestorable();
    RollbackRestores(dr, TABLES, Switch(), 7, WithAsset(), UNREACHABLE);
  }
}
