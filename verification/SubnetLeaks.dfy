/** Concrete worlds in which an ordinary `create_subnet` separates the database from the switch. */
module SubnetLeaks {
  import opened Prelude
  import opened Cidr
  import opened Schema
  import opened BubbleRoutes
  import opened SubnetAdmission
  import Pools = AddressPool
  import L3 = L3Interface
  import Runs = SubnetRuns

  const VLAN := VlanRow(4, "storage", 100, 1, Some(2), Active, NewlyActive)

  /** One switch, one VLAN with a VPC, no subnets. */
  const TABLES := Tables([NamedRow(1, "rack1")], [NamedRow(2, "prod")], map[3 := DeviceRow(Some(1), true, Nxos)],
                         map[], [VLAN], [], [])

  /** Its interface bare. */
  const WORLD := World(TABLES, map[3 := map[100 := []]])

  function ConfigFor(b: Block): Config {
    Config(true, 10, b, {"prod"}, 4)
  }

  function RequestFor(b: Block, gateway: Address): Request {
    Request(Cidr(b), gateway, 4, map[], None)
  }

  /** Everything outside goes well, and the bubble comes to list the new block. */
  function Smooth(b: Block): Environment {
    Environment(Fetched([]), Fetched([Cidr(b)]), Healthy, Healthy, true)
  }

  lemma WorldAgrees()
    ensures Runs.Agrees(WORLD)
  {
  }

  lemma PlaceIsFound(b: Block)
    ensures Locate(ConfigFor(b), TABLES, 4) == Ok(Place(3, Nxos, 100))
  {
    assert TABLES.vlans[0] == VLAN && TABLES.vpcs[0].id == 2;
    assert DevicesOf(TABLES.devices, 1) == {3};
    var d := TheOne({3});
    assert d in {3};
  }

  lemma RequestReachesPush(b: Block, gateway: Address)
    ensures Runs.ReachesPush(ConfigFor(b), WORLD, RequestFor(b, gateway), Smooth(b), 9)
  {
    PlaceIsFound(b);
    assert TABLES.vlans[0] in TABLES.vlans;
    assert Contains(b, b);
  }

  /** On this world a call leaks exactly if its pool cannot be computed or its gateway lies elsewhere. */
  lemma SmoothCallLeaksExactly(b: Block, gateway: Address)
    requires !Exempt(b)
    ensures Runs.Leaks(ConfigFor(b), WORLD, RequestFor(b, gateway), Smooth(b), 9)
            <==> Pools.AllocationRange(b, 10).Raised? || !In(gateway, b)
  {
    RequestReachesPush(b, gateway);
    PlaceIsFound(b);
    assert Cidr(b) in Smooth(b).after.routes;
    assert L3.Blocks([]) == [];
  }

  lemma CallSeparates(b: Block, gateway: Address)
    requires !Exempt(b) && (Pools.AllocationRange(b, 10).Raised? || !In(gateway, b))
    ensures Runs.Agrees(WORLD)
    ensures !Runs.Agrees(Create(ConfigFor(b), WORLD, RequestFor(b, gateway), NO_FLAGS, Smooth(b), 9).0)
  {
    WorldAgrees();
    SmoothCallLeaksExactly(b, gateway);
    Runs.AgreementKeptExactly(ConfigFor(b), WORLD, RequestFor(b, gateway), Smooth(b), 9);
  }

  /** 10.0.0.0/24 with the gateway 10.0.1.1: the switch gets an address of the next block. */
  lemma GatewayOutsideLeaks()
    ensures var b, gateway := Block(0x0A00_0000, 24), 0x0A00_0101;
            Runs.Agrees(WORLD)
            && !Runs.Agrees(Create(ConfigFor(b), WORLD, RequestFor(b, gateway), NO_FLAGS, Smooth(b), 9).0)
  {
    var b: Block := Block(0x0A00_0000, 24);
    Pools.Pow2Of8();
    assert Size(b) == 256 && First(b) == 0x0A00_0000;
    CallSeparates(b, 0x0A00_0101);
  }

  /** 10.0.0.0/29 has fewer addresses than the default reserve, which is found out after the push. */
  lemma SmallSubnetLeaks()
    ensures var b, gateway := Block(0x0A00_0000, 29), 0x0A00_0001;
            Runs.Agrees(WORLD)
            && !Runs.Agrees(Create(ConfigFor(b), WORLD, RequestFor(b, gateway), NO_FLAGS, Smooth(b), 9).0)
  {
    var b: Block := Block(0x0A00_0000, 29);
    assert Pow2(3) == 8;
    assert Size(b) == 8;
    CallSeparates(b, 0x0A00_0001);
  }
}
