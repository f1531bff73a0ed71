# Netforce: database and switches in step

Netforce keeps a database of how the network should be (bridge groups, VPCs, devices, ports, VLANs,
VLAN-port associations, subnets) and configures switches through vendor drivers so that they are that way.
This project models the parts where the two can drift apart and proves what the code keeps, and exactly when
it does not:

- **Subnets** (`Cidr`, `AddressPool`, `BubbleRoutes`, `L3Interface`, `SubnetAdmission`, `SubnetAnswers`,
  `SubnetRuns`, `SubnetLeaks`): `create_subnet` from the CIDR check to the allocation pool, with the drivers'
  subnet commands read by an interpreter of the switch's interface, the route checks on the bubble and the
  compensating delete.
- **Port flips** (`SwitchPort`, `JunosPort`, `NxosPort`, `PortFlip`, `PortFlipRuns`, `PortReferences`,
  `PortAgreement`, `PortDrifts`, `NxosAgreement`): `update_port` with its snapshot, database transaction, MAC
  check, push and rollback; the drivers' check-push-check template, for every driver; the Junos and the NXOS
  commands against interpreters of the port.
- **The store** (`Schema`, `Rows`, `NetforceDb`, `DatabaseSteps`, `VlanAdmission`, `Transaction`,
  `IntegrityRuns`): the tables with their keys, constraints and cascades, `create_vlan`, the guarded deletes,
  `delete_vlan` and the `transaction` decorator.
- **Parsers** (`Text`, `VlanRange`, `MacTable`): the three VLAN range expanders and the IOS MAC table scan.

Objects whose methods update them are classes: `NetforceDb.Session` is the open database session,
`L3Interface.Driver`, `SwitchPort.Switch` and `JunosPort.JunosSwitch` are devices, `SubnetPlugin`,
`PortPlugin`, `VlanPlugin` and `VlanTransaction` are the plugin's operations. Each of their methods is proved
equal to a function of the old state, and the results below are about those functions. An exception is a
value (`Raised`, or `Some(error)`). What the outside world does in a call (ping results, routes, lost
connections, failing commits, MAC tables) is a parameter, so every result holds for all of it.

Where `create_subnet` can separate the database from a switch, or `update_port` from a Junos or NXOS one, the
condition is exact: a predicate over what a caller could look at before the call and over those faults
(`SubnetRuns.Leaks`, `PortAgreement.Drifts`, `NxosAgreement.Drifts`), with concrete calls that meet it
(`SubnetLeaks`, `PortDrifts`). The deletion of a subnet and of a VLAN have such a condition too. Which row or
VLAN answers a request, and which exception ends it, is told by request and tables in `PortReferences`,
`SubnetAnswers` and `VlanAdmission`, without the scans that find it.

## What the code does differently from its description

- `_set_allocation_range` counts from the address as written. A CIDR with host bits gets a pool that leaves
  its block (`AddressPool.HostBitsLeakIntoNextBlock`); the size guard is one short of what the three parts
  need (`AddressPool.PoolPartitionsBlock`) and runs after the push (`SubnetLeaks.SmallSubnetLeaks`).
- A connection lost after a push took effect is never compensated, nor is a commit that fails; the gateway is
  never compared with the CIDR (`SubnetLeaks.GatewayOutsideLeaks`); the IOS `create_subnet` configures nothing
  and reports success; the EOS and NXOS delete command cannot remove a primary address; `delete_subnet` leaves
  the address on the switch, and so does `delete_vlan` those of the VLAN's subnets
  (`SubnetRuns.AgreementKeptExactly`, `L3Interface.CompensationExact`,
  `SubnetRuns.DeleteSubnetForgetsTheSwitch`, `SubnetRuns.DeletingVlanForgetsTheSwitch`).
- The check after a primary patch looks for the address, which was there before, so a patch the switch silently
  refused is reported and stored as done (`L3Interface.PatchExactly`, `SubnetAnswers.PatchCallExactly`).
- `compare_vlan_config` does not see members given by name (`SwitchPort.NamedMemberIsInvisible`), skips the
  comparison when all are (`SwitchPort.NoneAcceptsAnything`), and takes the set of characters of a textual
  access VLAN (`SwitchPort.TextFormAcceptsRepeatedDigits`), so no NXOS access flip to a tag of two digits or
  more returns, and each one pushed leaves the port flipped (`NxosPort.AccessUpdateExactly`). It looks for the
  first native VLAN, the pushes keep the last one, and `_validate_vlans` never counts beyond one, so several
  pass (`PortDrifts.TwoNativesDrift`, `NxosPort.TrunkUpdateExactly`).
- It compares tags as texts. A tag with a leading zero passes the validation and the NXOS tag check, which read
  it as a number, and is pushed; the switch shows the number without the zero, so the NXOS trunk update raises
  with the port flipped (`NxosPort.LeadingZeroStrandsTheFlip`).
- The rollback of a flip restores the database only. A Junos commit that took effect before the connection was
  lost, or a port that cannot be read again, leaves the switch flipped (`PortDrifts.LostConnectionDrifts`); NXOS
  has no transaction and keeps whatever commands were sent (`NxosPort.TrunkUpdateExactly`).
- A failed MAC check leaves the new associations although the switch was never touched
  (`PortDrifts.MacFailureDrifts`), and a rollback cannot empty an asset id or label that the failed request set
  (`PortDrifts.AssetIdSurvivesRollback`).
- A request with a mode and an empty VLAN list changes the stored mode and nothing else, neither associations
  nor switch (`PortAgreement.WithoutVlansExactly`); deleting a VLAN never asks the switch
  (`PortAgreement.DeletingVlanDriftsExactly`).
- The VLAN request with a VPC looks at VPC names only, so it can break the one-to-one relation of names and
  tags (`VlanAdmission.VpcPathBreaksOneToOne`); so can an update of a tag, and the rename of a VPC can give a
  group two VLANs of one VPC name (`IntegrityRuns.StepKeepsOneToOne`, `IntegrityRuns.StepKeepsOneVlanPerVpc`).
- The IOS interface name is abbreviated by two rewrites of which the first disables the second
  (`MacTable.TenGigabitNamesKeepTheirTen`), and the scan overwrites the vlan argument of the MAC lookup
  (`MacTable.GetMacAddresses`).

## Model

| member | source | states |
|---|---|---|
| Cidr.ContainsIsInclusion | netforce/services/netforce_plugin.py:787-792 | netaddr's containment test holds exactly when every address of the inner block is one of the outer block, host bits or not |
| Cidr.NestedOrDisjoint | netforce/services/netforce_plugin.py:774-785 | section 3.1 of RFC 4632: two blocks share an address if and only if one contains the other |
| Cidr.OverlapTestsExact | netforce/services/netforce_plugin.py:779-784 | the one-way containment in the shorter prefix, ipaddr's endpoint test and the comparison of first and last addresses all decide exactly whether the blocks share an address |
| Cidr.NetOfMember | netforce/services/netforce_plugin.py:1121-1123 | the gateway written with the subnet's prefix length denotes the subnet's block if and only if it lies in it |
| AddressPool.ReservedAddresses | netforce/services/netforce_plugin.py:802-808 | the loop yields the addresses after the network address, as many as reserved, or raises exactly when one would leave 32 bits |
| AddressPool.ReservedElements | netforce/services/netforce_plugin.py:802-808 | an address is reserved if and only if it is among the `count` addresses after the network address |
| AddressPool.AllocationExactly | netforce/services/netforce_plugin.py:1196-1214 | a block with fewer addresses than are reserved is refused, then a pool outside 32 bits; any other block gets a pool that starts after the reserved addresses and has as many as are left |
| AddressPool.PoolPartitionsBlock | netforce/services/netforce_plugin.py:1196-1214 | for a CIDR without host bits, network address, reserved addresses and pool hold every address of the block exactly once and no other one, if and only if the block is larger than the reserve count |
| AddressPool.PoolInsideBlock | netforce/services/netforce_plugin.py:1208-1209 | a pool lies inside its block if and only if it is empty or the CIDR was given without host bits |
| AddressPool.HostBitsLeakIntoNextBlock | netforce/services/netforce_plugin.py:1208-1209 | 10.0.0.5/24 hands out 10.0.1.4, an address of a disjoint block |
| AddressPool.GuardSuffices | netforce/services/netforce_plugin.py:1201-1205 | the size guard alone leaves every accepted block a usable address if and only if no block size equals the reserve count or one more |
| AddressPool.BlockSizesArePowers | netforce/services/netforce_plugin.py:1201-1205 | the block sizes are exactly the powers of two up to 2^32 |
| AddressPool.DefaultReserveIsSafe | netforce/services/netforce_plugin.py:1206-1209 | with the default reserve of 10 every accepted subnet has a non-empty pool |
| BubbleRoutes.CheckCidrOverlap | netforce/services/netforce_plugin.py:1076-1116 | "pre" returns if and only if every route is well formed and exempt or disjoint from the subnet, "post" if and only if the subnet itself is listed and not exempt; every exception is told by the first route in the way, or by the subnet not being listed |
| BubbleRoutes.PreAndPostExclude | netforce/services/netforce_plugin.py:1087-1116 | no routing table passes both checks, so passing "pre" then "post" proves that the table changed by the new subnet |
| BubbleRoutes.ExemptExactly | netforce/services/netforce_plugin.py:1087-1092 | two routes are ignored, the default one and 10.0.0.0/8: a table of these passes "pre" for every block, one with any other route that shares an address fails |
| BubbleRoutes.Candidates.PickPingable | netforce/services/netforce_plugin.py:976-987 | for every random choice it ends; the pings from the first one on failed, one each, at exactly the switches removed, and the ping after them went to the switch returned and was answered; for unchanging switches nothing is returned if and only if none is live |
| L3Interface.CheckOverlappingSubnets | napalm_baseebay/base_validator.py:58-68 | the scan returns the first listed block that the one-way test finds |
| L3Interface.FirstOverlapExact | napalm_baseebay/base_validator.py:58-68 | something is found if and only if a listed block shares an address with the new one, and it is the first such block in list order |
| L3Interface.Driver.PreChangeValidateSubnet | napalm_baseebay/base_validator.py:70-86 | the limit is checked before the overlap, each with its own exception |
| L3Interface.Driver.CreateSubnet | napalm_ebaynxos/nxos_ebay.py:400-420 | the driver's create (Junos: primary check first) has on the addressed interface the effect and the exception of `Created`, and none on another interface |
| L3Interface.Driver.SetSubnetPrimary | napalm_ebayjunos/junos_ebay.py:495-539 | patching marks the one requested address as primary, or raises one of the three refusals in the source's order |
| L3Interface.Driver.DeleteSubnet | napalm_ebayjunos/junos_ebay.py:456-466 | the delete command removes the block from the addressed interface only; EOS and NXOS as in their drivers |
| L3Interface.Driver.Send | napalm_ebaynxos/nxos_ebay.py:417-418 | the device state after sending is the interpretation of the command list, or unchanged if the push does not take effect |
| L3Interface.CreateRefusesExactly | napalm_baseebay/base_validator.py:58-86 | a create refuses a Junos interface without a primary address, a full interface, and a block that shares an address with one there, in this order and naming the first, and leaves the interface alone |
| L3Interface.CreateExactly | napalm_ebaynxos/nxos_ebay.py:400-420 | any other create adds the address at the end, as the primary one exactly on an interface without addresses; it returns if and only if the push takes effect on an interface that takes the address and no connection is lost |
| L3Interface.PushedAgain | napalm_ebaynxos/nxos_ebay.py:400-420 | configuring an address once more changes nothing |
| L3Interface.PatchExactly | napalm_ebayjunos/junos_ebay.py:495-539 | the three refusals, each with its exact condition on the interface; any other patch that takes effect keeps the addresses in order and leaves exactly the requested one primary; one silently refused is reported as success |
| L3Interface.DeleteExactly | napalm_ebaynxos/nxos_ebay.py:537-548 | a delete that takes effect leaves exactly the other addresses, and on EOS and NXOS the primary one too |
| L3Interface.CreateCommandsMean | napalm_ebayeos/eos_ebay.py:582-591 | interpreting the generated create commands, from any device state, adds the address to the addressed interface and changes nothing else |
| L3Interface.DeleteCommandsMean | napalm_ebayeos/eos_ebay.py:666-678 | the same for the generated delete commands |
| L3Interface.StepKeepsInterface | napalm_baseebay/base_validator.py:70-86 | every create or delete, whatever fails, keeps the limit and the disjointness of an interface, and on EOS and NXOS exactly one primary address |
| L3Interface.RunsKeepInterface | napalm_ebaynxos/nxos_ebay.py:400-420 | over every run from a bare EOS or NXOS interface: at most the configured number of subnets, pairwise without a common address, exactly one primary whenever there is any |
| L3Interface.BareJunosStaysBare | napalm_ebayjunos/junos_ebay.py:476-493 | a Junos interface without addresses never gets one from any run of creates and deletes |
| L3Interface.CompensationExact | napalm_ebaynxos/nxos_ebay.py:537-548 | deleting a block just pushed restores the interface if and only if the switch is a Junos one or the interface was not empty |
| SubnetAdmission.SubnetPlugin.GetOverlappingSubnet | netforce/services/netforce_plugin.py:774-785 | the database scan returns the first overlapping row |
| SubnetAdmission.RowScanIsBlockScan | netforce/services/netforce_plugin.py:774-785 | the database's overlap scan and the drivers' are the same scan |
| SubnetAdmission.OverlappingRowExact | netforce/services/netforce_plugin.py:774-785 | no overlapping row is found if and only if no stored block shares an address with the new one |
| SubnetAdmission.SubnetPlugin.ValidateSubnetPush | netforce/services/netforce_plugin.py:989-1037 | the validation returns if and only if the routes could be fetched and pass the check of its kind |
| SubnetAdmission.SubnetPlugin.FindPlace | netforce/services/netforce_plugin.py:886-902 | the VPC, device count and device type checks in order, and the one switch and interface of the VLAN |
| SubnetAdmission.SubnetPlugin.ConfigureOnDevice | netforce/services/netforce_plugin.py:1118-1168 | patches on Junos when asked to, otherwise creates, and changes one interface of one switch at most |
| SubnetAdmission.SubnetPlugin.DeleteOnDevice | netforce/services/netforce_plugin.py:1170-1194 | the compensating delete, whose failure the caller swallows |
| SubnetAdmission.SubnetPlugin.CreateSubnet | netforce/services/netforce_plugin.py:822-950 | the whole call, tables, switches and answer, equals `SubnetAdmission.Create` at every exit, the transaction restored on every exception |
| SubnetAdmission.SubnetPlugin.Provision | netforce/services/netforce_plugin.py:886-949 | the part from the VLAN's checks to the allocation pool, with its compensation |
| SubnetAnswers.StoredCidrExactly | netforce/services/netforce_plugin.py:838-855 | a request for a stored CIDR, under any flags, changes nothing: the first row with the CIDR answers it if gateway, VLAN and every common attribute agree, else the conflict is raised |
| SubnetAnswers.ConflictExactly | netforce/services/netforce_plugin.py:816-820 | the conflict is raised if and only if the call is enabled, the CIDR well formed and allowed, and the first stored row with it differs in gateway, VLAN or a common attribute |
| SubnetAnswers.AnswerIsTheRequestedSubnet | netforce/services/netforce_plugin.py:822-950 | whoever gets an answer gets a stored row with the CIDR, gateway and VLAN of the request and none of its attributes otherwise; it was stored before, or is made of the request |
| SubnetAnswers.RefusedExactly | netforce/services/netforce_plugin.py:823-871 | the exceptions before anything is stored, in their order and each with its exact condition: disabled, malformed, not allowed, reserve too small, the first overlapping row, a taken key, a missing VLAN |
| SubnetAnswers.PlaceExactly | netforce/services/netforce_plugin.py:886-902 | the place of a VLAN is the one device of its group, a top-of-rack switch, and the interface of its tag, if its VPC is allowed; every other case has its exception |
| SubnetAnswers.PlacelessExactly | netforce/services/netforce_plugin.py:886-902 | a VLAN without a place raises its exception before anything is pushed |
| SubnetAnswers.SkippedExactly | netforce/services/netforce_plugin.py:873-885 | without a device to configure the row is stored without a pool, if the transaction commits |
| SubnetAnswers.PushedExactly | netforce/services/netforce_plugin.py:903-950 | the exceptions from the first route check to the commit, in their order, by routes, interface, faults and block |
| SubnetAnswers.NetworkExactly | netforce/services/netforce_plugin.py:918-945 | the one interface a call changes, under any flags: as the operation leaves it, and with the compensating delete if and only if the routes after the push fail |
| SubnetAnswers.PatchCallExactly | netforce/services/netforce_plugin.py:1118-1168 | a request with the patch flag on a Junos switch asks no routes and leaves the interface with the same addresses and exactly the requested one primary, or as it was; its row is stored if and only if the patch returned, the pool can be computed and the transaction commits |
| SubnetRuns.StoredRow | netforce/services/netforce_plugin.py:822-950 | a call that changes the tables appended exactly one row made of the request: allowed, with a new CIDR text, without flags disjoint from every other row and with its pool |
| SubnetRuns.RunsStayDisjoint | netforce/services/netforce_plugin.py:856-871 | every state reached by requests without skip or patch flag and by deletes has pairwise disjoint blocks |
| SubnetRuns.RunsStayAllowedAndDistinct | netforce/services/netforce_plugin.py:787-792 | over every run, flags included, all blocks lie under the allowed one and no two rows share a CIDR text |
| SubnetRuns.ReplayChangesNothing | netforce/services/netforce_plugin.py:838-855 | replaying an answered request, under any flags and whatever the switches do, changes neither tables nor switches and gives the same row |
| SubnetRuns.RunsKeepPoolsInside | netforce/services/netforce_plugin.py:1196-1214 | over runs without flags whose CIDRs have no host bits, every pool lies inside its block |
| SubnetRuns.PoolsNeverCollide | netforce/services/netforce_plugin.py:1196-1214 | so pools of different stored subnets never share an address and lie inside the allowed block |
| SubnetRuns.AgreementKeptExactly | netforce/services/netforce_plugin.py:865-950 | if the blocks on every interface are those of the database, they are again after a call, returned or raised, if and only if the call does not leak: the leaks are named one by one by conditions on request, interface, faults and the commit |
| SubnetRuns.NewBlockNotInDatabase | netforce/services/netforce_plugin.py:863-871 | a request that passed the overlap check has a block no interface of the database has |
| SubnetRuns.RunsAgreeExactly | netforce/services/netforce_plugin.py:865-950 | they agree after every call of a run if and only if no call of it leaks in the state it meets |
| SubnetRuns.CarefulRunsAgree | netforce/services/netforce_plugin.py:865-950 | over every run on switches other than IOS ones, with gateways inside their blocks, room for the reserved addresses, interfaces that have an address, commits that succeed, no connection lost after a push took effect and no failing compensation, database and switches agree after each call |
| SubnetRuns.DeleteSubnetForgetsTheSwitch | netforce/db/netforce_db.py:521-524 | on an agreeing world with disjoint blocks the agreement survives the deletion of a subnet if and only if the id names no row whose VLAN has an interface |
| SubnetRuns.DeletingVlanForgetsTheSwitch | netforce/db/netforce_db.py:212-222 | on an agreeing world with disjoint blocks the agreement survives the deletion of a VLAN if and only if the VLAN has no subnet or no interface |
| SubnetLeaks.GatewayOutsideLeaks | netforce/services/netforce_plugin.py:1121-1123 | 10.0.0.0/24 with the gateway 10.0.1.1, on a smooth network: agreement before the call, none after it |
| SubnetLeaks.SmallSubnetLeaks | netforce/services/netforce_plugin.py:1201-1205 | 10.0.0.0/29, refused by the size guard after the push: agreement before the call, none after it |
| SubnetLeaks.SmoothCallLeaksExactly | netforce/services/netforce_plugin.py:865-950 | on that world a call for a block that is not one of the exempt routes leaks if and only if its pool cannot be computed or its gateway lies outside the block |
| VlanRange.ParseForValidator | napalm_baseebay/base_validator.py:166-181 | the loops compute the members' expansions in order, names skipped, or the first ValueError |
| VlanRange.ParseForPlugin | netforce/services/netforce_plugin.py:1274-1285 | the same for the plugin's integers, where a name is a ValueError |
| VlanRange.HyphenRange | napalm_ebayjunos/utils/string_parsers.py:68-90 | the same for one comma list, where a second hyphen is an exception |
| VlanRange.SecondHyphen | napalm_ebayjunos/utils/string_parsers.py:68-90 | a member with a second hyphen is a malformed range to `hyphen_range`, and read up to it by the plugin |
| VlanRange.ExpandersAgree | napalm_baseebay/base_validator.py:166-181 | on canonical members the validator, the plugin and hyphen_range of the comma-joined list yield the same sequence; only the empty list separates them |
| VlanRange.NumbersDenoteUnion | napalm_ebayjunos/utils/string_parsers.py:68-90 | that sequence denotes exactly the union of the members, and its length is the sum of their sizes |
| VlanRange.PlainMembersExpand | napalm_baseebay/base_validator.py:166-181 | of numerals and well-formed ranges the expansion is exactly the tags that the members denote, denotation being defined without the expander |
| VlanRange.NamesHaveNoTag | napalm_baseebay/base_validator.py:166-181 | members that denote tags only are all numerals or well-formed ranges |
| VlanRange.RenderedDenotes | napalm_baseebay/base_validator.py:166-181 | canonical members, ranges included, are such members and denote exactly the union of what they cover |
| Text.ParseDecimal | netforce/services/netforce_plugin.py:1284 | int undoes str |
| Text.SplitOfJoin | napalm_ebayjunos/utils/string_parsers.py:76 | splitting undoes joining, the empty list excepted |
| Text.OccursExactly | napalm_ebayios/ios_ebay.py:277-279 | a text is found in another if and only if the other is something, the text and something |
| Text.LowerExactly | napalm_ebayios/ios_ebay.py:274-281 | lower case replaces each of the letters A to Z by its small one and nothing else |
| SwitchPort.GetRequestedVlans | napalm_baseebay/base_validator.py:147-156 | the tags that are not empty, in order |
| SwitchPort.AcceptedMeansAgreement | napalm_baseebay/base_validator.py:120-145 | an accepted read-back has the requested mode and native VLAN; it carries exactly the requested VLANs if and only if every member is a numeral or a well-formed range and they denote any VLAN |
| SwitchPort.NoneAcceptsAnything | napalm_baseebay/base_validator.py:131-133 | a trunk showing "none" is accepted for a request with a further tag |
| SwitchPort.NamedMemberIsInvisible | napalm_baseebay/base_validator.py:166-181 | a trunk listing 10 and a VLAN by name is accepted for a request of 10 alone |
| SwitchPort.TextFormAcceptsRepeatedDigits | napalm_baseebay/base_validator.py:135-137 | an access VLAN read as a text is accepted if and only if the text is empty, or the tag has one digit and the text repeats it |
| SwitchPort.Switch.PreCheckUpdate | napalm_baseebay/base_validator.py:183-203 | mode, traffic, read-back, tag check and comparison in this order, each with its exception |
| SwitchPort.Switch.PostCheckUpdate | napalm_baseebay/base_validator.py:205-216 | reads again and raises unless the comparison accepts |
| SwitchPort.Switch.UpdateSwitchPortVlans | napalm_baseebay/base_ebay.py:24-62 | check, push, check again leave the device and outcome of `Update`, for every driver |
| SwitchPort.RefusedUpdates | napalm_baseebay/base_validator.py:183-203 | an unknown mode, a busy port, a failed read and a wrong VLAN raise in this order and leave the device alone, for every driver |
| SwitchPort.PushedUpdates | napalm_baseebay/base_validator.py:205-217 | after a push the second read and its comparison decide, each failure with its exception, and the device stays as pushed, for every driver |
| SwitchPort.CompareRaises | napalm_baseebay/base_validator.py:125-127 | the comparison fails if and only if a trunk member cannot be expanded |
| SwitchPort.FlipIsIdempotent | napalm_baseebay/base_ebay.py:52-62 | for every driver whose push leaves VLAN table and traffic alone and whose second read, if it succeeds, reports what the first would, repeating a flip that returned pushes nothing and leaves the device as it was |
| SwitchPort.ReturnedMeansAgreement | napalm_baseebay/base_ebay.py:52-62 | for every such driver, a flip that returned leaves a device with the requested mode and native VLAN, and with exactly the requested VLANs if and only if its members are numerals and ranges that denote any |
| JunosPort.ValidateVlanTags | napalm_ebayjunos/junos_ebay.py:158-180 | with a tag requested any suspended VLAN raises; otherwise it returns if and only if every tag exists |
| JunosPort.CheckTagsExactly | napalm_ebayjunos/junos_ebay.py:158-180 | a request that names a tag fails on a switch with any suspended VLAN, whichever; otherwise it passes if and only if the switch has every tag asked for |
| JunosPort.JunosSwitch.UpdateSwitchPortVlansOnDevice | napalm_ebayjunos/junos_ebay.py:188-240 | the command list of `Commands` is built and committed; a commit may be refused, or lost before or after it took effect |
| JunosPort.JunosSwitch.BuildCommands | napalm_ebayjunos/junos_ebay.py:202-238 | the access and trunk branches build the command list, or raise |
| JunosPort.CommandsExactly | napalm_ebayjunos/junos_ebay.py:188-240 | the flips without commands, each with its exception |
| JunosPort.AccessPushMeans | napalm_ebayjunos/junos_ebay.py:202-218 | from every readable state an access push gives a port with that one VLAN and no native one, the rest of the switch unchanged, and the comparison accepts it |
| JunosPort.TrunkPushMeans | napalm_ebayjunos/junos_ebay.py:219-240 | from every state a trunk push reads back with exactly the requested tags, and the comparison accepts it if and only if the first and the last VLAN marked native carry the same tag |
| JunosPort.SingleNative | napalm_baseebay/base_validator.py:158-164 | with one VLAN marked native first and last are that one |
| JunosPort.UpdateExactly | napalm_baseebay/base_ebay.py:52-62 | every exit of a Junos update: the switch has the commands' port exactly if the push applies, and then the update returns exactly if the commit reported success, the second read succeeds and first and last native tag agree; otherwise the switch is as before |
| JunosPort.RaisedLeavesSwitchExactly | napalm_ebayjunos/junos_ebay.py:188-240 | an update that raised has left the switch as it was if and only if it did not apply or the port was already the one its commands make |
| JunosPort.LostConnectionStrandsTheFlip | napalm_ebayjunos/junos_ebay.py:238-240 | a connection lost after the commit, and a port that cannot be read again, both raise with the port flipped |
| JunosPort.TargetIsRegular | napalm_ebayjunos/junos_ebay.py:202-238 | the port the commands make carries exactly the requested VLANs |
| JunosPort.AddedOnce | napalm_ebayjunos/junos_ebay.py:224-240 | the push lists a member that is there already once |
| JunosPort.UnreadPushExactly | napalm_ebayjunos/junos_ebay.py:188-240 | on a port that cannot be read an access push ends by that exception; a trunk push does not read and fails only on a port that is not there |
| JunosPort.CanonicalIsRegular | napalm_ebayjunos/junos_ebay.py:120-143 | trunk ports listing canonical numbers and ranges are among the ports the agreement is about |
| JunosPort.JunosPushLeavesTheRestAlone | napalm_ebayjunos/junos_ebay.py:188-240 | the Junos driver meets the conditions of idempotence |
| JunosPort.JunosReadsAreWellShaped | napalm_ebayjunos/junos_ebay.py:120-143 | every Junos read-back has the list form that the comparison needs |
| NxosPort.BuildTrunkCommands | napalm_ebaynxos/nxos_ebay.py:252-272 | the trunk branch builds the list with the native command only if the native VLAN differs |
| NxosPort.BuildCommands | napalm_ebaynxos/nxos_ebay.py:231-272 | both branches build the command list, or raise |
| NxosPort.CommandsExactly | napalm_ebaynxos/nxos_ebay.py:231-272 | the flips without commands, each with its exception |
| NxosPort.ValidateVlanTags | napalm_ebaynxos/nxos_ebay.py:219-229 | the loop stops at the first requested VLAN that is missing or suspended |
| NxosPort.CheckTagsExactly | napalm_ebaynxos/nxos_ebay.py:219-229 | it passes if and only if every requested VLAN exists and is not suspended, other VLANs of the switch notwithstanding |
| NxosPort.FirstBadTag | napalm_ebaynxos/nxos_ebay.py:219-229 | the first VLAN asked for that is missing or suspended decides the exception |
| NxosPort.ConditionalNativeIsAlwaysNative | napalm_ebaynxos/nxos_ebay.py:263-268 | for every request by numbers, setting the native VLAN only if its text differs reaches the same port state as always setting it |
| NxosPort.TrunkCommandsMean | napalm_ebaynxos/nxos_ebay.py:252-272 | from every prior port, for every request by numbers and however the switch renders its allowed VLANs, the port reads back with exactly the requested VLANs, and is accepted if and only if no tag text has leading zeros and first and last native tag agree |
| NxosPort.UpdateExactly | napalm_baseebay/base_ebay.py:52-62 | every exit of a whole NXOS update for every request by numbers: one that needs a push and has commands leaves the port its commands make, or those sent before a lost connection, and returns if and only if all were sent, the port can be read again and the comparison accepts it; any other one changes nothing and returns if and only if the port was accepted as it was |
| NxosPort.TrunkUpdateExactly | napalm_baseebay/base_ebay.py:52-62 | for a trunk: one pushed without loss has exactly the requested VLANs and the last native one, and the update returns if and only if moreover the port can be read again, no tag text has leading zeros, and the first native tag is the last |
| NxosPort.AccessUpdateExactly | napalm_baseebay/base_ebay.py:52-62 | for an access port, from every prior port and over every connection: one pushed without loss has the requested VLAN, and the update returns if and only if moreover the tag has one digit and the port can be read again |
| NxosPort.LostAccessExactly | napalm_ebaynxos/nxos_ebay.py:231-251 | the port after an access push that lost the connection after any number of commands |
| NxosPort.LostTrunkExactly | napalm_ebaynxos/nxos_ebay.py:252-272 | the port after a trunk push that lost the connection after any number of commands |
| NxosPort.MissingPort | napalm_ebaynxos/nxos_ebay.py:231-272 | a push to a port that is not there raises |
| NxosPort.PreCheckExactly | napalm_baseebay/base_validator.py:183-203 | a failed read, an unknown interface and the VLANs of the switch raise in this order; then a push is needed if and only if the port is not in place: a trunk with the first native VLAN that allows none or exactly the VLANs asked for without leading zeros, or an access port whose characters are the tags |
| NxosPort.AccessInPlace | napalm_baseebay/base_validator.py:135-137 | an access port is taken to have one VLAN if and only if the VLAN it shows repeats that one digit |
| NxosPort.LeadingZeroStrandsTheFlip | napalm_baseebay/base_validator.py:120-145 | a trunk flip to VLAN 010 over a connection without fault raises and leaves the port flipped to VLAN 10 |
| PortFlip.Resolve | netforce/db/netforce_db.py:292-306 | the VLAN a reference names is a stored one, and has the tag if a tag was given |
| PortReferences.VpcReferenceExactly | netforce/db/netforce_db.py:300-306 | a reference by VPC name stands for the first VLAN of that VPC in the port's group; one without a VPC before it raises; nothing is found if and only if all VLANs of the group are of other VPCs |
| PortReferences.TagReferenceExactly | netforce/db/netforce_db.py:292-298 | a reference by tag stands for the first VLAN of the port's group with the number; nothing is found if and only if there is none |
| PortReferences.OtherReferencesExactly | netforce/services/netforce_plugin.py:434-466 | a reference by id stands for the VLAN with the id in whatever group; a port without a bridge group, and a reference that names nothing, raise |
| PortReferences.ResolveExactly | netforce/services/netforce_plugin.py:424-466 | a reference is resolved to a VLAN if and only if it stands for it |
| PortReferences.RewrittenExactly | netforce/services/netforce_plugin.py:436-463 | the payload names every VLAN by tag afterwards, the tag given or the stored one in place of id or VPC name |
| PortReferences.FlipDoesItsReferences | netforce/services/netforce_plugin.py:412-472 | a committed flip has one row per reference, in order, for the VLAN it stands for and with its native flag, and the driver is given the tag as written or else the stored one, and the mode of the text |
| PortReferences.ReturnedStoresItsVpcs | netforce/services/netforce_plugin.py:534-659 | after a call that returned the row of a reference by VPC name is that of a VLAN of this VPC in the port's group |
| PortReferences.EarlyAnswersExactly | netforce/services/netforce_plugin.py:544-637 | every exception up to the commit, in its order and with its exact condition on request, tables and outside world; nothing has changed anywhere |
| PortReferences.LateAnswersExactly | netforce/services/netforce_plugin.py:638-659 | every exception after the commit, from the MAC check to the driver's own, with its exact condition |
| PortFlip.PortPlugin.UpdateVlanAssociation | netforce/services/netforce_plugin.py:412-470 | flushes the port's associations, stores one per reference and rewrites the payload in place to tags |
| PortFlip.PortPlugin.Rollback | netforce/services/netforce_plugin.py:381-394 | puts the snapshot's associations and columns back, whatever the port's rows are by then |
| PortFlip.PortPlugin.ValidateMacAddress | netforce/services/netforce_plugin.py:563-590 | the native VLAN is that of the first native association, and the check fails for a missing one, an unreadable table or an absent address |
| PortFlip.PortPlugin.Transact | netforce/services/netforce_plugin.py:592-648 | the transaction commits row and associations together, and leaves the tables as they were on every exception |
| PortFlip.PortPlugin.PushToDevice | netforce/services/netforce_plugin.py:334-378 | the push with its rollback, at every exit |
| PortFlip.PortPlugin.UpdatePort | netforce/services/netforce_plugin.py:534-659 | the whole call, tables, switch and exception, equals `PortFlip.Update` at every exit |
| PortFlip.SnapshotIsRestorable | netforce/services/netforce_view.py:64-92 | putting the snapshot's associations back never violates a constraint |
| PortFlipRuns.ColumnsRestoredExactly | netforce/services/netforce_view.py:64-92 | snapshot, update and rollback give the old columns if and only if asset id and label were not empty before, or not changed by the request |
| PortFlipRuns.RollbackRestores | netforce/services/netforce_plugin.py:334-394 | a flip that fails on the switch leaves the associations of every port and every other table as before, and the port's columns if and only if they are restorable |
| PortFlipRuns.EarlyFailures | netforce/services/netforce_plugin.py:592-659 | the request and the MAC table decide before the switch is asked: what does not commit changes nothing anywhere; what has no VLANs changes the row only; what cannot pass the MAC check keeps the new rows with the switch untouched; anything else is pushed |
| PortFlipRuns.CommittedExactly | netforce/services/netforce_plugin.py:592-648 | the transaction commits if and only if every reference names a VLAN, no two the same, and no push inside it fails; then with one row per reference |
| PortFlipRuns.MacStepExactly | netforce/services/netforce_plugin.py:578-590 | the MAC check on the committed rows fails if and only if the request's first native tag is missing or 0, the table cannot be read, or it has addresses but not this one |
| PortFlipRuns.LoopStoresRequest | netforce/services/netforce_plugin.py:425-470 | the loop returns if and only if every reference, by tag, id or VPC, names a VLAN and no two the same; then it has stored one association per reference with its native flag, and rewritten each to a tag |
| PortFlipRuns.CommitStoresRequest | netforce/services/netforce_plugin.py:412-470 | the stored tags and native tags are exactly those given to the driver |
| PortFlipRuns.ReturnedFlipAgrees | netforce/services/netforce_plugin.py:534-659 | when a flip returns, pushed or not, for every driver with list-form read-backs: database and read-back agree on the mode, on a single native tag, and the port carries exactly the stored tags if and only if its members are numerals and ranges that denote any |
| PortFlipRuns.UpdateKeepsSound | netforce/services/netforce_plugin.py:534-659 | every update, however it ends, keeps references, unique pairs and keys |
| PortFlipRuns.RunsStaySound | netforce/services/netforce_plugin.py:534-659 | so does every run of updates, which therefore always meets what `UpdatePort` demands |
| PortAgreement.ReturnedIsInStep | netforce/services/netforce_plugin.py:534-659 | a flip of a Junos port that returned leaves it in step whatever was stored before, if and only if the native tags it asks for are not split, and it was pushed or the port listed numbers and ranges only (was regular) before |
| PortAgreement.DriftsExactly | netforce/services/netforce_plugin.py:534-659 | a call on a port in step, returned or raised, keeps it in step if and only if it does not drift: the drifts are named by conditions on request, stored rows, port, MAC table and connection |
| PortAgreement.JunosFlipIsAllOrNothing | netforce/services/netforce_plugin.py:334-378 | a call, returned or raised, has changed the switch if and only if its flip reaches it: committed, MAC check passed, needed, sendable, commit taking effect, and the port not already so |
| PortAgreement.DeletingVlanDriftsExactly | netforce/db/netforce_db.py:212-222 | deleting a VLAN, which never asks the switch, keeps a port in step if and only if each of its associations with the VLAN has a twin of the same tag |
| PortAgreement.WithoutVlansExactly | netforce/services/netforce_plugin.py:171-218 | an update without VLANs keeps its port in step if and only if it does not change the mode |
| PortAgreement.UpdateKeepsOther | netforce/services/netforce_plugin.py:381-394 | whatever happens, row and associations of every other port are as before |
| PortAgreement.UpdateTouchesOnePort | napalm_ebayjunos/junos_ebay.py:188-240 | whatever happens, every other port of the switch is as before |
| PortAgreement.CallKeepsAllInStep | netforce/services/netforce_plugin.py:534-659 | a call keeps all ports of a Junos switch in step if and only if it does not drift |
| PortAgreement.RunsStayInStep | netforce/services/netforce_plugin.py:534-659 | all ports are in step after every call of a run if and only if no call of it drifts in the state it meets |
| PortAgreement.CarefulRunsStayInStep | netforce/services/netforce_plugin.py:534-659 | so they are over every run of calls with at most one native VLAN, a mode only together with VLANs, no MAC address to check and no connection lost after the commit |
| PortDrifts.MacFailureDrifts | netforce/services/netforce_plugin.py:563-590 | a flip with a MAC address on a switch whose table cannot be read: in step before, not after |
| PortDrifts.LostConnectionDrifts | netforce/services/netforce_plugin.py:360-378 | a connection lost after the commit, or before the second read: in step before, not after the rollback |
| PortDrifts.TwoNativesDrift | netforce/services/netforce_plugin.py:183-215 | a trunk flip with two native VLANs, which validation lets through: in step before, not after the rollback |
| PortDrifts.AssetIdSurvivesRollback | netforce/services/netforce_view.py:86-90 | a flip that sets the asset id of a port without one, on an unreachable switch: the row keeps it |
| NxosAgreement.DriftsExactly | netforce/services/netforce_plugin.py:534-659 | a call on an NXOS port in step, returned or raised, keeps it in step if and only if it does not drift: among the drifts, a push not confirmed whose sent commands changed anything the port makes use of, and an access port found in place that shows two digits or more |
| NxosAgreement.ReturnedIsInStep | netforce/services/netforce_plugin.py:534-659 | an NXOS access flip returns for one-digit tags only; a flip that returned leaves its port in step whatever was stored before, if and only if its native tags are not split, and it was pushed or the port found in place shows one digit or allows some VLAN |
| JunosPort.UpdateFrame | napalm_ebayjunos/junos_ebay.py:188-240 | an update changes one port of the switch at most, and leaves a regular port regular |
| NetforceDb.Session.RemoveVlan | netforce/db/netforce_db.py:212-222 | the loop that deletes the VLAN's associations one by one, then the VLAN, equals one filtering of the tables; its subnets lose their VLAN |
| Schema.FirstNamed | netforce/db/netforce_db.py:391-393 | a lookup by name finds the first row with it |
| Schema.VpcNameExactly | netforce/db/netforce_db.py:300-306 | the VPC name of a VLAN is that of the VPC it refers to |
| NetforceDb.WithoutAllOfVlan | netforce/db/netforce_db.py:217-220 | removing the listed associations of a VLAN leaves exactly those of other VLANs |
| NetforceDb.Session.RemoveDevice | netforce/db/netforce_db.py:85-92 | the cascade to the device's ports and their associations |
| NetforceDb.Session.RemovePort | netforce/db/netforce_db.py:194-207 | refused while the port has associations |
| NetforceDb.Session.RemoveVpc | netforce/db/netforce_db.py:359-368 | refused while a VLAN belongs to the VPC |
| NetforceDb.Session.RemoveBridgeGroup | netforce/db/netforce_db.py:412-427 | refused while the group has VLANs, then while it has devices |
| NetforceDb.Session.AddAssociation | netforce/db/netforce_db.py:308-326 | appends the row, or is refused by the unique pair or a foreign key |
| NetforceDb.Session.AddVlan | netforce/db/netforce_db.py:224-241 | appends the row, or is refused by its key, the unique pair of VPC and bridge group or a foreign key |
| NetforceDb.Session.SetVlan | netforce/db/netforce_db.py:243-249 | overwrites the given columns of one VLAN |
| NetforceDb.Session.SetVpcName | netforce/db/netforce_db.py:400-406 | renames one VPC |
| NetforceDb.Session.SetPortColumns | netforce/db/netforce_db.py:186-192 | overwrites the given columns of one port |
| NetforceDb.Session.RemoveAssociationsOfPort | netforce/db/netforce_db.py:429-432 | removes the associations of one port |
| NetforceDb.Session.AddSubnet | netforce/db/netforce_db.py:480-493 | appends the row, or is refused by its key or a missing VLAN |
| NetforceDb.FilterKeepsUnique | netforce/db/netforce_model.py:74-77 | deleting rows keeps port and VLAN pairs unique |
| DatabaseSteps.DeletePortExactly | netforce/db/netforce_db.py:194-207 | a port goes, and nothing else, unless an association names it |
| DatabaseSteps.DeleteDeviceExactly | netforce/db/netforce_db.py:85-92 | a device goes with its ports and their associations; every other row stays as often as it is stored |
| DatabaseSteps.DeleteVlanExactly | netforce/db/netforce_db.py:212-222 | a VLAN goes with its associations, its subnets lose it, and every other row stays as often as it is stored |
| DatabaseSteps.DeleteVpcExactly | netforce/db/netforce_db.py:359-368 | a VPC goes, and nothing else, unless a VLAN has it |
| DatabaseSteps.DeleteBridgeGroupExactly | netforce/db/netforce_db.py:412-427 | a bridge group goes, and nothing else, unless it has VLANs or else devices |
| DatabaseSteps.RowsGoExactly | netforce/db/netforce_db.py:429-432 | flushing a port takes exactly its associations, deleting a subnet exactly its row |
| DatabaseSteps.CreateNamedExactly | netforce/db/netforce_db.py:439-452 | bridge groups need a free key and name, VPCs a free key |
| DatabaseSteps.CreateHardwareExactly | netforce/db/netforce_db.py:147-158 | devices and ports need a free key and the row they belong to |
| DatabaseSteps.CreateVlanExactly | netforce/db/netforce_db.py:224-241 | a VLAN needs a free key, a VPC its group has no VLAN of, and both rows |
| DatabaseSteps.CreateRowsExactly | netforce/db/netforce_db.py:308-326 | an association needs a free pair and both its rows, a subnet a free key and its VLAN |
| DatabaseSteps.UpdateVlanExactly | netforce/db/netforce_db.py:243-249 | an update overwrites the columns given of the VLAN with the key and leaves all others, and every other row |
| DatabaseSteps.UpdateOthersExactly | netforce/db/netforce_db.py:186-192 | the same of a port's columns, a VPC's name and a subnet's pool |
| IntegrityRuns.StepKeepsIntegrity | netforce/db/netforce_model.py:99-157 | every operation keeps all foreign keys pointing at rows |
| IntegrityRuns.RunsHaveNoDanglingReferences | netforce/db/netforce_db.py:194-222 | over every run of creates, updates, guarded deletes, the association loop and the cascade no reference dangles |
| IntegrityRuns.RunsKeepPairsUnique | netforce/db/netforce_model.py:74-77 | over every run no port and VLAN pair is stored twice |
| IntegrityRuns.DeleteVlanRemovesExactlyItsAssociations | netforce/db/netforce_db.py:212-222 | the removed associations are exactly those of the VLAN, and ports, devices, groups and VPCs are untouched |
| IntegrityRuns.StepKeepsKeys | netforce/db/netforce_model.py:83-99 | every operation keeps primary keys identifying rows |
| IntegrityRuns.StepKeepsOneVlanPerVpc | netforce/db/netforce_db.py:400-406 | an operation keeps one VLAN per bridge group and VPC name if and only if it is no rename of a VPC to a name that another VPC has in a shared group |
| IntegrityRuns.RunsKeepOneVlanPerVpc | netforce/services/netforce_plugin.py:661-672 | over every run from the empty database whose renames are of that harmless kind, a bridge group has at most one VLAN per VPC name |
| IntegrityRuns.StepKeepsOneToOne | netforce/services/netforce_plugin.py:674-697 | an operation keeps names and tags one-to-one if and only if it is neither a VLAN request for a VPC nor an update of a VLAN that half matches another VLAN of the group |
| IntegrityRuns.PatchKeepsOneToOneExactly | netforce/db/netforce_db.py:243-249 | an update of name or tag keeps them one-to-one if and only if the updated row half matches no other VLAN of its group |
| IntegrityRuns.RunsStayOneToOne | netforce/services/netforce_plugin.py:674-697 | over every run whose operations are harmless in the state they meet, names and tags stay one-to-one in each bridge group |
| IntegrityRuns.RunsWithoutVpcsStayOneToOne | netforce/services/netforce_plugin.py:674-697 | in particular over every run whose VLAN requests name no VPC and whose updates change no name or tag |
| VlanAdmission.VlanPlugin.CheckDuplicates | netforce/services/netforce_plugin.py:674-697 | the scan's verdict: an existing VLAN, a conflict, or new |
| VlanAdmission.VlanPlugin.FindVlanByVpcAndGroup | netforce/services/netforce_plugin.py:661-672 | the first VLAN of the group whose VPC has the name |
| VlanAdmission.VlanPlugin.CreateVlan | netforce/services/netforce_plugin.py:705-737 | the whole call equals `Create`, tables unchanged on every exception |
| VlanAdmission.VerdictMeaning | netforce/services/netforce_plugin.py:674-697 | new if and only if no VLAN matches in name or tag; existing and conflict are backed by a full and a half match |
| VlanAdmission.VerdictExactly | netforce/services/netforce_plugin.py:674-697 | the first VLAN with the name or the tag decides: the answer if it has both, else a conflict; new if none has either |
| VlanAdmission.InadmissibleExactly | netforce/services/netforce_plugin.py:705-719 | the exceptions before the scans, in their order and with their exact conditions |
| VlanAdmission.PlainRequestExactly | netforce/services/netforce_plugin.py:732-737 | a request without a VPC: answered by the first VLAN with the name or the tag if it has both, a conflict if it has one; with none the row is stored unless its key is taken |
| VlanAdmission.PlainPathStoresExactly | netforce/services/netforce_plugin.py:674-697 | without a VPC a row is stored if and only if the call is enabled, the group exists and has devices, none of its VLANs has the name or the tag, and the key is free |
| VlanAdmission.VpcRequestExactly | netforce/services/netforce_plugin.py:720-737 | a request for a VPC: raised if there is no such VPC, answered by the first VLAN of the group that has it, stored with its key otherwise |
| VlanAdmission.AnswerIsTheRequestedVlan | netforce/services/netforce_plugin.py:705-737 | the VLAN answered is stored, in the requested group, with the requested VPC name or the requested name and tag |
| VlanAdmission.StoredRow | netforce/services/netforce_plugin.py:733-737 | a call that changes the tables appends one row made of the request, beside no VLAN of the same VPC name, or none that half matches |
| VlanAdmission.ChecksPreemptConstraints | netforce/db/netforce_model.py:88-92 | the plugin's checks leave the database only a taken primary key to refuse |
| VlanAdmission.CreateKeepsOneVlanPerVpc | netforce/services/netforce_plugin.py:661-672 | every request keeps at most one VLAN per bridge group and VPC name |
| VlanAdmission.CreateKeepsOneToOneExactly | netforce/services/netforce_plugin.py:674-697 | a request breaks the one-to-one relation of names and tags if and only if it names a VPC, passes the guards of the VPC path, and half matches a VLAN of the group |
| VlanAdmission.VpcPathStoresExactly | netforce/services/netforce_plugin.py:711-737 | a request for a VPC stores a row if and only if the call is enabled, group and VPC exist, the group has devices and no VLAN of that VPC name, and the key is free |
| VlanAdmission.VpcPathBreaksOneToOne | netforce/services/netforce_plugin.py:720-731 | a request for a VPC that breaks it |
| VlanAdmission.ScanOrderIrrelevantExactly | netforce/services/netforce_plugin.py:674-697 | the verdict's kind is the same for every order of the VLANs if and only if the group does not hold both a full and a half match |
| VlanAdmission.OneToOneMakesOrderIrrelevant | netforce/services/netforce_plugin.py:674-697 | while names and tags are one-to-one the order never matters |
| Transaction.VlanTransaction.Conclude | netforce/services/transaction_manager.py:35-107 | the wrapper's branches on the VLAN table |
| Transaction.ConcludedExactly | netforce/services/transaction_manager.py:35-107 | which VLANs stay, with which status and note and every other column as before, which are deleted, and what is answered |
| Transaction.NotConcluded | netforce/services/transaction_manager.py:35-107 | another exception goes through, an unknown method name is passed over, and a resource without a row raises; nothing changes |
| Transaction.TablesFollowTheMachine | netforce/services/transaction_manager.py:35-107 | what the wrapper does to the VLAN table is, VLAN by VLAN, what the status machine says |
| Transaction.StatusMachine | netforce/services/transaction_manager.py:35-107 | of the decorated VLAN table: create ends ACTIVE or absent, update ACTIVE or ERROR, delete absent or ERROR; the inner exception is raised exactly on a push failure; no other VLAN changes its status |
| Transaction.PendingLeftExactly | netforce/services/transaction_manager.py:87-107 | a row stays in PENDING_DELETE if and only if the wrapped method put it there and ended by another exception, or has a name the decorator does not recognise |
| Transaction.RunsLeaveNothingPending | netforce/services/transaction_manager.py:35-107 | over every run of calls ending by a payload or a push failure nothing stays in PENDING_DELETE |
| Transaction.LastCallDecides | netforce/services/transaction_manager.py:35-107 | over every such run the last call on a resource alone decides whether its row exists and its status |
| Transaction.VlanTransaction.MarkAndUnconfigure | netforce/services/netforce_plugin.py:747-763 | the wrapped body: marks the VLAN, then ends by its payload or a push failure |
| Transaction.MarkedExactly | netforce/services/netforce_plugin.py:747-763 | the wrapped body changes the status of the VLAN to PENDING_DELETE and nothing else, and ends by its id or the device's failure |
| Transaction.VlanTransaction.DeleteVlan | netforce/services/netforce_plugin.py:747-763 | the body under the wrapper: the VLAN is gone with its associations, or marked ERROR with everything else as before, or did not exist |
| Transaction.PendingLeavesNoTrace | netforce/services/netforce_plugin.py:750-757 | the intermediate PENDING_DELETE shows in neither outcome |
| MacTable.AppendPorts | napalm_ebayios/ios_ebay.py:343-350 | the inner loop appends one entry per port, or raises if one fails |
| MacTable.ScanLine | napalm_ebayios/ios_ebay.py:307-393 | one line appends its entries and sets the fill-down variables if it is a comma row |
| MacTable.Scan | napalm_ebayios/ios_ebay.py:306-393 | the single pass with the fill-down variables computes the in-order concatenation of the lines' expansions, or raises |
| MacTable.TableLayout | napalm_ebayios/ios_ebay.py:306-393 | the entries of every line stand at consecutive places, one per port, made of the line's own fields or of the nearest earlier comma row's |
| MacTable.TableLength | napalm_ebayios/ios_ebay.py:306-393 | and nothing else is in the table |
| MacTable.InheritedIsNearest | napalm_ebayios/ios_ebay.py:343-346 | the fill-down fields at a line are those of the nearest earlier comma row, blank if there is none |
| MacTable.TableRaises | napalm_ebayios/ios_ebay.py:306-393 | the scan raises if and only if the expansion of some line does |
| MacTable.ExpansionRaises | napalm_ebayios/ios_ebay.py:272-295 | a line's expansion raises if and only if the line is unexpected or one of its ports makes no entry |
| MacTable.EntryExactly | napalm_ebayios/ios_ebay.py:272-295 | an entry has the row's address, the number of its vlan text or 0 for the "all" of a static row, the port or no interface for a static row on the switch itself, and its kind by the type text; it fails if and only if the vlan text is neither |
| MacTable.LinesTellTheirFields | napalm_ebayios/ios_ebay.py:306-393 | the ports and fields of every kind of line: its own, or those of the nearest earlier row with a comma list |
| MacTable.LookupRaises | napalm_ebayios/ios_ebay.py:272-295 | the lookup raises if and only if a line is unexpected, or lists a port and its vlan text is neither a number nor such an "all" |
| MacTable.FirstEntryIsFirstShown | napalm_ebayios/ios_ebay.py:394-416 | the first entry of an interface is that of the first line and port shown as it, in the order of lines and ports |
| MacTable.GetMacAddresses | napalm_ebayios/ios_ebay.py:394-416 | the answer is the address and the VLAN number of the line that shows the abbreviated interface first, and nothing else; none if no line shows it; the vlan argument never selects an entry |
| MacTable.TenGigabitNamesKeepTheirTen | napalm_ebayios/ios_ebay.py:395-396 | a TenGigabitEthernet name becomes TenGi, never the Ti of the second rewrite |

## Left out

- Texts: a CIDR is its value and prefix length, so two spellings of one CIDR, IPv6 and netaddr's other notations are not modelled; `int` accepts plain numerals only, without sign, blanks or underscores.
- SubnetRuns.AgreementKeptExactly: is about calls without the skip and patch flags; with them the database and the switch are meant to differ, and only the results that say "flags included" apply.
- SubnetAdmission.Request: columns other than CIDR, gateway, VLAN and pool are one map, compared as `_check_subnet_mismatch` does.
- PortFlip.Update: a VLAN named twice in one flip is an exception, as the unique constraint has it; what the ORM session does after the swallowed duplicate error is not modelled.
- PortFlip.PortPlugin.UpdateVlanAssociation: says nothing about the tables after an exception, since the transaction around it restores them.
- PortFlip.Environment: enabling or disabling a port and the label push are outcomes of the environment, not device changes; the MAC check before them is part of that outcome.
- PortFlipRuns.RollbackRestores: row ids, audit columns and the order of the association table are not restored by the code either, so it speaks of each port's rows in order and of the table as a multiset; a rollback whose own transaction fails is not modelled.
- PortFlipRuns.ReturnedFlipAgrees: is for read-backs in list form; the EOS and NXOS access read-back and the EOS trunk read-back are texts and miss the condition.
- PortAgreement.DriftsExactly: is about ports whose members are numerals and ranges that denote some VLAN, a single one on an access port, with a numeric native VLAN; a port that lists VLANs by name is never in step.
- JunosPort and NxosPort: what a vendor command does to a port or interface is the interpreter's reading of it; the optional traffic check passes, and the mode NXOS shows is the configured one.
- NxosAgreement.DriftsExactly: is about one call; runs and the other ports of the switch are followed on Junos (`PortAgreement.RunsStayInStep`).
- JunosPort: member texts are kept and shown as the commands gave them, leading zeros included.
- EOS and IOS: their port commands are not modelled.
- L3Interface: the Junos irb unit is taken to be the VLAN tag; the text parsing of interface addresses is not modelled, and on EOS neither is its failure on an interface without addresses.
- VlanAdmission: the database lists a group's VLANs by tag, the model in stored order; `ScanOrderIrrelevantExactly` says when that matters.
- PortFlip.Resolve: lists them in stored order too; a reference by VPC name raises at the first VLAN without a VPC and returns at the first with that name, so which of the two comes first depends on the order.
- NetforceDb: creating bridge groups, VPCs, devices and ports are functions of the tables without a session method; unique device names, management addresses and asset ids are not modelled.
- Transaction: the decorator is modelled on VLANs, the one resource it is used for; a resource without update, delete or view method is not modelled.
- NetforceDb.Session.SetVlan: an update that gives a VLAN another key, which the API admits, or another bridge group or VPC, which it does not, is not modelled; nor is what an update of a tag means for the agreement with a switch.
- MacTable: lines arrive classified and cut into tokens; the regular expressions, the MAC address normalisation and Cat6500 rows of more than seven tokens (which reuse the previous row's variables) are not modelled.
- Bubble, VRF and device type tables, ticketroute, UDNS, tickets, the optional traffic check's arithmetic, credentials and driver lookup, the HTTP layer, locks, migrations and the command line are outside the model.
- Concurrent requests: one call runs at a time.
