/**
 The addresses on a VLAN's layer-3 interface and the drivers' subnet operations: the commands they
 generate, what those mean to the device, and the checks around them.
 */
module L3Interface {
  import opened Prelude
  import opened Cidr
  import opened Interpreter
  import opened Rows
  import opened Schema

  datatype Entry = Entry(block: Block, primary: bool)

  /** The addresses of one interface, in configuration order. */
  type Interface = seq<Entry>

  datatype Error =
    | EntityDoesNotExist
    | NoPrimarySubnet
    | MaxSubnetsConfigured
    | SubnetAlreadyConfigured(existing: Block)
    | PatchingNotSupported
    | RequestedPrimaryConflicts
    | PrimarySubnetExists
    | PostChangeValidation
    | ConnectionLost

  // ----- the device: an interpreter for the generated commands

  datatype Command =
    | ConfigureTerminal
    | InterfaceVlan(tag: int)
    | IpAddress(block: Block, secondary: bool)
    | NoIpAddressSecondary(block: Block)
    | CopyRunningConfig
    | JunosSet(tag: int, block: Block, primary: bool)
    | JunosDelete(tag: int, block: Block)

  type Interfaces = map<int, Interface>

  function Blocks(i: Interface): (r: seq<Block>)
    ensures |r| == |i| && forall k | 0 <= k < |i| :: r[k] == i[k].block
  {
    seq(|i|, k requires 0 <= k < |i| => i[k].block)
  }

  predicate HasPrimary(i: Interface) {
    exists e | e in i :: e.primary
  }

  function NotBlock(b: Block): Entry -> bool {
    (e: Entry) => e.block != b
  }

  function NotSecondary(b: Block): Entry -> bool {
    (e: Entry) => e.block != b || e.primary
  }

  function Secondary(): Entry -> bool {
    (e: Entry) => !e.primary
  }

  /** `ip address B` replaces the primary address; `ip address B secondary` needs one. */
  function WithAddress(i: Interface, b: Block, secondary: bool): Interface {
    if !secondary then [Entry(b, true)] + Filter(i, Secondary())
    else if HasPrimary(i) && b !in Blocks(i) then i + [Entry(b, false)]
    else i
  }

  /** `set ... address B [primary]` adds the address, or marks it. */
  function WithJunosAddress(i: Interface, b: Block, primary: bool): Interface {
    if b !in Blocks(i) then i + [Entry(b, primary)]
    else seq(|i|, k requires 0 <= k < |i| => if i[k].block == b then Entry(b, i[k].primary || primary) else i[k])
  }

  /** The configuration session: the interfaces, and the one the previous commands selected. */
  datatype Cli = Cli(ifaces: Interfaces, context: Option<int>)

  function Execute(s: Cli, c: Command): Cli {
    match c
    case InterfaceVlan(tag) => s.(context := Some(tag))
    case IpAddress(b, secondary) =>
      if s.context.Some? && s.context.value in s.ifaces
      then s.(ifaces := s.ifaces[s.context.value := WithAddress(s.ifaces[s.context.value], b, secondary)]) else s
    case NoIpAddressSecondary(b) =>
      if s.context.Some? && s.context.value in s.ifaces
      then s.(ifaces := s.ifaces[s.context.value := Filter(s.ifaces[s.context.value], NotSecondary(b))]) else s
    case JunosSet(tag, b, primary) =>
      if tag in s.ifaces then s.(ifaces := s.ifaces[tag := WithJunosAddress(s.ifaces[tag], b, primary)]) else s
    case JunosDelete(tag, b) =>
      if tag in s.ifaces then s.(ifaces := s.ifaces[tag := Filter(s.ifaces[tag], NotBlock(b))]) else s
    case _ => s
  }

  function After(ifaces: Interfaces, commands: seq<Command>): Interfaces {
    ExecuteAll(Execute, Cli(ifaces, None), commands).ifaces
  }

  // ----- the overlap scan

  /** `_check_overlapping_subnets`: the first listed block the new one overlaps. */
  method CheckOverlappingSubnets(existing: seq<Block>, subnet: Block) returns (r: Option<Block>)
    ensures r == FirstOverlap(existing, subnet)
  {
    for k := 0 to |existing|
      invariant FirstOverlap(existing, subnet) == FirstOverlap(existing[k..], subnet)
    {
      assert existing[k..][1..] == existing[k + 1..];
      var other := existing[k];
      if subnet.prefixlen < other.prefixlen {
        if Contains(subnet, other) {
          return Some(other);
        }
      } else {
        if Contains(other, subnet) {
          return Some(other);
        }
      }
    }
    return None;
  }

  function FirstOverlap(existing: seq<Block>, subnet: Block): Option<Block> {
    if existing == [] then None
    else if Overlaps(subnet, existing[0]) then Some(existing[0])
    else FirstOverlap(existing[1..], subnet)
  }

  /** The scan finds a block exactly when a listed one shares an address with the new one, host bits
      ignored, and then it is the first such block. */
  lemma {:induction false} FirstOverlapExact(existing: seq<Block>, subnet: Block)
    ensures FirstOverlap(existing, subnet).None? <==> forall k | 0 <= k < |existing| :: !Shares(subnet, existing[k])
    ensures FirstOverlap(existing, subnet).Some? ==>
              exists k :: 0 <= k < |existing| && FirstOverlap(existing, subnet).value == existing[k]
                          && Shares(subnet, existing[k]) && forall j | 0 <= j < k :: !Shares(subnet, existing[j])
  {
    if existing != [] {
      OverlapTestsExact(subnet, existing[0]);
      FirstOverlapExact(existing[1..], subnet);
      assert forall k | 0 < k < |existing| :: existing[k] == existing[1..][k - 1];
      if !Shares(subnet, existing[0]) && FirstOverlap(existing, subnet).Some? {
        var k :| 0 <= k < |existing[1..]| && FirstOverlap(existing[1..], subnet).value == existing[1..][k]
                 && Shares(subnet, existing[1..][k]) && forall j | 0 <= j < k :: !Shares(subnet, existing[1..][j]);
        assert existing[k + 1] == existing[1..][k];
        assert forall j | 0 <= j < k + 1 :: j == 0 || existing[j] == existing[1..][j - 1];
      }
    }
  }

  // ----- the driver operations as functions of one interface

  /** What the create commands do to the interface. */
  function Pushed(os: Os, i: Interface, b: Block): Interface {
    if os == Junos then WithJunosAddress(i, b, false) else WithAddress(i, b, |i| > 0)
  }

  /** What the delete commands do to it. */
  function Removed(os: Os, i: Interface, b: Block): Interface {
    if os == Junos then Filter(i, NotBlock(b)) else Filter(i, NotSecondary(b))
  }

  /** The outcome of a push with a post-check for b. */
  function Settle(i: Interface, i': Interface, b: Block, fault: Fault): (Interface, Option<Error>) {
    match fault
    case LostBefore => (i, Some(ConnectionLost))
    case LostAfter => (i', Some(ConnectionLost))
    case _ =>
      var now := if fault == Refuses then i else i';
      (now, if b in Blocks(now) then None else Some(PostChangeValidation))
  }

  /** `create_subnet` of the four drivers; the IOS driver's is an empty body. */
  function Created(os: Os, i: Interface, b: Block, max: nat, fault: Fault): (Interface, Option<Error>) {
    if os == Ios then (i, None)
    else if os == Junos && !HasPrimary(i) then (i, Some(NoPrimarySubnet))
    else if |i| >= max then (i, Some(MaxSubnetsConfigured))
    else if FirstOverlap(Blocks(i), b).Some? then (i, Some(SubnetAlreadyConfigured(FirstOverlap(Blocks(i), b).value)))
    else Settle(i, Pushed(os, i, b), b, fault)
  }

  /** How many addresses the Junos driver counts: a missing list reads as one element. */
  function Counted(i: Interface): nat {
    if i == [] then 1 else |i|
  }

  /** `set_subnet_primary` of the Junos driver. */
  function Patched(i: Interface, b: Block, oneSubnetOnly: bool, fault: Fault): (Interface, Option<Error>) {
    if Counted(i) != 1 && oneSubnetOnly then (i, Some(PatchingNotSupported))
    else if b !in Blocks(i) then (i, Some(RequestedPrimaryConflicts))
    else if HasPrimary(i) then (i, Some(PrimarySubnetExists))
    else Settle(i, WithJunosAddress(i, b, true), b, fault)
  }

  /** `delete_subnet_on_device`: no check afterwards. */
  function Deleted(os: Os, i: Interface, b: Block, fault: Fault): (Interface, Option<Error>) {
    if os == Ios then (i, None)
    else
      (if fault == Healthy || fault == LostAfter then Removed(os, i, b) else i,
       if fault == LostBefore || fault == LostAfter then Some(ConnectionLost) else None)
  }

  // ----- the drivers

  class Driver {
    const os: Os
    const maxSubnets: nat
    var ifaces: Interfaces

    constructor (os: Os, maxSubnets: nat, ifaces: Interfaces)
      ensures this.os == os && this.maxSubnets == maxSubnets && this.ifaces == ifaces
    {
      this.os, this.maxSubnets, this.ifaces := os, maxSubnets, ifaces;
    }

    /** Sends the commands; e reports a lost connection. */
    method Send(commands: seq<Command>, fault: Fault) returns (e: Option<Error>)
      modifies this
      ensures ifaces == if fault == Healthy || fault == LostAfter then After(old(ifaces), commands) else old(ifaces)
      ensures e == if fault == LostBefore || fault == LostAfter then Some(ConnectionLost) else None
    {
      if fault == Healthy || fault == LostAfter {
        var cli := Cli(ifaces, None);
        for k := 0 to |commands|
          invariant cli == ExecuteAll(Execute, Cli(old(ifaces), None), commands[..k])
          invariant ifaces == old(ifaces)
        {
          assert commands[..k + 1] == commands[..k] + [commands[k]];
          ExecuteSnoc(Execute, Cli(old(ifaces), None), commands[..k], commands[k]);
          cli := Execute(cli, commands[k]);
        }
        assert commands[..|commands|] == commands;
        ifaces := cli.ifaces;
      }
      return if fault == LostBefore || fault == LostAfter then Some(ConnectionLost) else None;
    }

    method PreChangeValidateSubnet(subnet: Block, tag: int) returns (e: Option<Error>)
      requires tag in ifaces
      ensures e == if |ifaces[tag]| >= maxSubnets then Some(MaxSubnetsConfigured)
                   else if FirstOverlap(Blocks(ifaces[tag]), subnet).Some?
                   then Some(SubnetAlreadyConfigured(FirstOverlap(Blocks(ifaces[tag]), subnet).value))
                   else None
    {
      var existing := Blocks(ifaces[tag]);
      if |existing| >= maxSubnets {
        return Some(MaxSubnetsConfigured);
      }
      var overlapping := CheckOverlappingSubnets(existing, subnet);
      return if overlapping.Some? then Some(SubnetAlreadyConfigured(overlapping.value)) else None;
    }

    method CreateSubnet(subnet: Block, tag: int, fault: Fault) returns (e: Option<Error>)
      modifies this
      ensures os != Ios && tag !in old(ifaces) ==> e == Some(EntityDoesNotExist) && ifaces == old(ifaces)
      ensures os == Ios ==> e == None && ifaces == old(ifaces)
      ensures os != Ios && tag in old(ifaces) ==>
                var (i, error) := Created(os, old(ifaces)[tag], subnet, maxSubnets, fault);
                ifaces == old(ifaces)[tag := i] && e == error
    {
      if os == Ios {
        return None;
      }
      if tag !in ifaces {
        return Some(EntityDoesNotExist);
      }
      ghost var i := ifaces[tag];
      assert ifaces == ifaces[tag := i];
      if os == Junos && !HasPrimary(ifaces[tag]) {
        return Some(NoPrimarySubnet);
      }
      e := PreChangeValidateSubnet(subnet, tag);
      if e.Some? {
        return;
      }
      var commands: seq<Command> := [];
      if os == Junos {
        commands := commands + [JunosSet(tag, subnet, false)];
      } else {
        commands := commands + [ConfigureTerminal];
        commands := commands + [InterfaceVlan(tag)];
        commands := commands + [IpAddress(subnet, |ifaces[tag]| > 0)];
        commands := commands + [CopyRunningConfig];
      }
      CreateCommandsMean(os, ifaces, tag, subnet, commands);
      e := Send(commands, fault);
      if e.Some? {
        return;
      }
      if subnet !in Blocks(ifaces[tag]) {
        return Some(PostChangeValidation);
      }
    }

    method SetSubnetPrimary(subnet: Block, tag: int, oneSubnetOnly: bool, fault: Fault) returns (e: Option<Error>)
      requires os == Junos
      modifies this
      ensures tag !in old(ifaces) ==> e == Some(EntityDoesNotExist) && ifaces == old(ifaces)
      ensures tag in old(ifaces) ==>
                var (i, error) := Patched(old(ifaces)[tag], subnet, oneSubnetOnly, fault);
                ifaces == old(ifaces)[tag := i] && e == error
    {
      if tag !in ifaces {
        return Some(EntityDoesNotExist);
      }
      var existing := Blocks(ifaces[tag]);
      assert ifaces == ifaces[tag := ifaces[tag]];
      if Counted(ifaces[tag]) != 1 && oneSubnetOnly {
        return Some(PatchingNotSupported);
      }
      if subnet !in existing {
        return Some(RequestedPrimaryConflicts);
      }
      if HasPrimary(ifaces[tag]) {
        return Some(PrimarySubnetExists);
      }
      ExecuteTwo(Execute, Cli(ifaces, None), JunosSet(tag, subnet, true), CopyRunningConfig);
      e := Send([JunosSet(tag, subnet, true)], fault);
      if e.Some? {
        return;
      }
      if subnet !in Blocks(ifaces[tag]) {
        return Some(PostChangeValidation);
      }
    }

    method DeleteSubnet(subnet: Block, tag: int, fault: Fault) returns (e: Option<Error>)
      modifies this
      ensures os != Ios && tag !in old(ifaces) ==> e == Some(EntityDoesNotExist) && ifaces == old(ifaces)
      ensures os == Ios ==> e == None && ifaces == old(ifaces)
      ensures os != Ios && tag in old(ifaces) ==>
                var (i, error) := Deleted(os, old(ifaces)[tag], subnet, fault);
                ifaces == old(ifaces)[tag := i] && e == error
    {
      if os == Ios {
        return None;
      }
      if tag !in ifaces {
        return Some(EntityDoesNotExist);
      }
      assert ifaces == ifaces[tag := ifaces[tag]];
      var commands: seq<Command> := [];
      if os == Junos {
        commands := commands + [JunosDelete(tag, subnet)];
      } else {
        commands := commands + [ConfigureTerminal];
        commands := commands + [InterfaceVlan(tag)];
        commands := commands + [NoIpAddressSecondary(subnet)];
        commands := commands + [CopyRunningConfig];
      }
      DeleteCommandsMean(os, ifaces, tag, subnet, commands);
      e := Send(commands, fault);
    }
  }

  lemma ExecuteFour(ifaces: Interfaces, tag: int, c: Command)
    ensures After(ifaces, [ConfigureTerminal, InterfaceVlan(tag), c, CopyRunningConfig])
            == Execute(Cli(ifaces, Some(tag)), c).ifaces
  {
    var s := Cli(ifaces, None);
    ExecuteTwo(Execute, s, ConfigureTerminal, InterfaceVlan(tag));
    assert [ConfigureTerminal, InterfaceVlan(tag)] + [c] == [ConfigureTerminal, InterfaceVlan(tag), c];
    ExecuteSnoc(Execute, s, [ConfigureTerminal, InterfaceVlan(tag)], c);
    assert [ConfigureTerminal, InterfaceVlan(tag), c] + [CopyRunningConfig]
        == [ConfigureTerminal, InterfaceVlan(tag), c, CopyRunningConfig];
    ExecuteSnoc(Execute, s, [ConfigureTerminal, InterfaceVlan(tag), c], CopyRunningConfig);
  }

  /** The commands of a create change the addressed interface only, as Pushed says. */
  lemma CreateCommandsMean(os: Os, ifaces: Interfaces, tag: int, b: Block, commands: seq<Command>)
    requires tag in ifaces
    requires commands == if os == Junos then [JunosSet(tag, b, false)]
                         else [ConfigureTerminal, InterfaceVlan(tag), IpAddress(b, |ifaces[tag]| > 0),
                             CopyRunningConfig]
    ensures After(ifaces, commands) == ifaces[tag := Pushed(os, ifaces[tag], b)]
  {
    if os == Junos {
      ExecuteTwo(Execute, Cli(ifaces, None), commands[0], commands[0]);
    } else {
      ExecuteFour(ifaces, tag, IpAddress(b, |ifaces[tag]| > 0));
    }
  }

  lemma DeleteCommandsMean(os: Os, ifaces: Interfaces, tag: int, b: Block, commands: seq<Command>)
    requires tag in ifaces
    requires commands == if os == Junos then [JunosDelete(tag, b)]
                         else [ConfigureTerminal, InterfaceVlan(tag), NoIpAddressSecondary(b), CopyRunningConfig]
    ensures After(ifaces, commands) == ifaces[tag := Removed(os, ifaces[tag], b)]
  {
    if os == Junos {
      ExecuteTwo(Execute, Cli(ifaces, None), commands[0], commands[0]);
    } else {
      ExecuteFour(ifaces, tag, NoIpAddressSecondary(b));
    }
  }

  // ----- what an interface satisfies over any run

  ghost predicate PairwiseDisjoint(i: Interface) {
    forall j, k | 0 <= j < k < |i| :: !Shares(i[j].block, i[k].block)
  }

  /** Exactly one primary address on a non-empty interface, and it is the first. */
  ghost predicate OnePrimary(i: Interface) {
    forall k | 0 <= k < |i| :: i[k].primary <==> k == 0
  }

  datatype Op = Create(block: Block, fault: Fault) | Delete(block: Block, fault: Fault)

  function AfterOp(os: Os, i: Interface, op: Op, max: nat): Interface {
    match op
    case Create(b, fault) => Created(os, i, b, max, fault).0
    case Delete(b, fault) => Deleted(os, i, b, fault).0
  }

  function AfterRun(os: Os, i: Interface, ops: seq<Op>, max: nat): Interface {
    if ops == [] then i else AfterOp(os, AfterRun(os, i, ops[..|ops| - 1], max), ops[|ops| - 1], max)
  }

  lemma {:induction false} FilterKeepsDisjoint(i: Interface, p: Entry -> bool)
    requires PairwiseDisjoint(i)
    ensures PairwiseDisjoint(Filter(i, p)) && |Filter(i, p)| <= |i|
  {
    if i != [] {
      var n := |i| - 1;
      FilterKeepsDisjoint(i[..n], p);
      var kept := Filter(i[..n], p);
      forall j | 0 <= j < |kept|
        ensures !Shares(kept[j].block, i[n].block)
      {
        assert kept[j] in i[..n];
        var m :| 0 <= m < n && i[m] == kept[j];
      }
    }
  }

  /** Deleting a secondary never touches the primary address. */
  lemma {:induction false} RemovalKeepsPrimary(i: Interface, b: Block)
    requires OnePrimary(i)
    ensures OnePrimary(Filter(i, NotSecondary(b)))
    ensures i != [] ==> Filter(i, NotSecondary(b)) != [] && Filter(i, NotSecondary(b))[0] == i[0]
  {
    if |i| == 1 {
      assert i[..0] == [];
    } else if |i| > 1 {
      RemovalKeepsPrimary(i[..|i| - 1], b);
    }
  }

  lemma PushKeepsDisjoint(os: Os, i: Interface, b: Block)
    requires PairwiseDisjoint(i) && FirstOverlap(Blocks(i), b).None?
    ensures PairwiseDisjoint(Pushed(os, i, b)) && |Pushed(os, i, b)| <= |i| + 1
  {
    FirstOverlapExact(Blocks(i), b);
    var i' := Pushed(os, i, b);
    NewBlockIsAbsent(i, b);
    if i == [] {
      assert Filter(i, Secondary()) == [];
    } else {
      forall k | 0 <= k < |i|
        ensures !Shares(i[k].block, b)
      {
        assert !Shares(b, Blocks(i)[k]);
      }
    }
  }

  lemma NewBlockIsAbsent(i: Interface, b: Block)
    requires FirstOverlap(Blocks(i), b).None?
    ensures b !in Blocks(i)
  {
    FirstOverlapExact(Blocks(i), b);
    Endpoints(b);
    assert Shares(b, b);
    forall k | 0 <= k < |i|
      ensures Blocks(i)[k] != b
    {
      assert !Shares(b, Blocks(i)[k]);
    }
  }

  /** One operation keeps the limit and the disjointness on every device, whatever the fault; on EOS and
      NXOS it also keeps exactly one primary. */
  lemma StepKeepsInterface(os: Os, i: Interface, op: Op, max: nat)
    requires |i| <= max && PairwiseDisjoint(i)
    ensures |AfterOp(os, i, op, max)| <= max && PairwiseDisjoint(AfterOp(os, i, op, max))
    ensures os in {Nxos, Eos} && OnePrimary(i) ==> OnePrimary(AfterOp(os, i, op, max))
  {
    match op {
      case Create(b, fault) =>
        if |i| < max && FirstOverlap(Blocks(i), b).None? {
          PushKeepsDisjoint(os, i, b);
        }
        if i == [] {
          assert Filter(i, Secondary()) == [];
        }
      case Delete(b, fault) =>
        FilterKeepsDisjoint(i, NotBlock(b));
        FilterKeepsDisjoint(i, NotSecondary(b));
        if OnePrimary(i) {
          RemovalKeepsPrimary(i, b);
        }
    }
  }

  /** Over any run of creates and deletes from the bare interface of an EOS or NXOS switch: at most `max`
      subnets, pairwise without a common address, and exactly one primary whenever there is any. */
  lemma {:induction false} RunsKeepInterface(os: Os, ops: seq<Op>, max: nat)
    requires os in {Nxos, Eos}
    ensures var i := AfterRun(os, [], ops, max); |i| <= max && PairwiseDisjoint(i) && OnePrimary(i)
  {
    if ops != [] {
      RunsKeepInterface(os, ops[..|ops| - 1], max);
      StepKeepsInterface(os, AfterRun(os, [], ops[..|ops| - 1], max), ops[|ops| - 1], max);
    }
  }

  /** A Junos interface without a primary statement never gets an address from a create. */
  lemma {:induction false} BareJunosStaysBare(ops: seq<Op>, max: nat)
    ensures AfterRun(Junos, [], ops, max) == []
  {
    if ops != [] {
      BareJunosStaysBare(ops[..|ops| - 1], max);
    }
  }

  /** Deleting what was just pushed restores the interface exactly when the device is Junos, or the
      interface was not empty: the EOS and NXOS delete command cannot remove a primary address. */
  lemma CompensationExact(os: Os, i: Interface, b: Block)
    requires os != Ios && FirstOverlap(Blocks(i), b).None?
    ensures Removed(os, Pushed(os, i, b), b) == i <==> os == Junos || i != []
  {
    NewBlockIsAbsent(i, b);
    forall e | e in i ensures e.block != b {
      var k :| 0 <= k < |i| && i[k] == e;
      assert Blocks(i)[k] == e.block;
    }
    if os == Junos {
      FilterSnoc(i, Entry(b, false), NotBlock(b));
      FilterAll(i, NotBlock(b));
    } else {
      FilterAll(i, NotSecondary(b));
      FilterSnoc(i, Entry(b, false), NotSecondary(b));
      if i == [] {
        assert Filter(i, Secondary()) == [];
        assert Pushed(os, i, b) == [Entry(b, true)];
        assert Entry(b, true) in Removed(os, Pushed(os, i, b), b);
      }
    }
  }

  // ----- each operation at every exit

  predicate Takes(fault: Fault) {
    fault == Healthy || fault == LostAfter
  }

  /** Address k is the first one that shares an address with the block. */
  ghost predicate FirstShared(i: Interface, b: Block, k: nat) {
    k < |i| && Shares(b, i[k].block) && forall j | 0 <= j < k :: !Shares(b, i[j].block)
  }

  ghost predicate SharesNone(i: Interface, b: Block) {
    forall k | 0 <= k < |i| :: !Shares(b, i[k].block)
  }

  /** A create refuses, in this order, a Junos interface without primary address, a full one, and a block that
      shares an address with one there, naming the first; then the interface is as before. */
  lemma CreateRefusesExactly(os: Os, i: Interface, b: Block, max: nat, fault: Fault)
    requires os != Ios
    requires (os == Junos && forall e | e in i :: !e.primary) || |i| >= max || !SharesNone(i, b)
    ensures var (i', e) := Created(os, i, b, max, fault);
            && i' == i
            && if os == Junos && forall x | x in i :: !x.primary then e == Some(NoPrimarySubnet)
               else if |i| >= max then e == Some(MaxSubnetsConfigured)
               else exists k: nat :: FirstShared(i, b, k) && e == Some(SubnetAlreadyConfigured(i[k].block))
  {
    FirstOverlapExact(Blocks(i), b);
    if FirstOverlap(Blocks(i), b).Some? {
      var k :| 0 <= k < |i| && FirstOverlap(Blocks(i), b).value == Blocks(i)[k]
               && Shares(b, Blocks(i)[k]) && forall j | 0 <= j < k :: !Shares(b, Blocks(i)[j]);
      assert forall j | 0 <= j < k :: Blocks(i)[j] == i[j].block;
      assert FirstShared(i, b, k);
    } else {
      assert forall k | 0 <= k < |i| :: !Shares(b, Blocks(i)[k]);
    }
  }

  /** Any other create adds the address at the end if its push takes effect, as a primary one exactly on an
      interface without addresses; an EOS or NXOS interface with addresses but no primary one takes none. It
      returns exactly if the push takes effect, without a lost connection, on an interface that takes it. */
  lemma CreateExactly(os: Os, i: Interface, b: Block, max: nat, fault: Fault)
    requires os != Ios && |i| < max && SharesNone(i, b) && (os == Junos ==> exists e | e in i :: e.primary)
    ensures var (i', e) := Created(os, i, b, max, fault);
            var takes := i == [] || exists x | x in i :: x.primary;
            && i' == (if Takes(fault) && takes then i + [Entry(b, i == [])] else i)
            && e == (if fault == LostBefore || fault == LostAfter then Some(ConnectionLost)
                     else if fault == Refuses || !takes then Some(PostChangeValidation)
                     else None)
  {
    FirstOverlapExact(Blocks(i), b);
    assert forall k | 0 <= k < |i| :: !Shares(b, Blocks(i)[k]);
    NewBlockIsAbsent(i, b);
    var added := i + [Entry(b, i == [])];
    assert Blocks(added)[|i|] == b;
    if i == [] {
      assert Filter(i, Secondary()) == [];
    }
  }

  /** A patch refuses, in this order, an interface with several addresses if only one is wanted, an address
      that is not there, and an interface with a primary one. Any other one that takes effect leaves the same
      addresses in the same order and exactly the requested one primary. It reports success also if the switch
      refused it silently, since the check afterwards looks for the address, which was there before. */
  lemma PatchExactly(i: Interface, b: Block, oneSubnetOnly: bool, fault: Fault)
    ensures var (i', e) := Patched(i, b, oneSubnetOnly, fault);
            if oneSubnetOnly && |i| >= 2 then i' == i && e == Some(PatchingNotSupported)
            else if forall x | x in i :: x.block != b then i' == i && e == Some(RequestedPrimaryConflicts)
            else if exists x | x in i :: x.primary then i' == i && e == Some(PrimarySubnetExists)
            else
              && |i'| == |i| && (forall k | 0 <= k < |i| ::
                 i'[k].block == i[k].block && (i'[k].primary <==> Takes(fault) && i[k].block == b))
              && e == (if fault == LostBefore || fault == LostAfter then Some(ConnectionLost) else None)
  {
    forall x | x in i && x.block == b
      ensures b in Blocks(i)
    {
      var k :| 0 <= k < |i| && i[k] == x;
      assert Blocks(i)[k] == b;
    }
    if b in Blocks(i) {
      var k :| 0 <= k < |i| && Blocks(i)[k] == b;
      assert i[k] in i;
      assert Blocks(WithJunosAddress(i, b, true))[k] == b;
    }
  }

  /** Configuring an address once more changes nothing. */
  lemma PushedAgain(os: Os, i: Interface, b: Block)
    requires os != Ios && exists e | e in i :: e.block == b
    ensures Pushed(os, i, b) == i
  {
    var e :| e in i && e.block == b;
    var k :| 0 <= k < |i| && i[k] == e;
    assert Blocks(i)[k] == b;
  }

  /** A delete that takes effect leaves exactly the other addresses, and on EOS and NXOS the primary one too. */
  lemma DeleteExactly(os: Os, i: Interface, b: Block, fault: Fault)
    requires os != Ios
    ensures var (i', e) := Deleted(os, i, b, fault);
            && (forall x :: x in i' <==> x in i && !(Takes(fault) && x.block == b && (os == Junos || !x.primary)))
            && (!Takes(fault) ==> i' == i)
            && e == (if fault == LostBefore || fault == LostAfter then Some(ConnectionLost) else None)
  {
  }
}
