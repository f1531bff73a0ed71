/** The checks against the bubble's distribution switches: picking one that answers, and reading its routes. */
module BubbleRoutes {
  import opened Prelude
  import opened Cidr

  datatype Kind = Pre | Post | OtherKind(text: string)

  datatype Error =
    | MalformedRoute
    | SubnetAlreadyConfiguredOnBubble(existing: Block)
    | NewSubnetNotReflecting
    | BadValidationType

  const DEFAULT_ROUTE: Block := Block(0, 0)
  const TEN_SLASH_EIGHT: Block := Block(0x0A00_0000, 8)

  /** Routes the check ignores. */
  predicate Exempt(route: Block) {
    route == DEFAULT_ROUTE || route == TEN_SLASH_EIGHT
  }

  ghost predicate Clear(cidr: Block, route: CidrText) {
    route.Cidr? && (Exempt(route.block) || !Shares(cidr, route.block))
  }

  /** Every route is well formed, and exempt or without an address of the new subnet. */
  ghost predicate PassesPre(cidr: Block, routes: seq<CidrText>) {
    forall i | 0 <= i < |routes| :: Clear(cidr, routes[i])
  }

  /** Every route is well formed and the new subnet is listed, and not an exempt one. */
  predicate PassesPost(cidr: Block, routes: seq<CidrText>) {
    (forall i | 0 <= i < |routes| :: routes[i].Cidr?) && Cidr(cidr) in routes && !Exempt(cidr)
  }

  /** Route i is the first one in the way. */
  ghost predicate FirstInTheWay(cidr: Block, routes: seq<CidrText>, i: nat) {
    i < |routes| && !Clear(cidr, routes[i]) && forall j | 0 <= j < i :: Clear(cidr, routes[j])
  }

  /** `_check_cidr_overlap_on_bubble`; None means it returned. Except in the post-check the first route in the
      way ends it. */
  method CheckCidrOverlap(cidr: Block, routes: seq<CidrText>, kind: Kind) returns (r: Option<Error>)
    ensures kind == Pre ==> (r == None <==> PassesPre(cidr, routes))
    ensures kind == Post ==> (r == None <==> PassesPost(cidr, routes))
    ensures kind.OtherKind? ==> (r == None <==> PassesPre(cidr, routes))
    ensures kind != Post && r.Some? ==>
              exists i: nat :: FirstInTheWay(cidr, routes, i) &&
                r == Some(if routes[i].Malformed? then MalformedRoute
                          else if kind == Pre then SubnetAlreadyConfiguredOnBubble(routes[i].block)
                          else BadValidationType)
    ensures kind == Post && (exists route | route in routes :: route.Malformed?) ==> r == Some(MalformedRoute)
    ensures kind == Post && (forall route | route in routes :: route.Cidr?) && !PassesPost(cidr, routes) ==>
              r == Some(NewSubnetNotReflecting)
  {
    var isNewCidrPushed := false;
    for i := 0 to |routes|
      invariant forall j | 0 <= j < i :: routes[j].Cidr?
      invariant kind != Post ==> forall j | 0 <= j < i :: Clear(cidr, routes[j])
      invariant kind == Post ==> (isNewCidrPushed <==> Cidr(cidr) in routes[..i] && !Exempt(cidr))
    {
      var text := routes[i];
      assert routes[..i + 1] == routes[..i] + [text];
      if text.Malformed? {
        assert text in routes && !Clear(cidr, text);
        assert kind != Post ==> FirstInTheWay(cidr, routes, i);
        return Some(MalformedRoute);
      }
      var route := text.block;
      OverlapTestsExact(cidr, route);
      if Exempt(route) || !EndpointOverlaps(cidr, route) {
        if kind == Post && route == cidr {
          Endpoints(cidr);
        }
      } else {
        assert !Clear(cidr, routes[i]);
        assert kind != Post ==> FirstInTheWay(cidr, routes, i);
        if kind == Pre {
          return Some(SubnetAlreadyConfiguredOnBubble(route));
        } else if kind == Post {
          if route == cidr {
            isNewCidrPushed := true;
          }
        } else {
          return Some(BadValidationType);
        }
      }
    }
    assert routes[..|routes|] == routes;
    if kind == Post && !isNewCidrPushed {
      return Some(NewSubnetNotReflecting);
    }
    return None;
  }

  /** No routing table passes both checks, so a subnet that passed "pre" and then "post" saw the table
      change: it is listed now and was not before. */
  lemma PreAndPostExclude(cidr: Block, before: seq<CidrText>, after: seq<CidrText>)
    requires PassesPre(cidr, before) && PassesPost(cidr, after)
    ensures !PassesPost(cidr, before) && !PassesPre(cidr, after)
    ensures Cidr(cidr) in after && Cidr(cidr) !in before
  {
    Endpoints(cidr);
    assert Shares(cidr, cidr);
    forall i | 0 <= i < |before|
      ensures before[i] != Cidr(cidr)
    {
      assert Clear(cidr, before[i]);
    }
    var k :| 0 <= k < |after| && after[k] == Cidr(cidr);
    assert !Clear(cidr, after[k]);
  }

  /** Two routes are ignored, and no others: a table of the default route and 10.0.0.0/8 passes "pre" for every
      block, and one with any other route that shares an address with the block fails. */
  lemma ExemptExactly(cidr: Block, routes: seq<CidrText>)
    ensures PassesPre(cidr, [Cidr(Block(0, 0)), Cidr(Block(0x0A00_0000, 8))])
    ensures PassesPre(cidr, routes)
            <==> forall route | route in routes ::
                   && route.Cidr?
                   && (Shares(cidr, route.block) ==>
                         (route.block.value == 0 && route.block.prefixlen == 0)
                         || (route.block.value == 10 * 256 * 256 * 256 && route.block.prefixlen == 8))
    ensures PassesPost(cidr, routes)
            <==> && Cidr(cidr) in routes && cidr != Block(0, 0) && cidr != Block(0x0A00_0000, 8)
                 && forall route | route in routes :: route.Cidr?
  {
    forall i | 0 <= i < |routes|
      ensures routes[i] in routes
    {
    }
  }

  /** Every listed device always answers, or never does. */
  ghost predicate Steady<Device(!new)>(answers: (nat, Device) -> bool, devices: seq<Device>) {
    forall k: nat, d | d in devices :: answers(k, d) == answers(0, d)
  }

  /** These switches failed the pings from `attempt` on, one each and in this order, and the list lost
      exactly them. */
  ghost predicate RemovedInTurn<Device(!new)>(answers: (nat, Device) -> bool, attempt: nat, removed: seq<Device>,
      before: seq<Device>, after: seq<Device>) {
    && multiset(before) == multiset(after) + multiset(removed)
    && forall k | 0 <= k < |removed| :: !answers(attempt + k, removed[k])
  }

  lemma NoneRemoved<Device(!new)>(answers: (nat, Device) -> bool, attempt: nat, devices: seq<Device>)
    ensures RemovedInTurn(answers, attempt, [], devices, devices)
  {
  }

  lemma OneMoreRemoved<Device(!new)>(answers: (nat, Device) -> bool, attempt: nat, device: Device,
      before: seq<Device>, middle: seq<Device>, after: seq<Device>)
    requires !answers(attempt, device) && multiset(before) == multiset(middle) + multiset{device}
    requires var next := attempt + 1; exists removed :: RemovedInTurn(answers, next, removed, middle, after)
    ensures exists removed :: RemovedInTurn(answers, attempt, removed, before, after)
  {
    var removed :| RemovedInTurn(answers, attempt + 1, removed, middle, after);
    var more := [device] + removed;
    forall k | 0 <= k < |more|
      ensures !answers(attempt + k, more[k])
    {
      assert k > 0 ==> !answers(attempt + 1 + (k - 1), removed[k - 1]);
    }
    assert RemovedInTurn(answers, attempt, more, before, after);
  }

  /** A switch that failed a ping tells nothing about the others, if switches do not come and go. */
  lemma FailedIsDead<Device(!new)>(answers: (nat, Device) -> bool, attempt: nat, device: Device,
      before: seq<Device>, middle: seq<Device>)
    requires device in before && !answers(attempt, device) && multiset(before) == multiset(middle) + multiset{device}
    requires Steady(answers, before)
    ensures Steady(answers, middle)
    ensures (forall d | d in before :: !answers(0, d)) <==> forall d | d in middle :: !answers(0, d)
  {
    assert forall d :: d in before <==> d in multiset(before);
    assert forall d :: d in middle <==> d in multiset(middle);
  }

  /** `list.remove`. */
  function WithoutFirst<T(==)>(s: seq<T>, x: T): (r: seq<T>)
    requires x in s
    ensures |r| == |s| - 1 && multiset(s) == multiset(r) + multiset{x}
  {
    var i := IndexOf(s, x);
    assert s == s[..i] + [x] + s[i + 1..];
    s[..i] + s[i + 1..]
  }

  /** The list of candidate switches, shrunk while looking for one that answers. `answers(k, d)` is
      the outcome of the k-th ping if it goes to device d. */
  class Candidates<Device(==, !new)> {
    var devices: seq<Device>

    constructor (devices: seq<Device>)
      ensures this.devices == devices
    {
      this.devices := devices;
    }

    /** `_get_pingable_bubble_device_`: whatever the random choices, it ends. The switches removed failed the
        pings made, one each; the last ping went to the switch returned, and was answered. If switches do not
        come and go meanwhile, nothing is returned exactly when none of them is live. */
    method PickPingable(answers: (nat, Device) -> bool, attempt: nat) returns (picked: Option<Device>)
      modifies this
      ensures |devices| <= |old(devices)| && (picked.None? <==> devices == [])
      ensures exists removed :: RemovedInTurn(answers, attempt, removed, old(devices), devices)
      ensures picked.Some? ==>
                picked.value in devices && answers(attempt + (|old(devices)| - |devices|), picked.value)
      ensures Steady(answers, old(devices)) ==> (picked.None? <==> forall d | d in old(devices) :: !answers(0, d))
      decreases |devices|
    {
      ghost var before := devices;
      NoneRemoved(answers, attempt, before);
      if devices == [] {
        return None;
      }
      var i :| 0 <= i < |devices|;
      var device := devices[i];
      if answers(attempt, device) {
        return Some(device);
      }
      devices := WithoutFirst(devices, device);
      ghost var middle := devices;
      picked := PickPingable(answers, attempt + 1);
      OneMoreRemoved(answers, attempt, device, before, middle, devices);
      if Steady(answers, before) {
        FailedIsDead(answers, attempt, device, before, middle);
      }
    }
  }

  /** The position `list.remove` acts on. */
  function IndexOf<T(==)>(s: seq<T>, x: T): (i: nat)
    requires x in s
    ensures i < |s| && s[i] == x
  {
    if s[0] == x then 0 else 1 + IndexOf(s[1..], x)
  }
}
