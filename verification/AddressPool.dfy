/** The addresses a stored subnet hands out, and the reserved ones below them. */
module AddressPool {
  import opened Prelude
  import opened Cidr

  /** `start_ip` and `end_ip`; empty when start > end. */
  datatype Pool = Pool(start: nat, end: nat)

  datatype Error = SmallSubnetNotAllowed | AddressOutOfRange

  predicate InPool(x: nat, p: Pool) {
    p.start <= x <= p.end
  }

  /** `_set_allocation_range`. It counts from the address as written, host bits included, and
      netaddr refuses an address outside 32 bits. */
  function AllocationRange(b: Block, reserve: int): Result<Pool, Error> {
    if Size(b) < reserve then Raised(SmallSubnetNotAllowed)
    else
      var start := b.value + reserve + 1;
      var end := b.value + Size(b) - 1;
      if 0 <= start <= MAX_ADDRESS && end <= MAX_ADDRESS then Ok(Pool(start, end)) else Raised(AddressOutOfRange)
  }

  /** The allocation at every exit: a block with fewer addresses than are reserved is refused, and so is a pool
      that would leave the 32 bits; otherwise the pool starts after the reserved addresses and has as many as
      the block has besides them and the first one, counted from the address as written. */
  lemma AllocationExactly(b: Block, reserve: nat)
    ensures AllocationRange(b, reserve) == Raised(SmallSubnetNotAllowed) <==> Size(b) < reserve
    ensures AllocationRange(b, reserve) == Raised(AddressOutOfRange)
            <==> Size(b) >= reserve && (b.value + Size(b) > 0x1_0000_0000 || b.value + reserve >= 0xFFFF_FFFF)
    ensures AllocationRange(b, reserve).Ok? ==>
              var p := AllocationRange(b, reserve).value;
              p.start - b.value == reserve + 1 && p.end - p.start + 1 == Size(b) - reserve - 1
  {
  }

  /** `_get_reserved_ip_addrs_list`. */
  method ReservedAddresses(b: Block, count: int) returns (r: Result<seq<nat>, Error>)
    ensures r.Raised? <==> count >= 1 && First(b) + count > MAX_ADDRESS
    ensures r.Ok? ==> r.value == Reserved(b, count)
  {
    var addresses: seq<nat> := [];
    var i := 1;
    while i < count + 1
      invariant 1 <= i && (i <= count + 1 || i == 1)
      invariant addresses == Reserved(b, i - 1)
      invariant i > 1 ==> First(b) + i - 1 <= MAX_ADDRESS
    {
      if First(b) + i > MAX_ADDRESS {
        return Raised(AddressOutOfRange);
      }
      addresses := addresses + [First(b) + i];
      i := i + 1;
    }
    return Ok(addresses);
  }

  function Reserved(b: Block, count: int): seq<nat> {
    if count <= 0 then [] else Reserved(b, count - 1) + [First(b) + count]
  }

  lemma {:induction false} ReservedElements(b: Block, count: nat, x: nat)
    ensures x in Reserved(b, count) <==> First(b) < x <= First(b) + count
  {
    if count > 0 {
      ReservedElements(b, count - 1, x);
    }
  }

  predicate HasHostBits(b: Block) {
    b.value != First(b)
  }

  /** How many of the three parts of a subnet hold the address. */
  function PartsHolding(x: nat, b: Block, reserve: int, p: Pool): nat {
    (if x == First(b) then 1 else 0) + (if x in Reserved(b, reserve) then 1 else 0) + (if InPool(x, p) then 1 else 0)
  }

  /** The network address, the reserved addresses and the pool partition the block, exactly when the
      block is larger than the reserve count; the size guard lets one more size through. */
  lemma PoolPartitionsBlock(b: Block, reserve: nat)
    requires !HasHostBits(b) && AllocationRange(b, reserve).Ok?
    ensures var p := AllocationRange(b, reserve).value;
            (forall x: nat :: PartsHolding(x, b, reserve, p) == if In(x, b) then 1 else 0) <==> reserve < Size(b)
  {
    var p := AllocationRange(b, reserve).value;
    forall x: nat
      ensures reserve < Size(b) ==> PartsHolding(x, b, reserve, p) == if In(x, b) then 1 else 0
    {
      ReservedElements(b, reserve, x);
    }
    if reserve == Size(b) {
      var x := First(b) + reserve;
      ReservedElements(b, reserve, x);
      assert PartsHolding(x, b, reserve, p) == 1 && !In(x, b);
    }
  }

  /** A pool with addresses lies inside its block exactly when the CIDR was given without host bits. */
  lemma PoolInsideBlock(b: Block, reserve: nat)
    requires AllocationRange(b, reserve).Ok?
    ensures var p := AllocationRange(b, reserve).value;
            (forall x: nat :: InPool(x, p) ==> In(x, b)) <==> p.start > p.end || !HasHostBits(b)
  {
    Endpoints(b);
    var p := AllocationRange(b, reserve).value;
    if p.start <= p.end && HasHostBits(b) {
      assert InPool(p.end, p) && !In(p.end, b);
    }
  }

  /** The counter-example behind the condition: 10.0.0.5/24 hands out 10.0.1.4, an address of the next block. */
  lemma HostBitsLeakIntoNextBlock()
    ensures var b, next := Block(0x0A00_0005, 24), Block(0x0A00_0100, 24);
            && AllocationRange(b, 10) == Ok(Pool(0x0A00_0010, 0x0A00_0104))
            && !Overlaps(b, next) && In(0x0A00_0104, next)
  {
    Pow2Of8();
    var b, next: Block := Block(0x0A00_0005, 24), Block(0x0A00_0100, 24);
    assert Size(b) == 256 && Size(next) == 256;
    assert First(b) == 0x0A00_0000 && First(next) == 0x0A00_0100;
    OverlapTestsExact(b, next);
  }

  lemma Pow2Of8()
    ensures Pow2(8) == 256
  {
    assert Pow2(4) == 16;
    Pow2Split(4, 4);
  }

  /** The pool of the block would hold an address. */
  predicate Usable(b: Block, reserve: nat) {
    b.value + reserve + 1 <= b.value + Size(b) - 1
  }

  /** Some block has exactly n addresses. */
  ghost predicate IsBlockSize(n: nat) {
    exists b: Block :: Size(b) == n
  }

  /** The guard `len(inet) < reserve` alone leaves every accepted block a usable address, exactly when
      no block has as many addresses as the reserve count, or one more. */
  lemma GuardSuffices(reserve: nat)
    ensures (forall b: Block :: Size(b) >= reserve ==> Usable(b, reserve))
            <==> !IsBlockSize(reserve) && !IsBlockSize(reserve + 1)
  {
    if b: Block :| Size(b) == reserve || Size(b) == reserve + 1 {
      assert !Usable(b, reserve);
    }
  }

  /** The block sizes are the powers of two up to 2^32. */
  lemma BlockSizesArePowers(n: nat)
    ensures IsBlockSize(n) <==> exists k :: 0 <= k <= WIDTH && Pow2(k) == n
  {
    if b: Block :| Size(b) == n {
      assert Pow2(WIDTH - b.prefixlen) == n;
    }
    if k :| 0 <= k <= WIDTH && Pow2(k) == n {
      var b: Block := Block(0, WIDTH - k);
      assert Size(b) == n;
    }
  }

  /** The configured default of 10 is such a count. */
  lemma DefaultReserveIsSafe(b: Block)
    requires AllocationRange(b, 10).Ok?
    ensures AllocationRange(b, 10).value.start <= AllocationRange(b, 10).value.end
  {
    var k := WIDTH - b.prefixlen;
    assert Pow2(3) == 8 && Pow2(4) == 16;
    if k < 3 { Pow2Grows(k, 3); }
    if k > 4 { Pow2Grows(4, k); }
  }
}
