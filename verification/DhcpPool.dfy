/**
  The check of a DHCP server's address pool in esp_netif_dhcps_option_api (esp_netif_lwip.c), in 32-bit arithmetic.
  Addresses are numbers in host byte order, as after htonl; the bit operations are spelled out on their binary digits.
*/
module DhcpPool {

  const WORD := 0x1_0000_0000

  type Address = x: int | 0 <= x < WORD witness 0

  const MAX_LEASE := 0x64   // DHCPS_MAX_LEASE

  // ---- Bit operations of unsigned words -----------------------------------

  // a & b
  function And(a: nat, b: nat): (r: nat)
    ensures r <= a && r <= b
  {
    if a == 0 || b == 0 then 0
    else 2 * And(a / 2, b / 2) + (if a % 2 == 1 && b % 2 == 1 then 1 else 0)
  }

  // a | b
  function Or(a: nat, b: nat): (r: nat)
    ensures r >= a && r >= b
    decreases a + b
  {
    if a == 0 then b
    else if b == 0 then a
    else 2 * Or(a / 2, b / 2) + (if a % 2 == 1 || b % 2 == 1 then 1 else 0)
  }

  // ~a
  function Not(a: Address): Address { WORD - 1 - a }

  // The 32-bit value of a result
  function Wrap(x: int): Address { x % WORD }

  function Power(k: nat): (p: nat)
    ensures p > 0
  {
    if k == 0 then 1 else 2 * Power(k - 1)
  }

  // ---- What a pool should be ----------------------------------------------

  function Network(server: Address, mask: Address): (n: Address) { And(server, mask) }

  function Broadcast(server: Address, mask: Address): (b: int) { Or(Network(server, mask), Not(mask)) }

  // An address of the range that is neither its network nor its broadcast address.
  ghost predicate Between(server: Address, mask: Address, a: Address) {
    Network(server, mask) < a < Broadcast(server, mask)
  }

  // Two to a hundred addresses, each of them a host address that is not the server's.
  ghost predicate GoodPool(server: Address, mask: Address, start: Address, end: Address) {
    && server != Network(server, mask) && server != Broadcast(server, mask)
    && 2 <= end - start + 1 <= 100
    && forall a: Address :: start <= a <= end ==> Between(server, mask, a) && a != server
  }

  // ---- What the code checks -----------------------------------------------

  // The check of the size on its own is right for every pool but one: for the pool of all addresses the sum wraps
  // to zero.
  lemma SizeCheckIsExactIff(start: Address, end: Address)
    ensures (Wrap(end - start + 1) > MAX_LEASE || start >= end <==> !(2 <= end - start + 1 <= 100))
            <==> !(start == 0 && end == WORD - 1)
  {
    if end < start {
      assert Wrap(end - start + 1) == if end - start + 1 < 0 then end - start + 1 + WORD else end - start + 1;
    }
  }

  datatype Pool = Pool(enable: bool, start: Address, end: Address)

  datatype Error = Ok | InvalidParams | AlreadyStarted

  class Server {
    var pool: Pool       // the lease option of the DHCP server
    var started: bool    // dhcps_status == ESP_NETIF_DHCP_STARTED
    var ip: Address
    var mask: Address

    // esp_netif_dhcps_option_api, setting REQUESTED_IP_ADDRESS. Accepted are the pools that are switched off and
    // the good ones, no others.
    method SetPool(p: Pool) returns (r: Error)
      modifies `pool
      ensures r == if started then AlreadyStarted
                   else if !p.enable || GoodPool(ip, mask, p.start, p.end) then Ok else InvalidParams
      ensures pool == if r == Ok then p else old(pool)
    {
      if started {
        return AlreadyStarted;
      }
      if p.enable {
        r := Check(p.start, p.end);
        if r != Ok {
          return;
        }
      }
      pool := p;
      return Ok;
    }

    // The comparisons for a pool that is switched on
    method Check(start: Address, end: Address) returns (r: Error)
      ensures r == if GoodPool(ip, mask, start, end) then Ok else InvalidParams
    {
      hide And, Or;
      assert start <= end && GoodPool(ip, mask, start, end) ==>
          Between(ip, mask, start) && Between(ip, mask, end);
      var rangeStart := And(ip, mask);
      var rangeEnd := Or(rangeStart, Not(mask));
      if ip == rangeStart || ip == rangeEnd {
        return InvalidParams;
      }
      if ip >= start && ip <= end {
        assert GoodPool(ip, mask, start, end) ==> Between(ip, mask, ip);
        return InvalidParams;
      }
      if start <= rangeStart || start >= rangeEnd {
        return InvalidParams;
      }
      if end <= rangeStart || end >= rangeEnd {
        return InvalidParams;
      }
      SizeCheckIsExactIff(start, end);
      if Wrap(end - start + 1) > MAX_LEASE || start >= end {
        return InvalidParams;
      }
      return Ok;
    }
  }

  // ---- Pools and subnets --------------------------------------------------

  // In the low w bits, the ones come before the zeros.
  predicate OnesFirst(mask: nat, w: nat) {
    if w == 0 then true
    else if mask % 2 == 1 then mask == Power(w) - 1
    else OnesFirst(mask / 2, w - 1)
  }

  predicate Contiguous(mask: Address) { OnesFirst(mask, 32) }

  // The number of low zeros of such a mask.
  function Zeros(mask: nat, w: nat): (k: nat)
    requires mask < Power(w) && OnesFirst(mask, w)
    ensures k <= w && mask == Power(w) - Power(k)
  {
    if w == 0 || mask % 2 == 1 then 0 else 1 + Zeros(mask / 2, w - 1)
  }

  lemma {:induction false} AndOnes(a: nat, w: nat)
    requires a < Power(w)
    ensures And(a, Power(w) - 1) == a
  {
    if a > 0 && w > 0 {
      AndOnes(a / 2, w - 1);
      assert (Power(w) - 1) / 2 == Power(w - 1) - 1;
    }
  }

  // Masking with a contiguous mask rounds down to a multiple of the block size.
  lemma {:induction false} AndRoundsDown(a: nat, w: nat, k: nat)
    requires a < Power(w) && k <= w
    ensures Power(k) <= Power(w) && And(a, Power(w) - Power(k)) == a / Power(k) * Power(k)
  {
    if k == 0 {
      AndOnes(a, w);
    } else {
      hide And;
      PowerGrows(k, w);
      var half := Power(w - 1) - Power(k - 1);
      assert Power(w) - Power(k) == 2 * half;
      AndRoundsDown(a / 2, w - 1, k - 1);
      AndEven(a, half);
      var p := Power(k - 1);
      assert Power(k) == 2 * p;
      hide Power;
      HalvesRoundDown(a, p);
    }
  }

  lemma AndEven(a: nat, b: nat)
    ensures And(a, 2 * b) == 2 * And(a / 2, b)
  {
    var even := 2 * b;
    assert even / 2 == b && even % 2 == 0;
  }

  lemma {:induction false} PowerGrows(k: nat, w: nat)
    requires k <= w
    ensures Power(k) <= Power(w)
  {
    if k < w {
      PowerGrows(k, w - 1);
    }
  }

  lemma HalvesRoundDown(a: nat, p: nat)
    requires p > 0
    ensures 2 * (a / 2 / p * p) == a / (2 * p) * (2 * p)
  {
    var q := a / (2 * p);
    var r := a % (2 * p);
    assert a == q * (2 * p) + r;
    assert q * (2 * p) == 2 * (q * p);
    assert a / 2 == q * p + r / 2;
    QuotientIs(a / 2, p, q);
  }

  lemma QuotientIs(a: nat, p: nat, q: nat)
    requires p > 0 && q * p <= a < q * p + p
    ensures a / p == q
  {
    var d := a / p - q;
    assert a == a / p * p + a % p;
    assert d * p == a / p * p - q * p;
  }

  // Disjoint bits add up.
  lemma {:induction false} OrIsSum(q: nat, k: nat)
    ensures Or(q * Power(k), Power(k) - 1) == q * Power(k) + Power(k) - 1
  {
    hide Or;
    if k == 0 || q == 0 {
      OrZero(q * Power(k));
      OrZero(Power(k) - 1);
    } else {
      OrIsSum(q, k - 1);
      Twice(q, Power(k - 1));
      OrDigit(q * Power(k - 1), Power(k - 1) - 1);
    }
  }

  lemma OrZero(a: nat)
    ensures Or(a, 0) == a && Or(0, a) == a
  {
  }

  lemma OrDigit(a: nat, b: nat)
    ensures Or(2 * a, 2 * b + 1) == 2 * Or(a, b) + 1
  {
  }

  lemma Twice(q: nat, p: nat)
    requires q > 0 && p > 0
    ensures q * (2 * p) == 2 * (q * p) && q * p > 0
  {
  }

  lemma BetweenIsInSubnet(server: Address, mask: Address, a: Address)
    requires Contiguous(mask) && Between(server, mask, a)
    ensures And(a, mask) == Network(server, mask)
  {
    hide And, Or, Power;
    PowerOf32();
    var k := Zeros(mask, 32);
    var p := Power(k);
    hide Zeros, OnesFirst, Contiguous;
    assert Not(mask) == p - 1;
    AndRoundsDown(server, 32, k);
    OrIsSum(server / p, k);
    assert server / p * p < a < server / p * p + p - 1;
    AndRoundsDown(a, 32, k);
    QuotientIs(a, p, server / p);
  }

  lemma PowerOf32()
    ensures Power(32) == WORD
  {
    assert Power(8) == 0x100;
    assert Power(16) == 0x1_0000;
    assert Power(24) == 0x100_0000;
  }

  // A mask with a hole has a bit of its own below its highest zero.
  function Stray(mask: nat, w: nat): (a: nat)
    requires mask < Power(w) && !OnesFirst(mask, w)
    ensures 0 < a < Power(w) - 1 - mask && And(a, mask) != 0
  {
    if mask % 2 == 1 then 1 else 2 * Stray(mask / 2, w - 1)
  }

  // Addresses between the network and the broadcast address are in the subnet, whatever the server, exactly when the
  // mask is contiguous.
  lemma RangeIsSubnetIff(mask: Address)
    ensures (forall server: Address, a: Address :: Between(server, mask, a) ==> And(a, mask) == Network(server, mask))
            <==> Contiguous(mask)
  {
    if Contiguous(mask) {
      forall server: Address, a: Address | Between(server, mask, a)
        ensures And(a, mask) == Network(server, mask)
      {
        BetweenIsInSubnet(server, mask, a);
      }
    } else {
      PowerOf32();
      var a := Stray(mask, 32);
      assert Between(0, mask, a) && And(a, mask) != Network(0, mask);
    }
  }

  lemma ServerIsBetween(server: Address, mask: Address)
    requires Contiguous(mask) && server != Network(server, mask) && server != Broadcast(server, mask)
    ensures Between(server, mask, server)
  {
    hide And, Or, Power;
    PowerOf32();
    var k := Zeros(mask, 32);
    var p := Power(k);
    hide Zeros, OnesFirst, Contiguous;
    assert Not(mask) == p - 1;
    AndRoundsDown(server, 32, k);
    OrIsSum(server / p, k);
    BlockOf(server, p);
  }

  lemma BlockOf(a: nat, p: nat)
    requires p > 0
    ensures a / p * p <= a <= a / p * p + p - 1
  {
  }

  // Behind a contiguous mask every address of an accepted pool is in the server's subnet.
  lemma GoodPoolIsInSubnet(server: Address, mask: Address, start: Address, end: Address, a: Address)
    requires Contiguous(mask) && GoodPool(server, mask, start, end) && start <= a <= end
    ensures And(a, mask) == And(server, mask)
    ensures a != server && a != Network(server, mask) && a != Broadcast(server, mask)
    ensures Between(server, mask, server) && 1 <= end - start < 100
  {
    ServerIsBetween(server, mask);
    assert Between(server, mask, a);
    BetweenIsInSubnet(server, mask, a);
  }
}
