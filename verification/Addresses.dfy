/** IP addresses and networks as numbers, with the masks written as powers of two. */
module Addresses {

  datatype Ip = V4(bits: nat) | V6(bits: nat)

  function Width(ip: Ip): nat {
    if ip.V4? then 32 else 128
  }

  function Pow2(n: nat): (r: nat)
    ensures r >= 1
  {
    if n == 0 then 1 else 2 * Pow2(n - 1)
  }

  /** An address of the machine: 32 or 128 bits. */
  predicate InFamily(ip: Ip) {
    ip.bits < Pow2(Width(ip))
  }

  predicate SameFamily(a: Ip, b: Ip) {
    a.V4? == b.V4?
  }

  datatype IpNet = IpNet(addr: Ip, prefix: nat)

  /** Number of addresses under a prefix of the given length. */
  function Size(ip: Ip, prefix: nat): (r: nat)
    ensures r >= 1
  {
    if prefix <= Width(ip) then Pow2(Width(ip) - prefix) else 1
  }

  /** `addr & mask`: the host bits cleared. */
  function Masked(ip: Ip, prefix: nat): Ip {
    ip.(bits := Floor(ip.bits, Size(ip, prefix)))
  }

  /** The largest multiple of `size` that is not above `n`. */
  function Floor(n: nat, size: nat): (low: nat)
    requires size >= 1
    ensures low <= n < low + size
  {
    ProductIsMonotone(0, n / size, size);
    n / size * size
  }

  lemma ProductIsMonotone(q: nat, r: nat, size: nat)
    ensures q < r ==> q * size + size <= r * size
    ensures q <= r ==> q * size <= r * size
  {
    if q < r {
      Distributes(q, 1 + (r - q - 1), size);
      Distributes(1, r - q - 1, size);
    } else if q == r {
      assert q * size == r * size;
    }
  }

  lemma Distributes(a: nat, b: nat, c: nat)
    ensures (a + b) * c == a * c + b * c && b * c >= 0
  {
  }

  function Network(net: IpNet): Ip {
    Masked(net.addr, net.prefix)
  }

  function Broadcast(net: IpNet): Ip {
    var first := Network(net);
    first.(bits := first.bits + Size(net.addr, net.prefix) - 1)
  }

  /** `IpNet::contains`: same family and equal under the mask. */
  predicate Contains(net: IpNet, ip: Ip) {
    SameFamily(net.addr, ip) && Masked(ip, net.prefix) == Network(net)
  }

  lemma FloorIsUnique(n: nat, a: nat, size: nat)
    requires size >= 1
    ensures Floor(n, size) == Floor(a, size)
            <==> Floor(a, size) <= n <= Floor(a, size) + size - 1
  {
    ProductIsMonotone(n / size, a / size, size);
    ProductIsMonotone(a / size, n / size, size);
  }

  lemma MaskedTwice(ip: Ip, prefix: nat)
    ensures Masked(Masked(ip, prefix), prefix) == Masked(ip, prefix)
  {
    FloorIsUnique(Floor(ip.bits, Size(ip, prefix)), ip.bits, Size(ip, prefix));
  }

  /** A network is the interval from its network address to its broadcast address. */
  lemma ContainsIsInterval(net: IpNet, ip: Ip)
    ensures Contains(net, ip)
            <==> SameFamily(net.addr, ip) && Network(net).bits <= ip.bits <= Broadcast(net).bits
  {
    FloorIsUnique(ip.bits, net.addr.bits, Size(net.addr, net.prefix));
  }
}
