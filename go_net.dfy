/**
 * The parts of Go's `net` package that `utils.go` relies on: an `IP` is a
 * byte slice of any length (4 for IPv4, 16 for IPv6, empty for `nil`), an
 * `IPNet` parsed from a CIDR literal is a network number with a mask of
 * `ones` leading one-bits, and `IPNet.Contains` compares an address with the
 * network number under that mask.
 *
 * Go applies the mask with a bitwise AND, byte by byte. For a CIDR mask the
 * byte at index `k` keeps the top `BitsOfByte(ones, k)` bits, and two bytes
 * agree under it exactly when those top bits agree, that is when they have
 * the same quotient by `2^(8 - bits)`. The model states the comparison in
 * that form.
 */
module GoNet {

  type Byte = b: int | 0 <= b < 256

  type IP = seq<Byte>

  /** An IPv4 network as `net.ParseCIDR` returns it: network number and prefix length. */
  datatype IPNet = IPNet(network: IP, ones: nat)

  ghost predicate WellFormedV4(n: IPNet) {
    |n.network| == 4 && n.ones <= 32
  }

  /** `IP.To4`: the four bytes of an IPv4 address, also when written in the IPv4-mapped IPv6 form; `nil` otherwise. */
  function To4(ip: IP): (r: IP)
    ensures |r| == 0 || |r| == 4
    ensures |ip| == 4 ==> r == ip
    ensures |ip| != 4 && |ip| != 16 ==> r == []
  {
    if |ip| == 4 then ip
    else if |ip| == 16 && (forall k :: 0 <= k < 10 ==> ip[k] == 0) && ip[10] == 0xff && ip[11] == 0xff then ip[12..16]
    else []
  }

  function Pow2(n: nat): (p: nat)
    ensures p >= 1
  {
    if n == 0 then 1 else 2 * Pow2(n - 1)
  }

  /** How many of the `ones` leading mask bits fall in byte `k` (the byte of `CIDRMask` that is `0xff`, `0` or in between). */
  function BitsOfByte(ones: nat, k: nat): (bits: nat)
    ensures bits <= 8
  {
    if ones >= 8 * (k + 1) then 8
    else if ones <= 8 * k then 0
    else ones - 8 * k
  }

  /**
   * The top `bits` bits of a byte: the byte ANDed with a mask byte of `bits`
   * leading ones, shifted down. A full mask byte keeps the whole byte, an
   * empty one nothing.
   */
  function TopBits(b: Byte, bits: nat): int
    requires bits <= 8
  {
    if bits == 8 then b
    else if bits == 0 then 0
    else (b as int) / Pow2(8 - bits)
  }

  /** The address `Contains` compares: reduced to four bytes when `To4` can, left as it is otherwise. */
  function Normalized(ip: IP): (x: IP)
    ensures |ip| == 4 ==> x == ip
  {
    if |To4(ip)| == 4 then To4(ip) else ip
  }

  /** The loop of `Contains`: every byte agrees with the network number under the mask. */
  predicate MaskedEqual(n: IPNet, x: IP)
    requires WellFormedV4(n) && |x| == 4
  {
    forall k :: 0 <= k < 4 ==> TopBits(n.network[k], BitsOfByte(n.ones, k)) == TopBits(x[k], BitsOfByte(n.ones, k))
  }

  /**
   * `IPNet.Contains` for an IPv4 network: the address is first reduced by
   * `To4`; an address of another length (an IPv6 address, `nil`) is never
   * contained; otherwise every byte must agree with the network number under
   * the mask.
   */
  predicate Contains(n: IPNet, ip: IP)
    requires WellFormedV4(n)
    ensures |ip| == 4 ==> (Contains(n, ip) <==> MaskedEqual(n, ip))
    ensures |ip| == 16 ==> (Contains(n, ip) <==> |To4(ip)| == 4 && MaskedEqual(n, To4(ip)))
    ensures |ip| != 4 && |ip| != 16 ==> !Contains(n, ip)
  {
    |Normalized(ip)| == 4 && MaskedEqual(n, Normalized(ip))
  }

  /** Under a mask of `ones` leading bits, byte `k` of `x` agrees with the network number's. */
  lemma MaskedEqualBytes(n: IPNet, x: IP)
    requires WellFormedV4(n) && |x| == 4
    ensures MaskedEqual(n, x) <==>
      && TopBits(n.network[0], BitsOfByte(n.ones, 0)) == TopBits(x[0], BitsOfByte(n.ones, 0))
      && TopBits(n.network[1], BitsOfByte(n.ones, 1)) == TopBits(x[1], BitsOfByte(n.ones, 1))
      && TopBits(n.network[2], BitsOfByte(n.ones, 2)) == TopBits(x[2], BitsOfByte(n.ones, 2))
      && TopBits(n.network[3], BitsOfByte(n.ones, 3)) == TopBits(x[3], BitsOfByte(n.ones, 3))
  {
  }

  /** Four mask bits in a byte compare its high nibble. */
  lemma TopBitsNibble(b: Byte)
    ensures TopBits(b, 4) == b / 16
    ensures TopBits(b, 4) == 1 <==> 16 <= b <= 31
  {
    assert Pow2(4) == 16;
  }
}
