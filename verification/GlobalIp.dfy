/** Addresses as bytes, network containment by masks, and the tables of non-global networks. */
module GlobalIp {
  import opened Text

  type Address = seq<Byte>

  // ----- bitwise and on one byte ------------------------------------------------------------

  /** Bitwise and, bit by bit. */
  function And(x: nat, m: nat): (r: nat)
    ensures r <= x
  {
    if x == 0 || m == 0 then 0
    else 2 * And(x / 2, m / 2) + (if x % 2 == 1 && m % 2 == 1 then 1 else 0)
  }

  function Pow2(j: nat): (r: nat)
    ensures r >= 1
  { if j == 0 then 1 else 2 * Pow2(j - 1) }

  /** A byte whose top p bits are set. */
  function MaskByte(p: nat): Byte
    requires p <= 8
  {
    match p
    case 0 => 0 case 1 => 128 case 2 => 192 case 3 => 224 case 4 => 240
    case 5 => 248 case 6 => 252 case 7 => 254 case 8 => 255
  }

  /** The number of addresses of one byte that share their top p bits. */
  function Span(p: nat): nat
    requires p <= 8
  {
    match p
    case 0 => 256 case 1 => 128 case 2 => 64 case 3 => 32 case 4 => 16
    case 5 => 8 case 6 => 4 case 7 => 2 case 8 => 1
  }

  /** The least byte that shares its top p bits with x. */
  function Aligned(x: Byte, p: nat): (a: Byte)
    requires p <= 8
    ensures a <= x < a + Span(p) <= 256
  {
    match p
    case 0 => 0 case 1 => x / 128 * 128 case 2 => x / 64 * 64 case 3 => x / 32 * 32 case 4 => x / 16 * 16
    case 5 => x / 8 * 8 case 6 => x / 4 * 4 case 7 => x / 2 * 2 case 8 => x
  }

  lemma {:induction false} AndOnes(x: nat, j: nat)
    requires x < Pow2(j)
    ensures And(x, Pow2(j) - 1) == x
  {
    if j == 0 {
    } else {
      AndOnes(x / 2, j - 1);
      assert (Pow2(j) - 1) / 2 == Pow2(j - 1) - 1;
    }
  }

  lemma {:induction false} AndEven(x: nat, h: nat)
    ensures And(x, 2 * h) == 2 * And(x / 2, h)
  {
  }

  lemma Halves(x: nat)
    ensures x / 2 / 2 == x / 4 && x / 4 / 2 == x / 8 && x / 8 / 2 == x / 16 && x / 16 / 2 == x / 32
    ensures x / 32 / 2 == x / 64 && x / 64 / 2 == x / 128
  {
  }

  lemma SmallPowers()
    ensures Pow2(8) == 256 && Pow2(7) == 128 && Pow2(6) == 64 && Pow2(5) == 32 && Pow2(4) == 16
    ensures Pow2(3) == 8 && Pow2(2) == 4 && Pow2(1) == 2
  {
  }

  lemma AndFewBits(x: Byte, p: nat)
    requires 1 <= p <= 3
    ensures And(x, MaskByte(p)) == Aligned(x, p)
  {
    hide And, Pow2;
    Halves(x);
    SmallPowers();
    if p == 1 {
      AndEven(x, 64); AndEven(x / 2, 32); AndEven(x / 4, 16); AndEven(x / 8, 8);
      AndEven(x / 16, 4); AndEven(x / 32, 2); AndEven(x / 64, 1);
      AndOnes(x / 128, 1);
    } else if p == 2 {
      AndEven(x, 96); AndEven(x / 2, 48); AndEven(x / 4, 24); AndEven(x / 8, 12);
      AndEven(x / 16, 6); AndEven(x / 32, 3);
      AndOnes(x / 64, 2);
    } else {
      AndEven(x, 112); AndEven(x / 2, 56); AndEven(x / 4, 28); AndEven(x / 8, 14); AndEven(x / 16, 7);
      AndOnes(x / 32, 3);
    }
  }

  lemma AndManyBits(x: Byte, p: nat)
    requires 4 <= p <= 8
    ensures And(x, MaskByte(p)) == Aligned(x, p)
  {
    hide And, Pow2;
    Halves(x);
    SmallPowers();
    if p == 4 {
      AndEven(x, 120); AndEven(x / 2, 60); AndEven(x / 4, 30); AndEven(x / 8, 15);
      AndOnes(x / 16, 4);
    } else if p == 5 {
      AndEven(x, 124); AndEven(x / 2, 62); AndEven(x / 4, 31);
      AndOnes(x / 8, 5);
    } else if p == 6 {
      AndEven(x, 126); AndEven(x / 2, 63);
      AndOnes(x / 4, 6);
    } else if p == 7 {
      AndEven(x, 127);
      AndOnes(x / 2, 7);
    } else {
      AndOnes(x, 8);
    }
  }

  /** Masking a byte rounds it down to its group. */
  lemma AndMaskByte(x: Byte, p: nat)
    requires p <= 8
    ensures And(x, MaskByte(p)) == Aligned(x, p)
  {
    hide And, Aligned;
    if p == 0 {
      AndZero(x);
      AlignedZero(x);
    } else if p <= 3 {
      AndFewBits(x, p);
    } else {
      AndManyBits(x, p);
    }
  }

  lemma AlignedZero(x: Byte)
    ensures Aligned(x, 0) == 0
  {
  }

  lemma AndZero(x: nat)
    ensures And(x, 0) == 0
  {
  }

  // ----- containment -------------------------------------------------------------------------

  datatype Net = Net(base: Address, mask: Address)

  /** net.IPNet.Contains once both sides have the same length. */
  predicate Matches(base: Address, mask: Address, ip: Address)
    requires |base| == |mask| == |ip|
  {
    forall i :: 0 <= i < |ip| ==> And(base[i], mask[i]) == And(ip[i], mask[i])
  }

  function LastBits(p: nat, length: nat): (bits: nat)
    requires 0 < length && p <= 8 * length
    ensures bits <= 8
  {
    if p < 8 * (length - 1) then 0 else p - 8 * (length - 1)
  }

  function FrontBits(p: nat, length: nat): nat
    requires 0 < length
  {
    if p < 8 * (length - 1) then p else 8 * (length - 1)
  }

  /** net.CIDRMask */
  function PrefixMask(p: nat, length: nat): (m: Address)
    requires p <= 8 * length
    ensures |m| == length
    decreases length
  {
    if length == 0 then []
    else PrefixMask(FrontBits(p, length), length - 1) + [MaskByte(LastBits(p, length))]
  }

  /** The big-endian integer. */
  function Value(ip: Address): nat { if ip == [] then 0 else Value(ip[..|ip| - 1]) * 256 + ip[|ip| - 1] }

  /** First and last address of the network of prefix length p around base. */
  function First(base: Address, p: nat): (a: Address)
    requires p <= 8 * |base|
    ensures |a| == |base|
    decreases |base|
  {
    if base == [] then []
    else
      var n := |base| - 1;
      First(base[..n], FrontBits(p, |base|)) + [Aligned(base[n], LastBits(p, |base|))]
  }

  function Last(base: Address, p: nat): (a: Address)
    requires p <= 8 * |base|
    ensures |a| == |base|
    decreases |base|
  {
    if base == [] then []
    else
      var n := |base| - 1;
      var bits := LastBits(p, |base|);
      Last(base[..n], FrontBits(p, |base|)) + [Aligned(base[n], bits) + Span(bits) - 1]
  }

  lemma {:induction false} WholePrefix(base: Address)
    ensures First(base, 8 * |base|) == base && Last(base, 8 * |base|) == base
    decreases |base|
  {
    if base == [] {
    } else {
      var n := |base| - 1;
      WholePrefix(base[..n]);
      assert base == base[..n] + [base[n]];
      assert FrontBits(8 * |base|, |base|) == 8 * n && LastBits(8 * |base|, |base|) == 8;
      WholeBytes();
      hide Aligned, Span;
    }
  }

  lemma MatchesSnoc(base: Address, mask: Address, ip: Address)
    requires |base| == |mask| == |ip| > 0
    ensures var n := |ip| - 1;
      Matches(base, mask, ip) <==>
      Matches(base[..n], mask[..n], ip[..n]) && And(base[n], mask[n]) == And(ip[n], mask[n])
  {
    hide And;
  }

  lemma AlignedIntervalA(b: Byte, x: Byte, p: nat)
    requires p <= 2
    ensures Aligned(b, p) == Aligned(x, p) <==> Aligned(b, p) <= x <= Aligned(b, p) + Span(p) - 1
  {
  }

  lemma AlignedIntervalB(b: Byte, x: Byte, p: nat)
    requires 3 <= p <= 4
    ensures Aligned(b, p) == Aligned(x, p) <==> Aligned(b, p) <= x <= Aligned(b, p) + Span(p) - 1
  {
  }

  lemma AlignedIntervalC(b: Byte, x: Byte, p: nat)
    requires 5 <= p <= 6
    ensures Aligned(b, p) == Aligned(x, p) <==> Aligned(b, p) <= x <= Aligned(b, p) + Span(p) - 1
  {
  }

  lemma AlignedIntervalD(b: Byte, x: Byte, p: nat)
    requires 7 <= p <= 8
    ensures Aligned(b, p) == Aligned(x, p) <==> Aligned(b, p) <= x <= Aligned(b, p) + Span(p) - 1
  {
  }

  /** Bytes of one group form an interval. */
  lemma AlignedInterval(b: Byte, x: Byte, p: nat)
    requires p <= 8
    ensures Aligned(b, p) == Aligned(x, p) <==> Aligned(b, p) <= x <= Aligned(b, p) + Span(p) - 1
  {
    hide Aligned, Span;
    if p <= 2 {
      AlignedIntervalA(b, x, p);
    } else if p <= 4 {
      AlignedIntervalB(b, x, p);
    } else if p <= 6 {
      AlignedIntervalC(b, x, p);
    } else {
      AlignedIntervalD(b, x, p);
    }
  }

  lemma ByteInterval(b: Byte, x: Byte, p: nat)
    requires p <= 8
    ensures And(b, MaskByte(p)) == And(x, MaskByte(p)) <==> Aligned(b, p) <= x <= Aligned(b, p) + Span(p) - 1
  {
    hide And, MaskByte, Aligned, Span;
    AndMaskByte(b, p);
    AndMaskByte(x, p);
    AlignedInterval(b, x, p);
  }

  /** Byte-by-byte containment under a prefix mask is membership in one integer interval, for every
      prefix length and every address length. */
  lemma {:induction false} MatchesIsInterval(base: Address, ip: Address, p: nat)
    requires |base| == |ip| && p <= 8 * |ip|
    ensures Matches(base, PrefixMask(p, |ip|), ip) <==>
      Value(First(base, p)) <= Value(ip) <= Value(Last(base, p))
    decreases |ip|
  {
    if |ip| == 0 {
    } else {
      var n := |ip| - 1;
      var mask := PrefixMask(p, |ip|);
      var lo, hi := First(base, p), Last(base, p);
      hide And, MaskByte;
      MatchesSnoc(base, mask, ip);
      assert mask[..n] == PrefixMask(FrontBits(p, |ip|), n);
      MatchesIsInterval(base[..n], ip[..n], FrontBits(p, |ip|));
      ByteInterval(base[n], ip[n], LastBits(p, |ip|));
      assert lo[..n] == First(base[..n], FrontBits(p, |ip|)) && hi[..n] == Last(base[..n], FrontBits(p, |ip|));
      if p >= 8 * n {
        WholePrefix(base[..n]);
      }
    }
  }

  // ----- single bytes of masks and end points ------------------------------------------------

  function BitsAt(p: nat, i: nat): (bits: nat)
    ensures bits <= 8
  {
    if p <= 8 * i then 0 else if p >= 8 * i + 8 then 8 else p - 8 * i
  }

  lemma {:induction false} PrefixMaskAt(p: nat, length: nat, i: nat)
    requires p <= 8 * length && i < length
    ensures PrefixMask(p, length)[i] == MaskByte(BitsAt(p, i))
    decreases length
  {
    if i >= length - 1 {
    } else {
      PrefixMaskAt(FrontBits(p, length), length - 1, i);
    }
  }

  lemma {:induction false} EndsAt(base: Address, p: nat, i: nat)
    requires p <= 8 * |base| && i < |base|
    ensures First(base, p)[i] == Aligned(base[i], BitsAt(p, i))
    ensures Last(base, p)[i] == Aligned(base[i], BitsAt(p, i)) + Span(BitsAt(p, i)) - 1
    decreases |base|
  {
    if i == |base| - 1 {
    } else {
      EndsAt(base[..|base| - 1], FrontBits(p, |base|), i);
    }
  }

  /** A net whose mask is the prefix mask of length p, and its end points, byte by byte. */
  ghost predicate HasRange(net: Net, p: nat, lo: Address, hi: Address)
  {
    && |net.base| == |net.mask| == |lo| == |hi| && p <= 8 * |net.base|
    && forall i :: 0 <= i < |net.base| ==>
         && net.mask[i] == MaskByte(BitsAt(p, i))
         && lo[i] == Aligned(net.base[i], BitsAt(p, i))
         && hi[i] == Aligned(net.base[i], BitsAt(p, i)) + Span(BitsAt(p, i)) - 1
  }

  lemma RangeDecides(net: Net, p: nat, lo: Address, hi: Address, ip: Address)
    requires HasRange(net, p, lo, hi) && |ip| == |lo|
    ensures Matches(net.base, net.mask, ip) <==> Value(lo) <= Value(ip) <= Value(hi)
  {
    hide MaskByte, Aligned, Span, And, First, Last, PrefixMask;
    forall i | 0 <= i < |ip|
      ensures net.mask[i] == PrefixMask(p, |ip|)[i] && lo[i] == First(net.base, p)[i] && hi[i] == Last(net.base, p)[i]
    {
      PrefixMaskAt(p, |ip|, i);
      EndsAt(net.base, p, i);
    }
    assert net.mask == PrefixMask(p, |ip|) && lo == First(net.base, p) && hi == Last(net.base, p);
    MatchesIsInterval(net.base, ip, p);
  }

  // ----- IsGlobalIP ---------------------------------------------------------------------------

  const LOCAL4: seq<Net> := [
    Net([0, 0, 0, 0], [255, 0, 0, 0]),
    Net([10, 0, 0, 0], [255, 0, 0, 0]),
    Net([100, 64, 0, 0], [255, 192, 0, 0]),
    Net([127, 0, 0, 0], [255, 0, 0, 0]),
    Net([169, 254, 0, 0], [255, 255, 0, 0]),
    Net([172, 16, 0, 0], [255, 240, 0, 0]),
    Net([192, 0, 0, 0], [255, 255, 255, 248]),
    Net([192, 88, 99, 0], [255, 255, 255, 0]),
    Net([192, 168, 0, 0], [255, 255, 0, 0]),
    Net([240, 0, 0, 0], [240, 0, 0, 0])]

  const LOCAL6: seq<Net> := [
    Net([0, 0, 0, 0, 0, 0, 0, 0, 0, 0, 0, 0, 0, 0, 0, 0],
        [255, 255, 255, 255, 255, 255, 255, 255, 255, 255, 255, 255, 255, 255, 255, 254]),
    Net([1, 0, 0, 0, 0, 0, 0, 0, 0, 0, 0, 0, 0, 0, 0, 0],
        [255, 255, 255, 255, 255, 255, 255, 255, 0, 0, 0, 0, 0, 0, 0, 0]),
    Net([0xfc, 0, 0, 0, 0, 0, 0, 0, 0, 0, 0, 0, 0, 0, 0, 0],
        [0xfe, 0, 0, 0, 0, 0, 0, 0, 0, 0, 0, 0, 0, 0, 0, 0]),
    Net([0xfe, 0x80, 0, 0, 0, 0, 0, 0, 0, 0, 0, 0, 0, 0, 0, 0],
        [0xff, 0xc0, 0, 0, 0, 0, 0, 0, 0, 0, 0, 0, 0, 0, 0, 0])]

  predicate IsMapped(ip: Address) { |ip| == 16 && (forall i :: 0 <= i < 10 ==> ip[i] == 0) && ip[10] == 255 && ip[11] == 255 }

  /** net.IP.To4 */
  function To4(ip: Address): (r: Option<Address>)
    ensures r.Some? ==> |r.value| == 4
  {
    if |ip| == 4 then Some(ip) else if IsMapped(ip) then Some(ip[12..]) else None
  }

  predicate InNone(nets: seq<Net>, ip: Address)
  {
    forall i :: 0 <= i < |nets| ==>
      !(|nets[i].base| == |nets[i].mask| == |ip| && Matches(nets[i].base, nets[i].mask, ip))
  }

  /** None is the nil address. */
  predicate IsGlobal(ip: Option<Address>)
  {
    if ip.None? then false
    else if To4(ip.value).Some? then InNone(LOCAL4, To4(ip.value).value)
    else if |ip.value| == 16 then InNone(LOCAL6, ip.value)
    else true
  }

  /** No address is not global; a length that is no IP version is in no table. */
  lemma OddAddresses(ip: Address)
    requires |ip| != 4 && |ip| != 16
    ensures !IsGlobal(None) && IsGlobal(Some(ip))
  {
  }

  // ----- the tables as integer intervals --------------------------------------------------------

  /** Prefix length, first and last address. */
  datatype Range = Range(p: nat, lo: Address, hi: Address)

  const RANGES4: seq<Range> := [
    Range(8, [0, 0, 0, 0], [0, 255, 255, 255]),
    Range(8, [10, 0, 0, 0], [10, 255, 255, 255]),
    Range(10, [100, 64, 0, 0], [100, 127, 255, 255]),
    Range(8, [127, 0, 0, 0], [127, 255, 255, 255]),
    Range(16, [169, 254, 0, 0], [169, 254, 255, 255]),
    Range(12, [172, 16, 0, 0], [172, 31, 255, 255]),
    Range(29, [192, 0, 0, 0], [192, 0, 0, 7]),
    Range(24, [192, 88, 99, 0], [192, 88, 99, 255]),
    Range(16, [192, 168, 0, 0], [192, 168, 255, 255]),
    Range(4, [240, 0, 0, 0], [255, 255, 255, 255])]

  const RANGES6: seq<Range> := [
    Range(127, [0, 0, 0, 0, 0, 0, 0, 0, 0, 0, 0, 0, 0, 0, 0, 0], [0, 0, 0, 0, 0, 0, 0, 0, 0, 0, 0, 0, 0, 0, 0, 1]),
    Range(64, [1, 0, 0, 0, 0, 0, 0, 0, 0, 0, 0, 0, 0, 0, 0, 0],
      [1, 0, 0, 0, 0, 0, 0, 0, 255, 255, 255, 255, 255, 255, 255, 255]),
    Range(7, [0xfc, 0, 0, 0, 0, 0, 0, 0, 0, 0, 0, 0, 0, 0, 0, 0],
      [0xfd, 255, 255, 255, 255, 255, 255, 255, 255, 255, 255, 255, 255, 255, 255, 255]),
    Range(10, [0xfe, 0x80, 0, 0, 0, 0, 0, 0, 0, 0, 0, 0, 0, 0, 0, 0],
      [0xfe, 0xbf, 255, 255, 255, 255, 255, 255, 255, 255, 255, 255, 255, 255, 255, 255])]

  /** The integer lies in none of the intervals. */
  predicate OutsideAll(ranges: seq<Range>, v: nat)
  {
    forall i :: 0 <= i < |ranges| ==> !(Value(ranges[i].lo) <= v <= Value(ranges[i].hi))
  }

  lemma Rows4A()
    ensures forall i :: 0 <= i < 2 ==> HasRange(LOCAL4[i], RANGES4[i].p, RANGES4[i].lo, RANGES4[i].hi)
  {
    hide HasRange;
    RowEndsAt(LOCAL4[0], 8, RANGES4[0].lo, RANGES4[0].hi, 0);
    RowEndsAt(LOCAL4[1], 8, RANGES4[1].lo, RANGES4[1].hi, 0);
  }

  lemma Rows4B()
    ensures forall i :: 2 <= i < 5 ==> HasRange(LOCAL4[i], RANGES4[i].p, RANGES4[i].lo, RANGES4[i].hi)
  {
    hide HasRange;
    RowEndsAt(LOCAL4[2], 10, RANGES4[2].lo, RANGES4[2].hi, 1);
    RowEndsAt(LOCAL4[3], 8, RANGES4[3].lo, RANGES4[3].hi, 0);
    RowEndsAt(LOCAL4[4], 16, RANGES4[4].lo, RANGES4[4].hi, 1);
  }

  lemma Rows4C()
    ensures forall i :: 5 <= i < 10 ==> HasRange(LOCAL4[i], RANGES4[i].p, RANGES4[i].lo, RANGES4[i].hi)
  {
    hide HasRange;
    RowEndsAt(LOCAL4[5], 12, RANGES4[5].lo, RANGES4[5].hi, 1);
    RowEndsAt(LOCAL4[6], 29, RANGES4[6].lo, RANGES4[6].hi, 3);
    RowEndsAt(LOCAL4[7], 24, RANGES4[7].lo, RANGES4[7].hi, 2);
    RowEndsAt(LOCAL4[8], 16, RANGES4[8].lo, RANGES4[8].hi, 1);
    RowEndsAt(LOCAL4[9], 4, RANGES4[9].lo, RANGES4[9].hi, 0);
  }

  lemma Rows6A()
    ensures HasRange(LOCAL6[0], RANGES6[0].p, RANGES6[0].lo, RANGES6[0].hi)
  {
    hide HasRange;
    RowEndsAt(LOCAL6[0], 127, RANGES6[0].lo, RANGES6[0].hi, 15);
  }

  /** Bytes outside and inside the prefix. */
  lemma WholeBytes()
    ensures MaskByte(0) == 0 && Span(0) == 256 && MaskByte(8) == 255 && Span(8) == 1
    ensures forall x: Byte :: Aligned(x, 0) == 0 && Aligned(x, 8) == x
  {
  }

  /** A net whose prefix ends in its byte n. */
  lemma RowEndsAt(net: Net, p: nat, lo: Address, hi: Address, n: nat)
    requires |net.base| == |net.mask| == |lo| == |hi| && n < |lo| && 8 * n < p <= 8 * n + 8
    requires forall i :: 0 <= i < n ==> net.mask[i] == 255 && lo[i] == hi[i] == net.base[i]
    requires net.mask[n] == MaskByte(p - 8 * n) && lo[n] == Aligned(net.base[n], p - 8 * n)
    requires hi[n] == lo[n] + Span(p - 8 * n) - 1
    requires forall i :: n < i < |lo| ==> net.mask[i] == 0 && lo[i] == 0 && hi[i] == 255
    ensures HasRange(net, p, lo, hi)
  {
    WholeBytes();
    hide MaskByte, Aligned, Span;
  }

  lemma Rows6B()
    ensures HasRange(LOCAL6[1], RANGES6[1].p, RANGES6[1].lo, RANGES6[1].hi)
  {
    hide HasRange;
    RowEndsAt(LOCAL6[1], 64, RANGES6[1].lo, RANGES6[1].hi, 7);
  }

  lemma Rows6C()
    ensures HasRange(LOCAL6[2], RANGES6[2].p, RANGES6[2].lo, RANGES6[2].hi)
  {
    hide HasRange;
    RowEndsAt(LOCAL6[2], 7, RANGES6[2].lo, RANGES6[2].hi, 0);
  }

  lemma Rows6D()
    ensures HasRange(LOCAL6[3], RANGES6[3].p, RANGES6[3].lo, RANGES6[3].hi)
  {
    hide HasRange;
    RowEndsAt(LOCAL6[3], 10, RANGES6[3].lo, RANGES6[3].hi, 1);
  }

  /** Every row of a table is one integer interval, so the scan is exclusion from all of them. */
  lemma InNoneIsOutsideAll(nets: seq<Net>, ranges: seq<Range>, ip: Address)
    requires |nets| == |ranges|
    requires forall i :: 0 <= i < |nets| ==>
      HasRange(nets[i], ranges[i].p, ranges[i].lo, ranges[i].hi) && |ranges[i].lo| == |ip|
    ensures InNone(nets, ip) <==> OutsideAll(ranges, Value(ip))
  {
    hide Matches, Value;
    forall i | 0 <= i < |nets|
      ensures |nets[i].base| == |nets[i].mask| == |ip|
      ensures Matches(nets[i].base, nets[i].mask, ip) <==> Value(ranges[i].lo) <= Value(ip) <= Value(ranges[i].hi)
    {
      RangeDecides(nets[i], ranges[i].p, ranges[i].lo, ranges[i].hi, ip);
    }
  }

  /** IsGlobalIP on IPv4 and IPv4-mapped addresses is exclusion from ten integer intervals. */
  lemma Global4IsOutside(ip: Address)
    requires To4(ip).Some?
    ensures IsGlobal(Some(ip)) <==> OutsideAll(RANGES4, Value(To4(ip).value))
  {
    hide HasRange, OutsideAll, InNone, Value;
    Rows4A();
    Rows4B();
    Rows4C();
    InNoneIsOutsideAll(LOCAL4, RANGES4, To4(ip).value);
  }

  /** On every other 16-byte address it is exclusion from four. */
  lemma Global6IsOutside(ip: Address)
    requires |ip| == 16 && To4(ip).None?
    ensures IsGlobal(Some(ip)) <==> OutsideAll(RANGES6, Value(ip))
  {
    hide HasRange, OutsideAll, InNone, Value;
    Rows6A();
    Rows6B();
    Rows6C();
    Rows6D();
    InNoneIsOutsideAll(LOCAL6, RANGES6, ip);
  }

  // ----- the client's truncation ------------------------------------------------------------------

  const MASK24: Address := [255, 255, 255, 0]
  const MASK56: Address := [255, 255, 255, 255, 255, 255, 255, 0, 0, 0, 0, 0, 0, 0, 0, 0]

  /** net.IP.Mask on an address of the mask's length. */
  function Masked(ip: Address, mask: Address): (r: Address)
    requires |ip| == |mask|
    ensures |r| == |ip|
  {
    seq(|ip|, i requires 0 <= i < |ip| => And(ip[i], mask[i]))
  }

  lemma ByteEnds(x: Byte)
    ensures And(x, 255) == x && And(x, 0) == 0
  {
    hide And;
    AndMaskByte(x, 8);
    AndZero(x);
  }

  /** Truncation keeps the bytes before n and clears the rest. */
  lemma MaskedIs(ip: Address, mask: Address, n: nat)
    requires |ip| == |mask| && n <= |ip|
    requires forall i :: 0 <= i < |ip| ==> mask[i] == if i < n then 255 else 0
    ensures forall i :: 0 <= i < |ip| ==> Masked(ip, mask)[i] == if i < n then ip[i] else 0
  {
    hide And;
    forall i | 0 <= i < |ip| ensures Masked(ip, mask)[i] == if i < n then ip[i] else 0 {
      ByteEnds(ip[i]);
    }
  }

  /** A net that does not look past byte n cannot tell the two addresses apart. */
  lemma FrontDecides(net: Net, a: Address, b: Address, n: nat)
    requires |net.base| == |net.mask| == |a| == |b| && n <= |a|
    requires forall i :: 0 <= i < n ==> a[i] == b[i]
    requires forall i :: n <= i < |a| ==> net.mask[i] == 0
    ensures Matches(net.base, net.mask, a) == Matches(net.base, net.mask, b)
  {
    hide And;
    forall i | n <= i < |a| ensures And(net.base[i], net.mask[i]) == And(a[i], net.mask[i]) == And(b[i], net.mask[i]) {
      AndZero(net.base[i]);
      AndZero(a[i]);
      AndZero(b[i]);
    }
    if forall i :: 0 <= i < n ==> And(net.base[i], net.mask[i]) == And(a[i], net.mask[i]) {
      assert Matches(net.base, net.mask, a) && Matches(net.base, net.mask, b);
    } else {
      var i :| 0 <= i < n && And(net.base[i], net.mask[i]) != And(a[i], net.mask[i]);
      assert !Matches(net.base, net.mask, a) && !Matches(net.base, net.mask, b);
    }
  }

  lemma DsLite(t: Address)
    requires |t| == 4 && t[3] == 0
    ensures Matches([192, 0, 0, 0], [255, 255, 255, 248], t) <==> t[0] == 192 && t[1] == 0 && t[2] == 0
  {
    hide And;
    ByteEnds(192);
    ByteEnds(0);
    ByteEnds(t[0]);
    ByteEnds(t[1]);
    ByteEnds(t[2]);
  }

  /** A global IPv4 address cut to /24 stays global exactly when it is outside 192.0.0.0/24. */
  lemma Truncated4StaysGlobalIff(ip: Address)
    requires |ip| == 4 && IsGlobal(Some(ip))
    ensures IsGlobal(Some(Masked(ip, MASK24))) <==> !(ip[0] == 192 && ip[1] == 0 && ip[2] == 0)
  {
    hide Matches, Masked;
    var t := Masked(ip, MASK24);
    MaskedIs(ip, MASK24, 3);
    DsLite(t);
    forall i | 0 <= i < |LOCAL4| && i != 6
      ensures Matches(LOCAL4[i].base, LOCAL4[i].mask, t) == Matches(LOCAL4[i].base, LOCAL4[i].mask, ip)
    {
      FrontDecides(LOCAL4[i], t, ip, 3);
    }
    assert LOCAL4[6] == Net([192, 0, 0, 0], [255, 255, 255, 248]);
  }

  ghost predicate Zeros(ip: Address, from: nat, until: nat)
    requires until <= |ip|
  {
    forall i :: from <= i < until ==> ip[i] == 0
  }

  /** Under a full byte mask a match is equality. */
  lemma MatchesFullBytes(net: Net, t: Address, n: nat)
    requires |net.base| == |net.mask| == |t| && n <= |t|
    requires forall i :: 0 <= i < n ==> net.mask[i] == 255
    requires forall i :: n <= i < |t| ==> net.base[i] == t[i]
    ensures Matches(net.base, net.mask, t) <==> forall i :: 0 <= i < n ==> net.base[i] == t[i]
  {
    hide And;
    forall i | 0 <= i < n ensures And(net.base[i], net.mask[i]) == net.base[i] && And(t[i], net.mask[i]) == t[i] {
      ByteEnds(net.base[i]);
      ByteEnds(t[i]);
    }
    if Matches(net.base, net.mask, t) {
      forall i | 0 <= i < n ensures net.base[i] == t[i] {
        assert And(net.base[i], net.mask[i]) == And(t[i], net.mask[i]);
      }
    }
  }

  /** On an address that is zero from byte 7 on, the two long IPv6 nets look at bytes 0 to 6 only. */
  lemma LongNets(t: Address)
    requires |t| == 16 && Zeros(t, 7, 16)
    ensures Matches(LOCAL6[0].base, LOCAL6[0].mask, t) <==> Zeros(t, 0, 7)
    ensures Matches(LOCAL6[1].base, LOCAL6[1].mask, t) <==> t[0] == 1 && Zeros(t, 1, 7)
  {
    hide Matches;
    MatchesFullBytes(LOCAL6[0], t, 7);
    MatchesFullBytes(LOCAL6[1], t, 7);
  }

  /** A global IPv6 address cut to /56 stays global exactly when it is outside ::/56 and 100::/56. */
  lemma Truncated6StaysGlobalIff(ip: Address)
    requires |ip| == 16 && To4(ip).None? && IsGlobal(Some(ip))
    ensures IsGlobal(Some(Masked(ip, MASK56))) <==> !Zeros(ip, 0, 7) && !(ip[0] == 1 && Zeros(ip, 1, 7))
  {
    hide Matches, Masked;
    var t := Masked(ip, MASK56);
    MaskedIs(ip, MASK56, 7);
    assert t[10] == 0;
    LongNets(t);
    FrontDecides(LOCAL6[2], t, ip, 7);
    FrontDecides(LOCAL6[3], t, ip, 7);
  }
}
