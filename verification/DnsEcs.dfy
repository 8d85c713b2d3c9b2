/** EDNS client-subnet addresses (RFC 7871 section 6): `parse_ecs` of src/dns.rs once the CIDR text is split and parsed. */
module DnsEcs {
  import opened BitVectors
  import opened Bytes
  import opened Wrappers
  import opened DnsMessage

  datatype EcsSubnet = EcsSubnet(family: nat, sourcePrefix: Byte, addrBytes: Octets)

  datatype EcsError = PrefixOutOfRange

  predicate ValidIp(ip: IpAddr) {
    |ip.octets| == if ip.V4? then 4 else 16
  }

  ghost function BitOf(b: bv8, i: nat): bool
    requires i < 8
  {
    match i
    case 0 => b & 0x80 != 0
    case 1 => b & 0x40 != 0
    case 2 => b & 0x20 != 0
    case 3 => b & 0x10 != 0
    case 4 => b & 0x08 != 0
    case 5 => b & 0x04 != 0
    case 6 => b & 0x02 != 0
    case _ => b & 0x01 != 0
  }

  ghost function OctetBit(b: Byte, i: nat): bool
    requires i < 8
  {
    BitOf(b as bv8, i)
  }

  /** Bit k of an octet string, the most significant bit of the first octet being bit 0. */
  ghost function Bit(s: Octets, k: nat): bool
    requires k < 8 * |s|
  {
    OctetBit(s[k / 8], k % 8)
  }

  /** `b & (0xFF << (8 - used))`. */
  function KeepHighBits(b: bv8, used: nat): bv8
    requires 0 < used < 8
  {
    b & (0xFF << (8 - used))
  }

  lemma KeepHighBitsBits(b: bv8, used: nat, i: nat)
    requires 0 < used < 8 && i < 8
    ensures BitOf(KeepHighBits(b, used), i) <==> i < used && BitOf(b, i)
  {
    match used
    case 1 =>
    case 2 =>
    case 3 =>
    case 4 =>
    case 5 =>
    case 6 =>
    case 7 =>
  }

  lemma ByteFromBits(a: bv8, b: bv8)
    requires forall i :: 0 <= i < 8 ==> (BitOf(a, i) <==> BitOf(b, i))
    ensures a == b
  {
    assert BitOf(a, 0) <==> BitOf(b, 0);
    assert BitOf(a, 1) <==> BitOf(b, 1);
    assert BitOf(a, 2) <==> BitOf(b, 2);
    assert BitOf(a, 3) <==> BitOf(b, 3);
    assert BitOf(a, 4) <==> BitOf(b, 4);
    assert BitOf(a, 5) <==> BitOf(b, 5);
    assert BitOf(a, 6) <==> BitOf(b, 6);
    assert BitOf(a, 7) <==> BitOf(b, 7);
  }

  lemma OctetFromBits(x: Byte, y: Byte)
    requires forall i :: 0 <= i < 8 ==> (OctetBit(x, i) <==> OctetBit(y, i))
    ensures x == y
  {
    hide BitOf;
    var p, q := x as bv8, y as bv8;
    forall i | 0 <= i < 8
      ensures BitOf(p, i) <==> BitOf(q, i)
    {
      assert OctetBit(x, i) <==> OctetBit(y, i);
    }
    ByteFromBits(p, q);
    OctetRoundTrip(x);
    OctetRoundTrip(y);
  }

  lemma MaskedOctetBit(b: Byte, used: nat, i: nat)
    requires 0 < used < 8 && i < 8
    ensures OctetBit(KeepHighBits(b as bv8, used) as Byte, i) <==> i < used && OctetBit(b, i)
  {
    hide KeepHighBits, BitOf;
    KeepHighBitsBits(b as bv8, used, i);
    BitsRoundTrip(KeepHighBits(b as bv8, used));
  }

  /** The address octets sent for a prefix: truncated to whole octets, the last one masked. */
  ghost function Truncated(octets: Octets, prefix: nat): (s: Octets)
    requires prefix <= 8 * |octets|
    ensures |s| == (prefix + 7) / 8
  {
    var nbytes := (prefix + 7) / 8;
    if prefix % 8 == 0 then octets[..nbytes]
    else octets[..nbytes - 1] + [KeepHighBits(octets[nbytes - 1] as bv8, prefix % 8) as Byte]
  }

  /** The sent octets agree with the address on the prefix and are zero after it. */
  lemma TruncatedBits(octets: Octets, prefix: nat, k: nat)
    requires prefix <= 8 * |octets| && k < 8 * |Truncated(octets, prefix)|
    ensures Bit(Truncated(octets, prefix), k) <==> k < prefix && Bit(octets, k)
  {
    hide KeepHighBits, OctetBit;
    if prefix % 8 != 0 && k / 8 == prefix / 8 {
      MaskedOctetBit(octets[k / 8], prefix % 8, k % 8);
    }
  }

  lemma SameOctet(a: Octets, b: Octets, prefix: nat, j: nat)
    requires |a| == |b| && prefix <= 8 * |a| && j < (prefix + 7) / 8
    requires forall k :: 0 <= k < prefix ==> (Bit(a, k) <==> Bit(b, k))
    ensures Truncated(a, prefix)[j] == Truncated(b, prefix)[j]
  {
    hide KeepHighBits, OctetBit, Truncated;
    var x, y := Truncated(a, prefix)[j], Truncated(b, prefix)[j];
    forall i | 0 <= i < 8
      ensures OctetBit(x, i) <==> OctetBit(y, i)
    {
      var k := 8 * j + i;
      TruncatedBits(a, prefix, k);
      TruncatedBits(b, prefix, k);
      assert k / 8 == j && k % 8 == i;
    }
    OctetFromBits(x, y);
  }

  /** Two addresses of one family are sent alike at a prefix exactly when they agree on its bits. */
  lemma TruncationIsCanonical(a: Octets, b: Octets, prefix: nat)
    requires |a| == |b| && prefix <= 8 * |a|
    ensures Truncated(a, prefix) == Truncated(b, prefix) <==> forall k :: 0 <= k < prefix ==> (Bit(a, k) <==> Bit(b, k))
  {
    hide KeepHighBits, OctetBit, Truncated;
    if Truncated(a, prefix) == Truncated(b, prefix) {
      forall k | 0 <= k < prefix
        ensures Bit(a, k) <==> Bit(b, k)
      {
        TruncatedBits(a, prefix, k);
        TruncatedBits(b, prefix, k);
      }
    }
    if forall k :: 0 <= k < prefix ==> (Bit(a, k) <==> Bit(b, k)) {
      forall j | 0 <= j < (prefix + 7) / 8
        ensures Truncated(a, prefix)[j] == Truncated(b, prefix)[j]
      {
        SameOctet(a, b, prefix, j);
      }
    }
  }

  lemma TruncatedCases(octets: Octets, prefix: nat)
    requires prefix <= 8 * |octets|
    ensures var whole := octets[..(prefix + 7) / 8];
            && (prefix % 8 == 0 ==> Truncated(octets, prefix) == whole)
            && (prefix % 8 != 0 ==>
                  var last := |whole| - 1;
                  Truncated(octets, prefix) == whole[last := KeepHighBits(whole[last] as bv8, prefix % 8) as Byte])
  {
    hide KeepHighBits;
  }

  method ParseEcs(ip: IpAddr, prefix: Byte) returns (r: Result<EcsSubnet, EcsError>)
    requires ValidIp(ip)
    ensures r.Err? <==> prefix > 8 * |ip.octets|
    ensures r.Ok? ==> r.value == EcsSubnet(if ip.V4? then 1 else 2, prefix, Truncated(ip.octets, prefix))
  {
    hide KeepHighBits, Truncated;
    var family, full;
    match ip {
      case V4(octets) =>
        if prefix > 32 {
          return Err(PrefixOutOfRange);
        }
        family, full := 1, octets;
      case V6(octets) =>
        if prefix > 128 {
          return Err(PrefixOutOfRange);
        }
        family, full := 2, octets;
    }
    var nbytes := (prefix + 7) / 8;
    var addrBytes := full[..nbytes];
    if |addrBytes| > 0 {
      var usedBits := prefix % 8;
      if usedBits != 0 {
        addrBytes := addrBytes[|addrBytes| - 1 := KeepHighBits(addrBytes[|addrBytes| - 1] as bv8, usedBits) as Byte];
      }
    }
    TruncatedCases(full, prefix);
    return Ok(EcsSubnet(family, prefix, addrBytes));
  }
}
