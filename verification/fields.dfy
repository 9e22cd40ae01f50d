/**
 The fields `ID::uuid4` and `ID::uuid7` write into the 16 random octets:
 the 4-bit version of RFC 9562 section 4.2 in the high nibble of octet 6,
 the variant of RFC 9562 section 4.1 in the top two bits of octet 8, and,
 for version 7, the 48-bit big-endian `unix_ts_ms` field of RFC 9562
 section 5.7 in octets 0 to 5.
 */
module Fields {
  import opened Bytes

  /** The UUID versions the generator produces. */
  datatype Version = V4 | V7 {
    /** The value of the version field: 4 is random, 7 is Unix-time-ordered. */
    function Number(): bv8 {
      if V4? then 4 else 7
    }
  }

  const UuidLength: nat := 16
  const VersionOctet: nat := 6
  const VariantOctet: nat := 8
  const TimestampLength: nat := 6
  /** 2^48: one more than the largest `unix_ts_ms` value. */
  const TimestampModulus: nat := 0x1_0000_0000_0000

  /** Octet 6 with its high nibble replaced by `version`: `(x & 0x0f) | (version << 4)`. */
  function SetVersion(x: bv8, version: bv8): (r: bv8)
    requires version < 16
    ensures r >> 4 == version
    ensures r & 0x0F == x & 0x0F
  {
    (x & 0x0F) | (version << 4)
  }

  /** Octet 8 with its top two bits set to `10`: `(x & 0x3f) | 0x80`. */
  function SetVariant(x: bv8): (r: bv8)
    ensures r >> 6 == 2
    ensures r & 0x3F == x & 0x3F
  {
    (x & 0x3F) | 0x80
  }

  /** `b` carries version `v` and the RFC 9562 variant. */
  predicate IsPatched(b: seq<bv8>, v: Version) {
    && |b| == UuidLength
    && b[VersionOctet] >> 4 == v.Number()
    && b[VariantOctet] >> 6 == 2
  }

  /**
   `a` and `b` agree on every random bit from octet `from` on that the
   version/variant patch keeps: all those octets but 6 and 8, the low
   nibble of octet 6 and the low six bits of octet 8.
   */
  predicate SameRandomBits(a: seq<bv8>, b: seq<bv8>, from: nat) {
    && |a| == UuidLength && |b| == UuidLength
    && (forall i :: from <= i < UuidLength && i != VersionOctet && i != VariantOctet ==> a[i] == b[i])
    && a[VersionOctet] & 0x0F == b[VersionOctet] & 0x0F
    && a[VariantOctet] & 0x3F == b[VariantOctet] & 0x3F
  }

  /** The version and variant patch both generators apply to their 16 octets. */
  function Patch(b: seq<bv8>, v: Version): (r: seq<bv8>)
    requires |b| == UuidLength
    ensures IsPatched(r, v)
    ensures SameRandomBits(r, b, 0)
  {
    b[VersionOctet := SetVersion(b[VersionOctet], v.Number())][VariantOctet := SetVariant(b[VariantOctet])]
  }

  /** Two patched arrays that agree outside the fields are equal. */
  lemma PatchedDetermined(a: seq<bv8>, b: seq<bv8>, v: Version)
    requires IsPatched(a, v) && IsPatched(b, v)
    requires SameRandomBits(a, b, 0)
    ensures a == b
  {
    assert a[VersionOctet] == b[VersionOctet];
    assert a[VariantOctet] == b[VariantOctet];
    assert forall i :: 0 <= i < UuidLength ==> a[i] == b[i];
  }

  /** Patching an already patched array changes nothing. */
  lemma PatchIdempotent(b: seq<bv8>, v: Version)
    requires |b| == UuidLength
    ensures Patch(Patch(b, v), v) == Patch(b, v)
  {
    PatchFixedPoint(Patch(b, v), v);
  }

  /** The patch leaves `b` alone exactly when `b` already carries the version and variant. */
  lemma PatchFixedPoint(b: seq<bv8>, v: Version)
    requires |b| == UuidLength
    ensures Patch(b, v) == b <==> IsPatched(b, v)
  {
    if IsPatched(b, v) {
      PatchedDetermined(Patch(b, v), b, v);
    }
  }

  /** Two inputs patch to the same array exactly when they agree on the kept bits. */
  lemma PatchEqual(a: seq<bv8>, b: seq<bv8>, v: Version)
    requires |a| == UuidLength && |b| == UuidLength
    ensures Patch(a, v) == Patch(b, v) <==> SameRandomBits(a, b, 0)
  {
    if SameRandomBits(a, b, 0) {
      PatchedDetermined(Patch(a, v), Patch(b, v), v);
    }
  }

  /**
   The six `unix_ts_ms` octets, most significant first:
   `(ts >> 40) & 0xff`, `(ts >> 32) & 0xff`, ..., `(ts >> 0) & 0xff`.
   For the nonnegative millisecond count, a right shift by `k` is
   division by `2^k` and masking with `0xff` is the remainder by 256.
   */
  function TimestampBytes(ts: nat): (r: seq<bv8>)
    ensures |r| == TimestampLength
  {
    [ LowByte(ts / 0x100_0000_0000),
      LowByte(ts / 0x1_0000_0000),
      LowByte(ts / 0x100_0000),
      LowByte(ts / 0x1_0000),
      LowByte(ts / 0x100),
      LowByte(ts / 0x1) ]
  }

  /** The six octets are the 6-byte big-endian encoding of `ts`. */
  lemma TimestampBytesAreBigEndian(ts: nat)
    ensures TimestampBytes(ts) == BeEncode(ts, TimestampLength)
  {
    var t, e := TimestampBytes(ts), BeEncode(ts, TimestampLength);
    assert Pow256(0) == 1;
    assert Pow256(1) == 0x100;
    assert Pow256(2) == 0x1_0000;
    assert Pow256(3) == 0x100_0000;
    assert Pow256(4) == 0x1_0000_0000;
    assert Pow256(5) == 0x100_0000_0000;
    forall i | 0 <= i < TimestampLength
      ensures t[i] == e[i]
    {
      BeEncodeByte(ts, TimestampLength, i);
    }
  }

  /** Reading the six octets back gives `ts` modulo 2^48. */
  lemma TimestampValue(ts: nat)
    ensures BeValue(TimestampBytes(ts)) == ts % TimestampModulus
  {
    TimestampBytesAreBigEndian(ts);
    assert Pow256(TimestampLength) == TimestampModulus;
  }

  /** The timestamp round trip: reading the octets back recovers `ts` exactly when it is below 2^48. */
  lemma TimestampRoundTrip(ts: nat)
    ensures BeValue(TimestampBytes(ts)) == ts <==> ts < TimestampModulus
  {
    TimestampBytesAreBigEndian(ts);
    assert Pow256(TimestampLength) == TimestampModulus;
    DecodeEncode(ts, TimestampLength);
  }

  /** Every six octets are the timestamp octets of their own big-endian value. */
  lemma TimestampBytesOfValue(s: seq<bv8>)
    requires |s| == TimestampLength
    ensures TimestampBytes(BeValue(s)) == s
  {
    TimestampBytesAreBigEndian(BeValue(s));
    EncodeDecode(s);
  }

  /** Overwrites octets 0 to 5 of `b` with the timestamp octets of `ts`. */
  function StoreTimestamp(b: seq<bv8>, ts: nat): (r: seq<bv8>)
    requires |b| == UuidLength
    ensures |r| == UuidLength
    ensures BeValue(r[..TimestampLength]) == ts % TimestampModulus
    ensures r[TimestampLength..] == b[TimestampLength..]
  {
    var r := TimestampBytes(ts) + b[TimestampLength..];
    assert r[..TimestampLength] == TimestampBytes(ts);
    TimestampValue(ts);
    r
  }

  /** Storing the value octets 0 to 5 already hold changes nothing. */
  lemma StoreOwnTimestamp(b: seq<bv8>)
    requires |b| == UuidLength
    ensures StoreTimestamp(b, BeValue(b[..TimestampLength])) == b
  {
    var r := StoreTimestamp(b, BeValue(b[..TimestampLength]));
    assert TimestampModulus == Pow256(TimestampLength);
    DecodeEncode(BeValue(b[..TimestampLength]), TimestampLength);
    EncodeDecode(b[..TimestampLength]);
    DivModUnique(BeValue(b[..TimestampLength]), TimestampModulus, 0, BeValue(b[..TimestampLength]));
    BeValueInjective(r[..TimestampLength], b[..TimestampLength]);
    assert r == r[..TimestampLength] + r[TimestampLength..];
    assert b == b[..TimestampLength] + b[TimestampLength..];
  }

  /**
   Two stores keep the same random bits exactly when the timestamps agree
   modulo 2^48 and the inputs agree on the random bits after octet 5.
   */
  lemma StoreTimestampSame(a: seq<bv8>, ta: nat, b: seq<bv8>, tb: nat)
    requires |a| == UuidLength && |b| == UuidLength
    ensures SameRandomBits(StoreTimestamp(a, ta), StoreTimestamp(b, tb), 0)
        <==> ta % TimestampModulus == tb % TimestampModulus && SameRandomBits(a, b, TimestampLength)
  {
    var sa, sb := StoreTimestamp(a, ta), StoreTimestamp(b, tb);
    forall i | TimestampLength <= i < UuidLength
      ensures sa[i] == a[i] && sb[i] == b[i]
    {
      assert sa[i] == sa[TimestampLength..][i - TimestampLength];
      assert sb[i] == sb[TimestampLength..][i - TimestampLength];
    }
    if SameRandomBits(sa, sb, 0) {
      assert sa[..TimestampLength] == sb[..TimestampLength];
    }
    if ta % TimestampModulus == tb % TimestampModulus {
      BeValueInjective(sa[..TimestampLength], sb[..TimestampLength]);
      forall i | 0 <= i < TimestampLength
        ensures sa[i] == sb[i]
      {
        assert sa[i] == sa[..TimestampLength][i];
        assert sb[i] == sb[..TimestampLength][i];
      }
    }
  }
}
