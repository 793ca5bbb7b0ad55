/** The keys of the metrics tables and their byte order (internal/metrics/stat.go). */
module MetricKeys {
  import opened Bytes
  import opened Wrappers

  const UNDERSCORE: Byte := 95

  /** Numbers that fit a non-negative int32 and a non-negative int64. */
  type Version = v: nat | v < 0x8000_0000
  type Int63 = n: nat | n < TWO_TO_THE_63

  /** Formatted times contain no underscore. */
  predicate IsTime(t: ByteString) { UNDERSCORE !in t }

  /** Negative numbers are encoded as 0. */
  function Int32ToBigEndian(i: int): ByteString { BigEndian(if i < 0 then 0 else i, 4) }

  function Int64ToBigEndian(i: int): ByteString { BigEndian(if i < 0 then 0 else i, 8) }

  /** What every key starts with. */
  function Head(time: ByteString, version: Version): ByteString
  {
    time + [UNDERSCORE] + Int32ToBigEndian(version)
  }

  function SumKey(time: ByteString, version: Version, serverId: Int63): ByteString
  {
    Head(time, version) + Int64ToBigEndian(serverId)
  }

  function ValueKey(time: ByteString, version: Version, serverId: Int63, value: int, hash: ByteString): ByteString
  {
    SumKey(time, version, serverId) + (Int64ToBigEndian(value) + hash)
  }

  function FullKey(time: ByteString, version: Version, hash: ByteString): ByteString
  {
    Head(time, version) + hash
  }

  // ---------- decoding ----------

  /** The first position of the underscore, or -1. */
  function TimeIndex(b: ByteString): (i: int)
    ensures -1 <= i < |b|
    ensures i >= 0 ==> b[i] == UNDERSCORE && UNDERSCORE !in b[..i]
    ensures i < 0 ==> UNDERSCORE !in b
  {
    if b == [] then -1
    else if b[0] == UNDERSCORE then 0
    else
      var i := TimeIndex(b[1..]);
      assert b == [b[0]] + b[1..];
      if i < 0 then -1 else (assert b[..i + 1] == [b[0]] + b[1..][..i]; i + 1)
  }

  lemma {:induction false} TimeIndexOfKey(time: ByteString, rest: ByteString)
    requires IsTime(time)
    ensures TimeIndex(time + [UNDERSCORE] + rest) == |time|
  {
    if time != [] {
      assert (time + [UNDERSCORE] + rest)[1..] == time[1..] + [UNDERSCORE] + rest;
      TimeIndexOfKey(time[1..], rest);
    }
  }

  datatype DecodedValueKey = DecodedValueKey(serverId: nat, time: ByteString, version: nat, value: nat, hash: ByteString)

  const ZERO_VALUE_KEY := DecodedValueKey(0, [], 0, 0, [])

  /** A key without an underscore gives zeros and no error. */
  function DecodeValueKey(b: ByteString): Result<DecodedValueKey, string>
  {
    var i := TimeIndex(b);
    if i < 0 then Success(ZERO_VALUE_KEY)
    else
      var r := b[i + 1..];
      if |r| < 20 + 1 then Failure("invalid value key")
      else Success(DecodedValueKey(FromBigEndian(r[4..12]), b[..i], FromBigEndian(r[..4]), FromBigEndian(r[12..20]), r[20..]))
  }

  lemma ValueKeyRoundTrip(time: ByteString, version: Version, serverId: Int63, value: Int63, hash: ByteString)
    requires IsTime(time) && hash != []
    ensures DecodeValueKey(ValueKey(time, version, serverId, value, hash))
         == Success(DecodedValueKey(serverId, time, version, value, hash))
  {
    var rest := Int32ToBigEndian(version) + Int64ToBigEndian(serverId) + (Int64ToBigEndian(value) + hash);
    var b := ValueKey(time, version, serverId, value, hash);
    assert b == time + [UNDERSCORE] + rest;
    TimeIndexOfKey(time, rest);
    assert b[|time| + 1..] == rest && b[..|time|] == time;
    assert rest[..4] == Int32ToBigEndian(version) && rest[4..12] == Int64ToBigEndian(serverId)
        && rest[12..20] == Int64ToBigEndian(value) && rest[20..] == hash;
    PowersOf256();
    BigEndianRoundTrip(version, 4);
    BigEndianRoundTrip(serverId, 8);
    BigEndianRoundTrip(value, 8);
  }

  datatype DecodedSumKey = DecodedSumKey(serverId: nat, time: ByteString, version: nat)

  function DecodeSumKey(b: ByteString): Result<DecodedSumKey, string>
  {
    var i := TimeIndex(b);
    if i < 0 then Success(DecodedSumKey(0, [], 0))
    else
      var r := b[i + 1..];
      if |r| < 12 then Failure("invalid sum key")
      else Success(DecodedSumKey(FromBigEndian(r[4..12]), b[..i], FromBigEndian(r[..4])))
  }

  lemma SumKeyRoundTrip(time: ByteString, version: Version, serverId: Int63)
    requires IsTime(time)
    ensures DecodeSumKey(SumKey(time, version, serverId)) == Success(DecodedSumKey(serverId, time, version))
  {
    var rest := Int32ToBigEndian(version) + Int64ToBigEndian(serverId);
    var b := SumKey(time, version, serverId);
    assert b == time + [UNDERSCORE] + rest;
    TimeIndexOfKey(time, rest);
    assert b[|time| + 1..] == rest && b[..|time|] == time;
    assert rest[..4] == Int32ToBigEndian(version) && rest[4..12] == Int64ToBigEndian(serverId);
    PowersOf256();
    BigEndianRoundTrip(version, 4);
    BigEndianRoundTrip(serverId, 8);
  }

  /** The (time, version) that a key of any of the tables starts with. */
  function HeadOf(b: ByteString): (ByteString, nat)
  {
    var i := TimeIndex(b);
    if i < 0 || |b| < i + 5 then ([], 0) else (b[..i], FromBigEndian(b[i + 1..i + 5]))
  }

  lemma HeadOfKey(time: ByteString, version: Version, rest: ByteString)
    requires IsTime(time)
    ensures HeadOf(Head(time, version) + rest) == (time, version)
  {
    var b := Head(time, version) + rest;
    assert b == time + [UNDERSCORE] + (Int32ToBigEndian(version) + rest);
    TimeIndexOfKey(time, Int32ToBigEndian(version) + rest);
    assert b[..|time|] == time && b[|time| + 1..|time| + 5] == Int32ToBigEndian(version);
    PowersOf256();
    BigEndianRoundTrip(version, 4);
  }

  // ---------- sums ----------

  function EncodeSumValue(count: nat, total: nat): (b: ByteString)
    ensures |b| == 16
  {
    BigEndian(count, 8) + BigEndian(total, 8)
  }

  function DecodeSumValue(b: ByteString): (nat, nat)
  {
    if |b| != 16 then (0, 0) else (FromBigEndian(b[..8]), FromBigEndian(b[8..]))
  }

  lemma SumValueRoundTrip(count: nat, total: nat)
    requires count < TWO_TO_THE_64 && total < TWO_TO_THE_64
    ensures DecodeSumValue(EncodeSumValue(count, total)) == (count, total)
  {
    PowersOf256();
    BigEndianRoundTrip(count, 8);
    BigEndianRoundTrip(total, 8);
    assert EncodeSumValue(count, total)[..8] == BigEndian(count, 8);
    assert EncodeSumValue(count, total)[8..] == BigEndian(total, 8);
  }

  // ---------- byte order ----------

  /** Times with the underscore after them never compare equal on a proper prefix, so different times decide. */
  lemma {:induction false} TimesDecide(t: ByteString, x: ByteString, u: ByteString, y: ByteString)
    requires IsTime(t) && IsTime(u) && t != u
    ensures Less(t + [UNDERSCORE] + x, u + [UNDERSCORE] + y) == Less(t + [UNDERSCORE], u + [UNDERSCORE])
  {
    if t != [] && u != [] && t[0] == u[0] {
      assert t == [t[0]] + t[1..] && u == [u[0]] + u[1..];
      TimesDecide(t[1..], x, u[1..], y);
      assert (t + [UNDERSCORE] + x)[1..] == t[1..] + [UNDERSCORE] + x;
      assert (u + [UNDERSCORE] + y)[1..] == u[1..] + [UNDERSCORE] + y;
      assert (t + [UNDERSCORE])[1..] == t[1..] + [UNDERSCORE];
      assert (u + [UNDERSCORE])[1..] == u[1..] + [UNDERSCORE];
    } else {
      var a, b := t + [UNDERSCORE] + x, u + [UNDERSCORE] + y;
      assert a[0] == (t + [UNDERSCORE])[0] && b[0] == (u + [UNDERSCORE])[0];
      assert a[0] != b[0] by {
        if t == [] {
          assert u[0] != UNDERSCORE;
        } else if u == [] {
          assert t[0] != UNDERSCORE;
        }
      }
    }
  }

  /** Different heads decide, whatever follows. */
  lemma HeadsDecide(t: ByteString, v: Version, x: ByteString, u: ByteString, w: Version, y: ByteString)
    requires IsTime(t) && IsTime(u) && (t, v) != (u, w)
    ensures Less(Head(t, v) + x, Head(u, w) + y) == Less(Head(t, v), Head(u, w))
  {
    var bv, bw := Int32ToBigEndian(v), Int32ToBigEndian(w);
    assert Head(t, v) + x == t + [UNDERSCORE] + (bv + x) && Head(u, w) + y == u + [UNDERSCORE] + (bw + y);
    if t != u {
      TimesDecide(t, bv + x, u, bw + y);
      TimesDecide(t, bv, u, bw);
    } else {
      PowersOf256();
      BigEndianOrder(v, w, 4);
      LessSamePrefix(t + [UNDERSCORE], bv + x, bw + y);
      LessSamePrefix(t + [UNDERSCORE], bv, bw);
      LessDecided(bv, x, bw, y);
    }
  }

  /** For one time, byte order of value keys is the numeric order of (version, server, value). */
  lemma ValueKeyOrder(time: ByteString, v: Version, server: Int63, value: Int63, hash: ByteString,
                      v': Version, server': Int63, value': Int63, hash': ByteString)
    requires IsTime(time) && (v, server, value) != (v', server', value')
    ensures Less(ValueKey(time, v, server, value, hash), ValueKey(time, v', server', value', hash'))
       <==> v < v' || (v == v' && (server < server' || (server == server' && value < value')))
  {
    PowersOf256();
    var s, s', x, x' := Int64ToBigEndian(server), Int64ToBigEndian(server'), Int64ToBigEndian(value), Int64ToBigEndian(value');
    var k, k' := ValueKey(time, v, server, value, hash), ValueKey(time, v', server', value', hash');
    assert k == Head(time, v) + (s + (x + hash)) && k' == Head(time, v') + (s' + (x' + hash'));
    if v != v' {
      HeadsDecide(time, v, s + (x + hash), time, v', s' + (x' + hash'));
      BigEndianOrder(v, v', 4);
      LessSamePrefix(time + [UNDERSCORE], Int32ToBigEndian(v), Int32ToBigEndian(v'));
    } else {
      LessSamePrefix(Head(time, v), s + (x + hash), s' + (x' + hash'));
      BigEndianOrder(server, server', 8);
      if server != server' {
        LessDecided(s, x + hash, s', x' + hash');
      } else {
        LessSamePrefix(s, x + hash, x' + hash');
        BigEndianOrder(value, value', 8);
        LessDecided(x, hash, x', hash');
      }
    }
  }

  // ---------- the cutoff of CleanExpired ----------

  /** One byte string for all three tables. */
  function Cutoff(expiresTime: ByteString, version: Version): ByteString
  {
    Head(expiresTime, version) + [0xFF, 0xFF]
  }

  /** What can follow the head of a key: digits of a hash, or a server id; never a byte 0xFF. */
  predicate IsSuffix(x: ByteString)
  {
    x != [] ==> x[0] < 0xFF
  }

  /** Whether the cutoff removes a key depends on its time and version alone. */
  lemma CutoffSeesHeadOnly(time: ByteString, v: Version, x: ByteString, expires: ByteString, w: Version)
    requires IsTime(time) && IsTime(expires) && IsSuffix(x)
    ensures Less(Head(time, v) + x, Cutoff(expires, w))
       <==> (time, v) == (expires, w) || Less(Head(time, v), Head(expires, w))
  {
    if (time, v) == (expires, w) {
      LessSamePrefix(Head(time, v), x, [0xFF, 0xFF]);
    } else {
      HeadsDecide(time, v, x, expires, w, [0xFF, 0xFF]);
    }
  }

  /** With the time of the cutoff itself, the versions up to the current one go. */
  lemma CutoffAtSameTime(time: ByteString, v: Version, x: ByteString, w: Version)
    requires IsTime(time) && IsSuffix(x)
    ensures Less(Head(time, v) + x, Cutoff(time, w)) <==> v <= w
  {
    CutoffSeesHeadOnly(time, v, x, time, w);
    if v != w {
      PowersOf256();
      BigEndianOrder(v, w, 4);
      LessSamePrefix(time + [UNDERSCORE], Int32ToBigEndian(v), Int32ToBigEndian(w));
    }
  }

  lemma ServerIsSuffix(serverId: Int63, rest: ByteString)
    ensures IsSuffix(Int64ToBigEndian(serverId) + rest)
  {
    PowersOf256();
    assert Pow256(8) == 256 * Pow256(7);
    LeadingByte(serverId, 8, 0x80);
  }
}
