/** The fixed-size record at the start of every cache file (internal/caches/storage_file.go). */
module CacheFormat {
  import opened Bytes
  import opened ByteFile

  const SIZE_EXPIRES_AT: nat := 4
  const OFFSET_STATUS: nat := SIZE_EXPIRES_AT
  const SIZE_STATUS: nat := 3
  const OFFSET_URL_LENGTH: nat := OFFSET_STATUS + SIZE_STATUS
  const SIZE_URL_LENGTH: nat := 4
  const OFFSET_HEADER_LENGTH: nat := OFFSET_URL_LENGTH + SIZE_URL_LENGTH
  const SIZE_HEADER_LENGTH: nat := 4
  const OFFSET_BODY_LENGTH: nat := OFFSET_HEADER_LENGTH + SIZE_HEADER_LENGTH
  const SIZE_BODY_LENGTH: nat := 8
  const SIZE_META: nat := OFFSET_BODY_LENGTH + SIZE_BODY_LENGTH

  type Status = s: int | 100 <= s <= 999 witness 200

  /** openWriter replaces an impossible status by 200. */
  function StatusToWrite(status: int): (s: Status)
    ensures 100 <= status <= 999 ==> s == status
    ensures !(100 <= status <= 999) ==> s == 200
  {
    if status > 999 || status < 100 then 200 else status
  }

  function StatusDigits(s: Status): (b: ByteString)
    ensures |b| == SIZE_STATUS
  {
    [48 + s / 100, 48 + s / 10 % 10, 48 + s % 10]
  }

  /** Three decimal digits, or 0 when they are not digits. */
  function StatusOfDigits(b: ByteString): (s: int)
    requires |b| == SIZE_STATUS
  {
    var hundreds: int, tens: int, ones: int := b[0], b[1], b[2];
    if forall i :: 0 <= i < 3 ==> 48 <= b[i] <= 57 then
      (hundreds - 48) * 100 + (tens - 48) * 10 + (ones - 48)
    else 0
  }

  /** The record; PutUint32 and PutUint64 keep the low 32 and 64 bits. */
  function Meta(expiresAt: nat, status: Status, headerLength: nat, bodyLength: nat): (m: ByteString)
    ensures |m| == SIZE_META
  {
    BigEndian(expiresAt, SIZE_EXPIRES_AT) + StatusDigits(status) + BigEndian(0, SIZE_URL_LENGTH)
    + BigEndian(headerLength, SIZE_HEADER_LENGTH) + BigEndian(bodyLength, SIZE_BODY_LENGTH)
  }

  function ExpiresAtOf(m: ByteString): nat
    requires |m| >= SIZE_META
  {
    FromBigEndian(m[..SIZE_EXPIRES_AT])
  }

  function StatusOf(m: ByteString): int
    requires |m| >= SIZE_META
  {
    StatusOfDigits(m[OFFSET_STATUS..OFFSET_URL_LENGTH])
  }

  function URLLengthOf(m: ByteString): nat
    requires |m| >= SIZE_META
  {
    FromBigEndian(m[OFFSET_URL_LENGTH..OFFSET_HEADER_LENGTH])
  }

  function HeaderLengthOf(m: ByteString): nat
    requires |m| >= SIZE_META
  {
    FromBigEndian(m[OFFSET_HEADER_LENGTH..OFFSET_BODY_LENGTH])
  }

  function BodyLengthOf(m: ByteString): nat
    requires |m| >= SIZE_META
  {
    FromBigEndian(m[OFFSET_BODY_LENGTH..SIZE_META])
  }

  lemma MetaParts(expiresAt: nat, status: Status, headerLength: nat, bodyLength: nat, rest: ByteString)
    ensures var m := Meta(expiresAt, status, headerLength, bodyLength) + rest;
      && m[..SIZE_EXPIRES_AT] == BigEndian(expiresAt, SIZE_EXPIRES_AT)
      && m[OFFSET_STATUS..OFFSET_URL_LENGTH] == StatusDigits(status)
      && m[OFFSET_URL_LENGTH..OFFSET_HEADER_LENGTH] == BigEndian(0, SIZE_URL_LENGTH)
      && m[OFFSET_HEADER_LENGTH..OFFSET_BODY_LENGTH] == BigEndian(headerLength, SIZE_HEADER_LENGTH)
      && m[OFFSET_BODY_LENGTH..SIZE_META] == BigEndian(bodyLength, SIZE_BODY_LENGTH)
  {
  }

  lemma StatusRoundTrip(s: Status)
    ensures StatusOfDigits(StatusDigits(s)) == s
  {
    assert 0 <= s / 100 <= 9 && 0 <= s / 10 % 10 <= 9 && 0 <= s % 10 <= 9;
  }

  /** Where the fields of a record lie. */
  lemma MetaLayout(expiresAt: nat, status: Status, headerLength: nat, bodyLength: nat)
    ensures var m := Meta(expiresAt, status, headerLength, bodyLength);
      && |m| == 23
      && m[0..4] == BigEndian(expiresAt, 4) && m[7..11] == [0, 0, 0, 0]
      && m[4..7] == [48 + status / 100, 48 + status / 10 % 10, 48 + status % 10]
      && m[11..15] == BigEndian(headerLength, 4) && m[15..23] == BigEndian(bodyLength, 8)
  {
    MetaParts(expiresAt, status, headerLength, bodyLength, []);
    assert Meta(expiresAt, status, headerLength, bodyLength) + [] == Meta(expiresAt, status, headerLength, bodyLength);
    assert BigEndian(0, 4) == [0, 0, 0, 0];
  }

  /** Every field of a written record is read back, whatever follows the record. */
  lemma MetaRoundTrip(expiresAt: nat, status: Status, headerLength: nat, bodyLength: nat, rest: ByteString)
    requires expiresAt < TWO_TO_THE_32 && headerLength < TWO_TO_THE_32 && bodyLength < TWO_TO_THE_64
    ensures var m := Meta(expiresAt, status, headerLength, bodyLength) + rest;
      && ExpiresAtOf(m) == expiresAt
      && StatusOf(m) == status
      && URLLengthOf(m) == 0
      && HeaderLengthOf(m) == headerLength
      && BodyLengthOf(m) == bodyLength
  {
    PowersOf256();
    StatusRoundTrip(status);
    MetaParts(expiresAt, status, headerLength, bodyLength, rest);
    BigEndianRoundTrip(expiresAt, SIZE_EXPIRES_AT);
    BigEndianRoundTrip(0, SIZE_URL_LENGTH);
    BigEndianRoundTrip(headerLength, SIZE_HEADER_LENGTH);
    BigEndianRoundTrip(bodyLength, SIZE_BODY_LENGTH);
  }

  /** Writing a header length at its place changes that field alone. */
  lemma OverlayHeaderLength(expiresAt: nat, status: Status, h: nat, b: nat, rest: ByteString, headerLength: nat)
    ensures Overlay(Meta(expiresAt, status, h, b) + rest, OFFSET_HEADER_LENGTH, BigEndian(headerLength, SIZE_HEADER_LENGTH))
         == Meta(expiresAt, status, headerLength, b) + rest
  {
    OverlayAt(Meta(expiresAt, status, h, b) + rest, OFFSET_HEADER_LENGTH, BigEndian(headerLength, SIZE_HEADER_LENGTH));
  }

  lemma OverlayBodyLength(expiresAt: nat, status: Status, h: nat, b: nat, rest: ByteString, bodyLength: nat)
    ensures Overlay(Meta(expiresAt, status, h, b) + rest, OFFSET_BODY_LENGTH, BigEndian(bodyLength, SIZE_BODY_LENGTH))
         == Meta(expiresAt, status, h, bodyLength) + rest
  {
    OverlayAt(Meta(expiresAt, status, h, b) + rest, OFFSET_BODY_LENGTH, BigEndian(bodyLength, SIZE_BODY_LENGTH));
  }

  /** The fields lie within the record. */
  lemma FieldsOfRecord(data: ByteString)
    requires |data| >= SIZE_META
    ensures var m := data[..SIZE_META];
      && ExpiresAtOf(m) == ExpiresAtOf(data) && StatusOf(m) == StatusOf(data) && URLLengthOf(m) == URLLengthOf(data)
      && HeaderLengthOf(m) == HeaderLengthOf(data) && BodyLengthOf(m) == BodyLengthOf(data)
  {
    var m := data[..SIZE_META];
    assert m[..SIZE_EXPIRES_AT] == data[..SIZE_EXPIRES_AT];
    assert m[OFFSET_STATUS..OFFSET_URL_LENGTH] == data[OFFSET_STATUS..OFFSET_URL_LENGTH];
    assert m[OFFSET_URL_LENGTH..OFFSET_HEADER_LENGTH] == data[OFFSET_URL_LENGTH..OFFSET_HEADER_LENGTH];
    assert m[OFFSET_HEADER_LENGTH..OFFSET_BODY_LENGTH] == data[OFFSET_HEADER_LENGTH..OFFSET_BODY_LENGTH];
    assert m[OFFSET_BODY_LENGTH..SIZE_META] == data[OFFSET_BODY_LENGTH..SIZE_META];
  }
}
