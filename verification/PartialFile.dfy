/** Cache files that hold only parts of a body: the writer (internal/caches/writer_partial_file.go), the reader
    (internal/caches/reader_partial_file.go) and the way a writer is opened again (internal/caches/storage_file.go). */
module PartialFile {
  import opened Bytes
  import opened ByteFile
  import opened ByteRanges
  import opened ByteRangesText
  import opened CacheFormat
  import opened FileCache
  import opened Wrappers

  // ---------- the file and the ranges tell the truth about the origin ----------

  /** The file holds the origin's byte of position p. */
  predicate HasByte(base: nat, data: ByteString, origin: ByteString, p: int)
  {
    0 <= p < |origin| && base + p < |data| && data[base + p] == origin[p]
  }

  /** Every covered position holds the origin's byte. */
  ghost predicate Agree(rs: seq<Span>, base: nat, data: ByteString, origin: ByteString)
  {
    forall p :: Covers(rs, p) ==> HasByte(base, data, origin, p)
  }

  /** The file holds the origin's bytes from begin to end. */
  ghost predicate Holds(base: nat, data: ByteString, origin: ByteString, begin: nat, end: nat)
  {
    forall p :: begin <= p <= end ==> HasByte(base, data, origin, p)
  }

  lemma AgreeWithMarked(rs: seq<Span>, base: nat, data: ByteString, origin: ByteString, begin: nat, end: nat)
    requires Normal(rs) && Agree(rs, base, data, origin) && begin <= end && Holds(base, data, origin, begin, end)
    ensures Normal(AddSpan(rs, begin, end)) && Agree(AddSpan(rs, begin, end), base, data, origin)
  {
    AddSpanCovers(rs, begin, end);
  }

  /** Laying the same bytes over the file, at their place, and over the body keeps the agreement. */
  lemma OverlayBoth(rs: seq<Span>, base: nat, data: ByteString, held: ByteString, offset: nat, chunk: ByteString)
    requires Agree(rs, base, data, held) && chunk != []
    ensures Agree(rs, base, Overlay(data, base + offset, chunk), Overlay(held, offset, chunk))
    ensures Holds(base, Overlay(data, base + offset, chunk), Overlay(held, offset, chunk), offset, offset + |chunk| - 1)
  {
    var file, body := Overlay(data, base + offset, chunk), Overlay(held, offset, chunk);
    forall p | offset <= p <= offset + |chunk| - 1 ensures HasByte(base, file, body, p) {
      OverlayByte(base, data, held, offset, chunk, p);
    }
    forall p | Covers(rs, p) ensures HasByte(base, file, body, p) {
      OverlayByte(base, data, held, offset, chunk, p);
    }
  }

  lemma OverlayByte(base: nat, data: ByteString, held: ByteString, offset: nat, chunk: ByteString, p: int)
    requires HasByte(base, data, held, p) || offset <= p < offset + |chunk|
    ensures HasByte(base, Overlay(data, base + offset, chunk), Overlay(held, offset, chunk), p)
  {
    OverlayAt(data, base + offset, chunk);
    OverlayAt(held, offset, chunk);
  }

  /** A slice of a body laid over it at its place changes nothing. */
  lemma SliceOverItself(body: ByteString, offset: nat, chunk: ByteString)
    requires offset + |chunk| <= |body| && chunk == body[offset..offset + |chunk|]
    ensures Overlay(body, offset, chunk) == body
  {
    OverlayAt(body, offset, chunk);
  }

  /** What a covered range of the file holds is that slice of the origin. */
  lemma AgreeSlice(rs: seq<Span>, base: nat, data: ByteString, origin: ByteString, begin: nat, end: nat)
    requires Agree(rs, base, data, origin) && begin <= end && CoversAll(rs, begin, end)
    ensures end < |origin|
    ensures Slice(data, base + begin, base + end + 1) == origin[begin..end + 1]
  {
    assert Covers(rs, begin) && Covers(rs, end);
    var s := data[base + begin..base + end + 1];
    forall i | 0 <= i < |s| ensures s[i] == origin[begin + i] {
      assert Covers(rs, begin + i);
    }
    assert s == origin[begin..end + 1];
  }

  /** What lies on disk between a close and the next open. */
  datatype Stored = Stored(data: ByteString, ranges: Snapshot)

  function BaseOf(data: ByteString): nat
    requires |data| >= SIZE_META
  {
    SIZE_META + URLLengthOf(data) + HeaderLengthOf(data)
  }

  ghost predicate Faithful(s: Stored, origin: ByteString)
  {
    && |s.data| >= SIZE_META
    && 100 <= StatusOf(s.data) <= 999
    && Normal(s.ranges.ranges)
    && Agree(s.ranges.ranges, BaseOf(s.data), s.data, origin)
  }

  ghost predicate SameLengths(a: ByteString, b: ByteString)
  {
    && |a| >= SIZE_META && |b| >= SIZE_META
    && HeaderLengthOf(a) == HeaderLengthOf(b) && BodyLengthOf(a) == BodyLengthOf(b)
  }

  /** When the ranges say complete and the recorded length is right, the stored body is the origin. */
  lemma CompletedHoldsOrigin(s: Stored, origin: ByteString)
    requires Faithful(s, origin)
    requires Whole(s.ranges.ranges, s.ranges.bodySize) && s.ranges.bodySize == |origin|
    ensures Slice(s.data, BaseOf(s.data), BaseOf(s.data) + |origin|) == origin
  {
    var rs := s.ranges.ranges;
    WholeIsFullCoverage(rs, |origin|);
    assert CoversAll(rs, 0, |origin| - 1);
    AgreeSlice(rs, BaseOf(s.data), s.data, origin, 0, |origin| - 1);
    assert origin[0..|origin|] == origin;
  }

  /** `after` is `before` with some zero bytes more. */
  ghost predicate Prolonged(before: ByteString, after: ByteString, more: nat)
  {
    before <= after && |after| == |before| + more && forall i :: |before| <= i < |after| ==> after[i] == 0
  }

  datatype DiskSpeed = Slow | Fast | ExtremelyFast

  const MB: nat := 1024 * 1024

  /** How far a single write may lie beyond the covered part, and by how much the file grows instead. */
  function MaxExtendSize(disk: DiskSpeed): nat
  {
    match disk case Slow => 32 * MB case Fast => 64 * MB case ExtremelyFast => 128 * MB
  }

  function ExtendSizePerStep(disk: DiskSpeed): nat
  {
    match disk case Slow => MB case Fast => 2 * MB case ExtremelyFast => 4 * MB
  }

  class PartialFileWriter {
    const rawWriter: File
    const key: string
    const metaHeaderSize: int
    var headerSize: nat
    const metaBodySize: int
    var bodySize: nat
    const isNew: bool
    var bodyOffset: nat
    const ranges: PartialRanges
    var writtenBytes: nat
    var published: Option<Snapshot>  // what WriteToFile stored last
    const disk: DiskSpeed

    ghost var held: ByteString  // the body that the file stands for: at every covered position, what was last written
    ghost const expiresAt: nat
    ghost const status: Status
    ghost const openedAt: nat  // where the body begins in a file opened again
    ghost var record: ByteString  // the first bytes of the file
    ghost var recorded: nat  // the header length in the record of a new file
    ghost var header: ByteString  // the header of a new file

    /** For old ranges a new file leaves room for the key before the body. */
    function KeyLength(): nat
      reads ranges`version
    {
      if ranges.version == 0 then |key| else 0
    }

    function Base(): nat
      reads this`bodyOffset, this`headerSize, ranges`version
    {
      if bodyOffset == 0 then SIZE_META + KeyLength() + headerSize else bodyOffset
    }

    /** The record of a new file does not say so, and readers look for the body too early. */
    predicate Shifted()
      reads ranges`version
    {
      isNew && KeyLength() > 0
    }

    /** The body has not begun, and the cursor is where the header goes on. */
    predicate AtHeaderEnd()
      reads this`bodyOffset, this`headerSize, rawWriter`pos
    {
      isNew && bodyOffset == 0 && rawWriter.pos == SIZE_META + headerSize
    }

    /** What lies before the body is in place. */
    ghost predicate InPlace()
      reads this`bodyOffset, this`headerSize, this`header, this`recorded, this`record, rawWriter, ranges`version
    {
      && |record| == SIZE_META
      && record + header <= rawWriter.data
      && |header| == headerSize
      && (if isNew then bodyOffset == 0 || bodyOffset == SIZE_META + KeyLength() + headerSize
          else headerSize == 0 && bodyOffset == openedAt >= SIZE_META)
      && (recorded == Positive(metaHeaderSize) || recorded == headerSize)
      && (rawWriter.pos == SIZE_META + headerSize ==> recorded == Positive(metaHeaderSize))
    }

    /** Moreover file and ranges agree with the body that the file stands for. A new file with old ranges begins without
        this, but not without the rest. */
    ghost predicate Valid()
      reads this`bodyOffset, this`headerSize, this`header, this`recorded, this`record, this`held
      reads rawWriter, ranges`version, ranges`ranges
    {
      && InPlace()
      && (isNew && bodyOffset == 0 ==> ranges.ranges == [])
      && ranges.Valid()
      && Agree(ranges.ranges, Base(), rawWriter.data, held)
    }

    /** What the first bytes say. Body writes leave it alone. */
    ghost predicate RecordKnown()
      reads this`recorded, this`record
    {
      && |record| == SIZE_META
      && if isNew then record == Meta(expiresAt, status, recorded, Positive(metaBodySize))
         else 100 <= StatusOf(record) <= 999 && openedAt == BaseOf(record)
    }

    /** The writer over a file that openWriter has just created, with whatever ranges it passes. */
    constructor New(key: string, expiredAt: nat, status: int, headerSize: int, bodySize: int, ranges: PartialRanges,
                    disk: DiskSpeed, ghost held: ByteString)
      ensures fresh(rawWriter) && this.ranges == ranges && this.key == key && this.disk == disk && isNew
      ensures this.held == held && rawWriter.data == record
      ensures header == [] && bodyOffset == 0 && rawWriter.pos == SIZE_META && this.headerSize == 0
      ensures this.expiresAt == expiredAt && this.status == (if 100 <= status <= 999 then status else 200)
      ensures RecordKnown() && InPlace() && writtenBytes == 0 && published == None
      ensures ranges.ranges == [] ==> Valid()
      ensures ranges.Valid() && ranges.ranges != [] ==> !Agree(ranges.ranges, Base(), rawWriter.data, held)
    {
      var s := StatusToWrite(status);
      var meta := Meta(expiredAt, s, Positive(headerSize), Positive(bodySize));
      OverlayAtEnd([], meta);
      var f := new File([]);
      f.Write(meta);
      rawWriter, this.key, this.ranges, this.disk, isNew := f, key, ranges, disk, true;
      metaHeaderSize := if headerSize > 0 then headerSize else -1;
      metaBodySize := if bodySize > 0 then bodySize else -1;
      this.headerSize, this.bodySize, bodyOffset, writtenBytes, published := 0, 0, 0, 0, None;
      this.held, this.expiresAt, this.status, header, recorded := held, expiredAt, s, [], Positive(headerSize);
      record, openedAt := meta, 0;
      new;
      assert meta + [] == meta == rawWriter.data;
      if ranges.ranges != [] && ranges.Valid() {
        assert Within(ranges.ranges[0], ranges.ranges[0].0);
        assert Covers(ranges.ranges, ranges.ranges[0].0);
      }
    }

    /** The writer over a file that already holds parts of the body. */
    constructor Reopen(key: string, file: File, bodyOffset: nat, ranges: PartialRanges, disk: DiskSpeed,
                       ghost held: ByteString)
      requires Faithful(Stored(file.data, SnapshotOf(ranges)), held) && bodyOffset == BaseOf(file.data)
      ensures Valid() && RecordKnown()
      ensures rawWriter == file && this.ranges == ranges && this.key == key && this.disk == disk && !isNew
      ensures this.held == held && writtenBytes == 0 && published == None
      ensures SameLengths(record, file.data) && record == file.data[..SIZE_META]
    {
      rawWriter, this.key, this.ranges, this.disk, isNew := file, key, ranges, disk, false;
      metaHeaderSize, metaBodySize := -1, -1;
      this.headerSize, this.bodySize, this.bodyOffset, writtenBytes, published := 0, 0, bodyOffset, 0, None;
      this.held, this.expiresAt, this.status, header, recorded := held, 0, 200, [], 0;
      record, openedAt := file.data[..SIZE_META], bodyOffset;
      RecordOfPrefix(file.data, file.data[..SIZE_META]);
    }

    /** Goes to the cursor, which extends the header where it is the header's end. */
    method WriteHeader(data: ByteString)
      modifies this`headerSize, this`header, rawWriter
      ensures headerSize == if isNew then old(headerSize) + |data| else old(headerSize)
      ensures (rawWriter.data, rawWriter.pos) ==
        if isNew then (Overlay(old(rawWriter.data), old(rawWriter.pos), data), old(rawWriter.pos) + |data|)
        else (old(rawWriter.data), old(rawWriter.pos))
      ensures header == if isNew then old(header) + data else old(header)
      ensures old(InPlace() && (isNew ==> AtHeaderEnd())) ==>
        InPlace() && (isNew ==> AtHeaderEnd()) && (old(Valid()) ==> Valid())
    {
      if !isNew {
        return;
      }
      PutAtCursor(data);
    }

    method PutAtCursor(data: ByteString)
      modifies this`headerSize, this`header, rawWriter
      ensures headerSize == old(headerSize) + |data| && header == old(header) + data
      ensures rawWriter.data == Overlay(old(rawWriter.data), old(rawWriter.pos), data)
      ensures rawWriter.pos == old(rawWriter.pos) + |data|
      ensures old(InPlace() && AtHeaderEnd()) ==> InPlace() && AtHeaderEnd() && (old(Valid()) ==> Valid())
    {
      if InPlace() && AtHeaderEnd() {
        OverlayExtendsPrefix(rawWriter.data, record + header, data);
        assert record + header + data == record + (header + data);
      }
      rawWriter.Write(data);
      headerSize := headerSize + |data|;
      header := header + data;
    }

    /** Goes to the cursor too, in any file, and then records the length, which may leave the cursor behind that field.
        The header is extended exactly when the cursor was at its end. */
    method AppendHeader(data: ByteString)
      modifies this`headerSize, this`header, this`record, this`recorded, rawWriter
      ensures headerSize == old(headerSize) + |data| && header == old(header) + data
      ensures rawWriter.pos == if LengthIsRecorded() then old(rawWriter.pos) + |data| else OFFSET_BODY_LENGTH
      ensures var written := Overlay(old(rawWriter.data), old(rawWriter.pos), data);
        rawWriter.data == if LengthIsRecorded() then written
                          else Overlay(written, OFFSET_HEADER_LENGTH, BigEndian(headerSize, SIZE_HEADER_LENGTH))
      ensures old(InPlace() && RecordKnown() && AtHeaderEnd()) ==> InPlace() && RecordKnown() && (old(Valid()) ==> Valid())
      ensures old(EndsWithHeader()) ==>
        (HeaderInPlace(rawWriter.data, header) <==> old(AtHeaderEnd()) || data == [])
      ensures old(EndsWithHeader() && AtHeaderEnd()) ==> EndsWithHeader()
    {
      if EndsWithHeader() {
        AppendExtends(rawWriter.data, rawWriter.pos, header, data, headerSize + |data|);
      }
      PutAtCursor(data);
      WriteHeaderLength();
    }

    /** The file is record and header, and the cursor lies in it. */
    ghost predicate EndsWithHeader()
      reads this`bodyOffset, this`headerSize, this`header, rawWriter
    {
      && isNew && bodyOffset == 0 && |header| == headerSize
      && |rawWriter.data| == SIZE_META + headerSize && rawWriter.pos <= |rawWriter.data|
      && HeaderInPlace(rawWriter.data, header)
    }

    /** The header length need not be written when it was declared rightly. */
    predicate LengthIsRecorded()
      reads this`headerSize
    {
      metaHeaderSize > 0 && metaHeaderSize == headerSize
    }

    method WriteHeaderLength()
      modifies this`record, this`recorded, rawWriter
      ensures (rawWriter.data, rawWriter.pos) ==
        if LengthIsRecorded() then (old(rawWriter.data), old(rawWriter.pos))
        else (Overlay(old(rawWriter.data), OFFSET_HEADER_LENGTH, BigEndian(headerSize, SIZE_HEADER_LENGTH)), OFFSET_BODY_LENGTH)
      ensures old(InPlace() && RecordKnown() && isNew) ==>
        InPlace() && RecordKnown() && recorded == headerSize && (old(Valid()) ==> Valid())
    {
      if metaHeaderSize > 0 && metaHeaderSize == headerSize {
        return;
      }
      PatchHeader();
    }

    method PatchHeader()
      modifies this`record, this`recorded, rawWriter
      ensures rawWriter.data == Overlay(old(rawWriter.data), OFFSET_HEADER_LENGTH, BigEndian(headerSize, SIZE_HEADER_LENGTH))
      ensures rawWriter.pos == OFFSET_BODY_LENGTH && recorded == headerSize
      ensures old(InPlace() && RecordKnown() && isNew) ==> InPlace() && RecordKnown() && (old(Valid()) ==> Valid())
    {
      ghost var before := rawWriter.data;
      ghost var after := Overlay(before, OFFSET_HEADER_LENGTH, BigEndian(headerSize, SIZE_HEADER_LENGTH));
      if InPlace() && RecordKnown() && isNew {
        PatchHeaderLength(before, expiresAt, status, recorded, Positive(metaBodySize), header, headerSize);
        if Valid() {
          PatchKeepsAgreement(ranges.ranges, Base(), before, after, held);
        }
      }
      rawWriter.Seek(OFFSET_HEADER_LENGTH);
      rawWriter.Write(BigEndian(headerSize, SIZE_HEADER_LENGTH));
      recorded := headerSize;
      record := Meta(expiresAt, status, headerSize, Positive(metaBodySize));
    }

    /** A write that lies far beyond the covered part only makes the file longer. */
    predicate Postponed(offset: nat, length: nat)
      reads this`bodyOffset, rawWriter`data, ranges`ranges
    {
      && offset - ranges.MaxPosition() > MaxExtendSize(disk)
      && |rawWriter.data| + ExtendSizePerStep(disk) <= bodyOffset + offset + length
    }

    /** That is 32, 64 or 128 MiB beyond the last covered position, in a file that is too short by 1, 2 or 4 MiB. */
    lemma PostponedExactly(offset: nat, length: nat)
      requires ranges.Valid()
      ensures var (far, step) := match disk case Slow => (33554432, 1048576) case Fast => (67108864, 2097152)
                                            case ExtremelyFast => (134217728, 4194304);
        var last := if ranges.ranges == [] then 0 else ranges.ranges[|ranges.ranges| - 1].1;
        Postponed(offset, length) <==> offset - last > far && |rawWriter.data| + step <= bodyOffset + offset + length
    {
    }

    /** Nothing to write, or already there. */
    ghost predicate Needless(offset: nat, length: nat)
      reads ranges`ranges
    {
      length == 0 || HoldsWhole(ranges.ranges, offset, offset + length - 1)
    }

    ghost predicate Skipped(offset: nat, length: nat)
      reads this`bodyOffset, rawWriter`data, ranges`ranges
    {
      Needless(offset, length) || Postponed(offset, length)
    }

    /** The file has some zero bytes more, and nothing else has changed. */
    ghost predicate OnlyLonger(rs: seq<Span>, was: ByteString, begin: nat, file: ByteString, more: nat)
      reads this`bodyOffset, this`held, rawWriter`data, ranges`ranges
    {
      ranges.ranges == rs && held == was && bodyOffset == begin && Prolonged(file, rawWriter.data, more)
    }

    /** The bytes lie at their place, the body the file stands for has them, and the ranges say so. */
    ghost predicate Written(rs: seq<Span>, was: ByteString, base: nat, file: ByteString, offset: nat, data: ByteString)
      reads this`bodyOffset, this`held, rawWriter`data, ranges`ranges
    {
      && bodyOffset == base
      && ranges.ranges == AddSpan(rs, offset, offset + |data| - 1)
      && held == Overlay(was, offset, data)
      && rawWriter.data == Overlay(file, base + offset, data)
    }

    /** What a write does to any file, and that it keeps agreement where there is some. */
    method WriteAt(offset: nat, data: ByteString)
      requires ranges.Valid()
      modifies this`bodyOffset, this`writtenBytes, this`published, this`held, rawWriter`data, ranges`ranges, ranges`bodySize
      ensures ranges.Valid() && (old(InPlace()) ==> InPlace()) && (old(Valid()) ==> Valid())
      ensures if old(Skipped(offset, |data|))
              then OnlyLonger(old(ranges.ranges), old(held), old(bodyOffset), old(rawWriter.data),
                              if old(Needless(offset, |data|)) then 0 else ExtendSizePerStep(disk))
              else Written(old(ranges.ranges), old(held), old(Base()), old(rawWriter.data), offset, data)
      ensures var placed := !old(Skipped(offset, |data|)); var sum := old(writtenBytes) + |data|; var due := placed && sum > 1048576;
        && writtenBytes == (if due then 0 else if placed then sum else old(writtenBytes))
        && published == (if due then Some(SnapshotOf(ranges)) else old(published))
        && ranges.bodySize == if due && bodySize > 0 then bodySize else old(ranges.bodySize)
    {
      var c := |data|;
      ghost var skipped := Skipped(offset, c);
      if c == 0 {
        return;
      }
      var end := offset + c - 1;
      var contained := ranges.Contains(offset, end);
      if contained {
        return;
      }
      PlaceOrGrow(offset, data);
      assert skipped ==> old(Postponed(offset, |data|));
    }

    /** Prevents a single write from extending the file too much. */
    method PlaceOrGrow(offset: nat, data: ByteString)
      requires ranges.Valid() && data != []
      modifies this`bodyOffset, this`writtenBytes, this`published, this`held, rawWriter`data, ranges`ranges, ranges`bodySize
      ensures ranges.Valid() && (old(InPlace()) ==> InPlace()) && (old(Valid()) ==> Valid())
      ensures if old(Postponed(offset, |data|))
              then OnlyLonger(old(ranges.ranges), old(held), old(bodyOffset), old(rawWriter.data), ExtendSizePerStep(disk))
              else Written(old(ranges.ranges), old(held), old(Base()), old(rawWriter.data), offset, data)
      ensures Announced(if old(Postponed(offset, |data|)) then None else Some(|data|), old(writtenBytes), old(published),
                        old(ranges.bodySize))
    {
      var maxOffset := ranges.MaxPosition();
      if offset - maxOffset > 16 * MB {
        if offset - maxOffset > MaxExtendSize(disk) {
          var size := |rawWriter.data|;
          if size + ExtendSizePerStep(disk) <= bodyOffset + offset + |data| {
            Grow(ExtendSizePerStep(disk));
            return;
          }
        }
      }
      Place(offset, data);
    }

    method Grow(step: nat)
      modifies rawWriter`data
      ensures Prolonged(old(rawWriter.data), rawWriter.data, step)
      ensures (old(InPlace()) ==> InPlace()) && (old(Valid()) ==> Valid())
    {
      rawWriter.Truncate(|rawWriter.data| + step);
    }

    /** The first write decides where the body begins. */
    method FixBodyOffset()
      modifies this`bodyOffset
      ensures bodyOffset == old(Base()) > 0
      ensures old(bodyOffset) != 0 ==> bodyOffset == old(bodyOffset)
      ensures (old(InPlace()) ==> InPlace()) && (old(Valid()) ==> Valid())
    {
      if bodyOffset == 0 {
        var keyLength := if ranges.version == 0 then |key| else 0;
        bodyOffset := SIZE_META + keyLength + headerSize;
      }
    }

    /** Bytes first, then the ranges. */
    method Place(offset: nat, data: ByteString)
      requires ranges.Valid() && data != []
      modifies this`bodyOffset, this`writtenBytes, this`published, this`held, rawWriter`data, ranges`ranges, ranges`bodySize
      ensures ranges.Valid() && Written(old(ranges.ranges), old(held), old(Base()), old(rawWriter.data), offset, data)
      ensures (old(InPlace()) ==> InPlace()) && (old(Valid()) ==> Valid())
      ensures Announced(Some(|data|), old(writtenBytes), old(published), old(ranges.bodySize))
    {
      PutAndMark(offset, data);
      Announce(|data|);
    }

    method PutAndMark(offset: nat, data: ByteString)
      requires ranges.Valid() && data != []
      modifies this`bodyOffset, this`held, rawWriter`data, ranges`ranges
      ensures ranges.Valid() && Written(old(ranges.ranges), old(held), old(Base()), old(rawWriter.data), offset, data)
      ensures (old(InPlace()) ==> InPlace()) && (old(Valid()) ==> Valid())
    {
      PutBytes(offset, data);
      Mark(offset, offset + |data| - 1);
    }

    /** Writes bytes at their place. */
    method PutBytes(offset: nat, data: ByteString)
      requires data != []
      modifies this`bodyOffset, this`held, rawWriter`data
      ensures bodyOffset == old(Base()) > 0
      ensures held == Overlay(old(held), offset, data) && rawWriter.data == Overlay(old(rawWriter.data), bodyOffset + offset, data)
      ensures old(InPlace()) ==> InPlace()
      ensures old(Valid()) ==> Valid() && Holds(bodyOffset, rawWriter.data, held, offset, offset + |data| - 1)
    {
      FixBodyOffset();
      PutHere(offset, data);
    }

    method PutHere(offset: nat, data: ByteString)
      requires data != [] && bodyOffset > 0
      modifies this`held, rawWriter`data
      ensures held == Overlay(old(held), offset, data) && rawWriter.data == Overlay(old(rawWriter.data), bodyOffset + offset, data)
      ensures old(InPlace()) ==> InPlace()
      ensures old(Valid()) ==> Valid() && Holds(bodyOffset, rawWriter.data, held, offset, offset + |data| - 1)
    {
      ghost var file, body, agreed := rawWriter.data, held, Agree(ranges.ranges, bodyOffset, rawWriter.data, held);
      rawWriter.WriteAt(data, bodyOffset + offset);
      held := Overlay(held, offset, data);
      if old(InPlace()) {
        OverlayKeepsPrefix(file, record + header, bodyOffset + offset, data);
        if agreed {
          OverlayBoth(ranges.ranges, bodyOffset, file, body, offset, data);
        }
      }
    }

    /** Records that bytes are in the file. */
    method Mark(offset: nat, end: nat)
      requires ranges.Valid() && offset <= end
      modifies ranges`ranges
      ensures ranges.Valid() && ranges.ranges == AddSpan(old(ranges.ranges), offset, end)
      ensures old(InPlace()) ==> InPlace()
      ensures old(Valid() && bodyOffset > 0 && Holds(bodyOffset, rawWriter.data, held, offset, end)) ==> Valid()
    {
      if Valid() && Holds(bodyOffset, rawWriter.data, held, offset, end) {
        AgreeWithMarked(ranges.ranges, bodyOffset, rawWriter.data, held, offset, end);
      }
      ranges.Add(offset, end);
    }

    /** What placing so many bytes, or none, makes of the counter and of what others can read. */
    ghost predicate Announced(placed: Option<nat>, sum: nat, seen: Option<Snapshot>, length: int)
      reads this`writtenBytes, this`published, this`bodySize, ranges
    {
      var due := placed.Some? && sum + placed.value > 1048576;
      && writtenBytes == (if due then 0 else if placed.Some? then sum + placed.value else sum)
      && published == (if due then Some(SnapshotOf(ranges)) else seen)
      && ranges.bodySize == if due && bodySize > 0 then bodySize else length
    }

    /** After more than 1 MiB of new data, stores the ranges so that other requests can use them. */
    method Announce(c: nat)
      modifies this`writtenBytes, this`published, ranges`bodySize
      ensures Announced(Some(c), old(writtenBytes), old(published), old(ranges.bodySize))
    {
      writtenBytes := writtenBytes + c;
      if writtenBytes > MB {
        writtenBytes := 0;
        if bodySize > 0 {
          ranges.bodySize := bodySize;
        }
        published := Some(SnapshotOf(ranges));
      }
    }

    method SetBodyLength(bodyLength: nat)
      modifies this`bodySize
      ensures bodySize == bodyLength
    {
      bodySize := bodyLength;
    }

    /** Not recorded when it would break the line format. */
    method SetContentMD5(contentMD5: string)
      modifies ranges`contentMD5
      ensures ranges.contentMD5 ==
        if (forall c :: c in contentMD5 ==> c != '\n') && |contentMD5| <= 128 then contentMD5 else old(ranges.contentMD5)
    {
      if '\n' in contentMD5 || |contentMD5| > 128 {
        return;
      }
      ranges.contentMD5 := contentMD5;
    }

    /** No one has stored anything for this file. */
    predicate IsNew()
      reads ranges`ranges
    {
      isNew && |ranges.ranges| == 0
    }

    /** What a file that is still open shows to others who read it with the ranges stored so far: its record may not yet
        have the length of the header. */
    lemma SeenWhileOpen(seen: Stored)
      requires Valid() && RecordKnown() && recorded < TWO_TO_THE_32
      requires seen == Stored(rawWriter.data, SnapshotOf(ranges))
      ensures |seen.data| >= SIZE_META && Agree(seen.ranges.ranges, Base(), seen.data, held)
      ensures Base() - BaseOf(seen.data)
           == (if isNew then headerSize - recorded else 0) + (if Shifted() then |key| else 0)
      ensures Base() == BaseOf(seen.data) ==> Faithful(seen, held)
    {
      assert record <= record + header;
      RecordOfPrefix(rawWriter.data, record);
      if isNew {
        RecordOfNewFile(expiresAt, status, recorded, Positive(metaBodySize));
      }
    }

    /** What Close makes of the bytes: the lengths of a new file are written into its record. */
    function Sealed(data: ByteString): ByteString
      reads this`headerSize, this`bodySize
    {
      if !isNew then data
      else
        var patched := if LengthIsRecorded() then data
                       else Overlay(data, OFFSET_HEADER_LENGTH, BigEndian(headerSize, SIZE_HEADER_LENGTH));
        if metaBodySize > 0 && metaBodySize == bodySize then patched
        else Overlay(patched, OFFSET_BODY_LENGTH, BigEndian(bodySize, SIZE_BODY_LENGTH))
    }

    ghost predicate Closable()
      reads this`bodyOffset, this`headerSize, this`header, this`recorded, this`record, rawWriter, ranges`version
    {
      InPlace() && RecordKnown() && (isNew ==> headerSize < TWO_TO_THE_32)
    }

    /** The record tells the lengths, and where the body begins, unless the body is shifted. An old file keeps its own. */
    ghost predicate Recorded(data: ByteString, before: ByteString, base: nat, was: ByteString)
      reads this`headerSize, this`bodySize, ranges`version
    {
      && |data| >= SIZE_META && 100 <= StatusOf(data) <= 999
      && base == BaseOf(data) + (if Shifted() then |key| else 0)
      && SameFrom(SIZE_META, before, data)
      && (isNew ==> HeaderLengthOf(data) == headerSize)
      && (isNew && bodySize < TWO_TO_THE_64 ==> BodyLengthOf(data) == bodySize)
      && (isNew ==> StatusOf(data) == status && (expiresAt < TWO_TO_THE_32 ==> ExpiresAtOf(data) == expiresAt))
      && (!isNew ==> SameLengths(data, was))
    }

    /** Leaves on disk the bytes with their record, and the ranges. The body lies where the record says, unless it is
        shifted by the key; file and ranges tell the truth if they agreed before, and it is not shifted. */
    method Close() returns (stored: Stored)
      modifies this`published, this`record, this`recorded, rawWriter, ranges`bodySize
      ensures stored == Stored(rawWriter.data, SnapshotOf(ranges)) && stored.data == Sealed(old(rawWriter.data))
      ensures stored.ranges.ranges == old(ranges.ranges) && stored.ranges.version == old(ranges.version)
      ensures stored.ranges.contentMD5 == old(ranges.contentMD5)
      ensures stored.ranges.bodySize == if bodySize > 0 then bodySize else old(ranges.bodySize)
      ensures old(Closable()) ==> Recorded(stored.data, old(rawWriter.data), old(Base()), old(record))
      ensures old(Closable() && Valid()) ==>
        Agree(stored.ranges.ranges, old(Base()), stored.data, held) && (!Shifted() ==> Faithful(stored, held))
    {
      Publish();
      Seal();
      stored := Stored(rawWriter.data, SnapshotOf(ranges));
    }

    method Publish()
      modifies this`published, ranges`bodySize
      ensures ranges.bodySize == (if bodySize > 0 then bodySize else old(ranges.bodySize))
      ensures published == Some(SnapshotOf(ranges))
    {
      if bodySize > 0 {
        ranges.bodySize := bodySize;
      }
      published := Some(SnapshotOf(ranges));
    }

    /** The lengths of a new file, which an old one already has. */
    method Seal()
      modifies this`record, this`recorded, rawWriter
      ensures rawWriter.data == Sealed(old(rawWriter.data))
      ensures old(Closable()) ==> Recorded(rawWriter.data, old(rawWriter.data), old(Base()), old(record))
      ensures old(Closable() && Valid()) ==> Agree(ranges.ranges, Base(), rawWriter.data, held)
    {
      ghost var before := rawWriter.data;
      ghost var agreed := Closable() && Valid();
      SealRecord();
      if old(Closable()) {
        RecordOfPrefix(rawWriter.data, record);
      }
      if agreed {
        PatchKeepsAgreement(ranges.ranges, Base(), before, rawWriter.data, held);
      }
    }

    method SealRecord()
      modifies this`record, this`recorded, rawWriter
      ensures rawWriter.data == Sealed(old(rawWriter.data))
      ensures old(Closable()) ==>
        && |record| == SIZE_META && record <= rawWriter.data && 100 <= StatusOf(record) <= 999
        && old(Base()) == BaseOf(record) + (if Shifted() then |key| else 0)
        && SameFrom(SIZE_META, old(rawWriter.data), rawWriter.data)
        && (isNew ==> HeaderLengthOf(record) == headerSize)
        && (isNew && bodySize < TWO_TO_THE_64 ==> BodyLengthOf(record) == bodySize)
        && (isNew ==> StatusOf(record) == status && (expiresAt < TWO_TO_THE_32 ==> ExpiresAtOf(record) == expiresAt))
        && (!isNew ==> record == old(record))
    {
      if isNew {
        FinishRecord();
      } else {
        assert InPlace() ==> record <= record + header;
      }
    }

    method FinishRecord()
      requires isNew
      modifies this`record, this`recorded, rawWriter
      ensures rawWriter.data == Sealed(old(rawWriter.data))
      ensures old(Closable()) ==>
        && |record| == SIZE_META && record <= rawWriter.data
        && StatusOf(record) == status && (expiresAt < TWO_TO_THE_32 ==> ExpiresAtOf(record) == expiresAt)
        && HeaderLengthOf(record) == headerSize
        && BaseOf(record) == SIZE_META + headerSize
        && (bodySize < TWO_TO_THE_64 ==> BodyLengthOf(record) == bodySize)
        && SameFrom(SIZE_META, old(rawWriter.data), rawWriter.data)
    {
      ghost var before := rawWriter.data;
      if Closable() {
        PatchLeavesRest(before, OFFSET_HEADER_LENGTH, BigEndian(headerSize, SIZE_HEADER_LENGTH));
        RecordOfNewFile(expiresAt, status, headerSize, bodySize);
      }
      WriteHeaderLength();
      WriteBodyLength();
    }

    method WriteBodyLength()
      modifies this`record, rawWriter
      ensures rawWriter.data == if metaBodySize > 0 && metaBodySize == bodySize then old(rawWriter.data)
                                else Overlay(old(rawWriter.data), OFFSET_BODY_LENGTH, BigEndian(bodySize, SIZE_BODY_LENGTH))
      ensures old(InPlace() && RecordKnown() && isNew && recorded == headerSize) ==>
        && record == Meta(expiresAt, status, headerSize, bodySize) <= rawWriter.data
        && SameFrom(SIZE_META, old(rawWriter.data), rawWriter.data)
    {
      if metaBodySize > 0 && metaBodySize == bodySize {
        assert InPlace() ==> record <= record + header;
        return;
      }
      ghost var before := rawWriter.data;
      if InPlace() && RecordKnown() && isNew {
        PatchBodyLength(before, expiresAt, status, recorded, Positive(metaBodySize), header, bodySize);
      }
      rawWriter.Seek(OFFSET_BODY_LENGTH);
      rawWriter.Write(BigEndian(bodySize, SIZE_BODY_LENGTH));
      record := Meta(expiresAt, status, recorded, bodySize);
    }
  }

  lemma OverlayExtendsPrefix(data: ByteString, prefix: ByteString, b: ByteString)
    requires prefix <= data
    ensures prefix + b <= Overlay(data, |prefix|, b)
  {
    OverlayAt(data, |prefix|, b);
  }

  lemma OverlayKeepsPrefix(data: ByteString, prefix: ByteString, off: nat, b: ByteString)
    requires prefix <= data && off >= |prefix|
    ensures prefix <= Overlay(data, off, b)
  {
    OverlayAt(data, off, b);
  }

  ghost predicate SameFrom(start: nat, before: ByteString, after: ByteString)
  {
    |after| == |before| && forall i :: start <= i < |before| ==> after[i] == before[i]
  }

  /** The header follows the record. */
  predicate HeaderInPlace(file: ByteString, header: ByteString)
  {
    |file| >= SIZE_META + |header| && file[SIZE_META..SIZE_META + |header|] == header
  }

  /** A field of the record written over a file leaves the rest alone. */
  lemma PatchLeavesRest(file: ByteString, offset: nat, field: ByteString)
    requires offset + |field| <= SIZE_META <= |file|
    ensures SameFrom(SIZE_META, file, Overlay(file, offset, field))
  {
    OverlayAt(file, offset, field);
  }

  /** What is put at another place than the end of a file that ends with its header cannot extend the header: the file
      does not become long enough. */
  lemma AppendExtends(file: ByteString, pos: nat, header: ByteString, data: ByteString, length: nat)
    requires |file| == SIZE_META + |header| && HeaderInPlace(file, header) && pos <= |file|
    ensures var after := Overlay(file, pos, data);
      var patched := Overlay(after, OFFSET_HEADER_LENGTH, BigEndian(length, SIZE_HEADER_LENGTH));
      && |patched| == |after|
      && (HeaderInPlace(after, header + data) <==> pos == |file| || data == [])
      && (HeaderInPlace(patched, header + data) <==> pos == |file| || data == [])
      && (pos == |file| ==> |after| == |file| + |data|)
  {
    var after := Overlay(file, pos, data);
    OverlayAt(file, pos, data);
    PatchLeavesRest(after, OFFSET_HEADER_LENGTH, BigEndian(length, SIZE_HEADER_LENGTH));
    var patched := Overlay(after, OFFSET_HEADER_LENGTH, BigEndian(length, SIZE_HEADER_LENGTH));
    if data == [] {
      assert header + data == header;
      assert patched[SIZE_META..SIZE_META + |header|] == after[SIZE_META..SIZE_META + |header|];
    } else if pos == |file| {
      assert after[SIZE_META..] == header + data;
      assert patched[SIZE_META..] == after[SIZE_META..];
    }
  }

  /** Two appends to a header: the second one extends it exactly when the length declared at the start is the one reached
      by the first, since otherwise the first has left the cursor in the record. */
  method AppendTwice(w: PartialFileWriter, first: ByteString, second: ByteString)
    requires w.Valid() && w.RecordKnown() && w.AtHeaderEnd() && w.EndsWithHeader()
    modifies w`headerSize, w`header, w`record, w`recorded, w.rawWriter
    ensures w.header == old(w.header) + first + second
    ensures HeaderInPlace(w.rawWriter.data, w.header) <==>
      second == [] || (w.metaHeaderSize > 0 && w.metaHeaderSize == old(w.headerSize) + |first|)
  {
    w.AppendHeader(first);
    w.AppendHeader(second);
  }

  lemma PatchKeepsAgreement(rs: seq<Span>, base: nat, before: ByteString, after: ByteString, origin: ByteString)
    requires Agree(rs, base, before, origin) && base >= SIZE_META && |after| == |before|
    requires forall i :: SIZE_META <= i < |before| ==> after[i] == before[i]
    ensures Agree(rs, base, after, origin)
  {
  }

  /** Writing a length at its place leaves header and body alone. */
  lemma PatchHeaderLength(data: ByteString, e: nat, s: Status, h: nat, b: nat, header: ByteString, length: nat)
    requires Meta(e, s, h, b) + header <= data
    ensures var after := Overlay(data, OFFSET_HEADER_LENGTH, BigEndian(length, SIZE_HEADER_LENGTH));
      && Meta(e, s, length, b) + header <= after && |after| == |data|
      && forall i :: SIZE_META <= i < |data| ==> after[i] == data[i]
  {
    var rest := data[SIZE_META..];
    assert data == Meta(e, s, h, b) + rest;
    OverlayHeaderLength(e, s, h, b, rest, length);
    assert header <= rest;
  }

  lemma PatchBodyLength(data: ByteString, e: nat, s: Status, h: nat, b: nat, header: ByteString, length: nat)
    requires Meta(e, s, h, b) + header <= data
    ensures var after := Overlay(data, OFFSET_BODY_LENGTH, BigEndian(length, SIZE_BODY_LENGTH));
      && Meta(e, s, h, length) <= Meta(e, s, h, length) + header <= after && |after| == |data|
      && forall i :: SIZE_META <= i < |data| ==> after[i] == data[i]
  {
    var rest := data[SIZE_META..];
    assert data == Meta(e, s, h, b) + rest;
    OverlayBodyLength(e, s, h, b, rest, length);
    assert header <= rest;
  }

  /** The record is read from the first bytes alone. */
  lemma RecordOfPrefix(data: ByteString, prefix: ByteString)
    requires |prefix| >= SIZE_META && prefix <= data
    ensures StatusOf(data) == StatusOf(prefix) && BaseOf(data) == BaseOf(prefix) && ExpiresAtOf(data) == ExpiresAtOf(prefix)
    ensures HeaderLengthOf(data) == HeaderLengthOf(prefix) && BodyLengthOf(data) == BodyLengthOf(prefix)
  {
    FieldsOfRecord(data);
    FieldsOfRecord(prefix);
    assert data[..SIZE_META] == prefix[..SIZE_META];
  }

  lemma RecordOfNewFile(expiresAt: nat, status: Status, headerLength: nat, bodyLength: nat)
    requires headerLength < TWO_TO_THE_32
    ensures var m := Meta(expiresAt, status, headerLength, bodyLength);
      && StatusOf(m) == status && URLLengthOf(m) == 0 && HeaderLengthOf(m) == headerLength
      && (expiresAt < TWO_TO_THE_32 ==> ExpiresAtOf(m) == expiresAt)
      && (bodyLength < TWO_TO_THE_64 ==> BodyLengthOf(m) == bodyLength)
  {
    var m := Meta(expiresAt, status, headerLength, bodyLength);
    assert m + [] == m;
    PowersOf256();
    StatusRoundTrip(status);
    MetaParts(expiresAt, status, headerLength, bodyLength, []);
    BigEndianRoundTrip(0, SIZE_URL_LENGTH);
    BigEndianRoundTrip(headerLength, SIZE_HEADER_LENGTH);
    if expiresAt < TWO_TO_THE_32 {
      BigEndianRoundTrip(expiresAt, SIZE_EXPIRES_AT);
    }
    if bodyLength < TWO_TO_THE_64 {
      BigEndianRoundTrip(bodyLength, SIZE_BODY_LENGTH);
    }
  }
}
