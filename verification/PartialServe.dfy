/** Reading ranges back (internal/caches/reader_partial_file.go, and the single-range part of
    internal/nodes/http_request_cache.go) and whole histories of one partial cache file. */
module PartialServe {
  import opened Bytes
  import opened ByteFile
  import opened ByteRanges
  import opened ByteRangesText
  import opened CacheFormat
  import opened FileCache
  import opened PartialFile
  import opened Wrappers

  const MIN_SPAN: nat := 128 * 1024

  /** The beginning is covered, and the length is unknown or all of the range, or a worthwhile piece, is covered. */
  ghost predicate Approved(rs: seq<Span>, bodySize: int, r: Span)
  {
    && Covers(rs, r.0) && Covers(rs, r.0 + 1)
    && (bodySize <= 0 || CoversAll(rs, r.0, r.1) || CoversAll(rs, r.0, r.0 + MIN_SPAN - 1))
  }

  class PartialFileReader {
    const file: FileReader
    const ranges: PartialRanges

    /** Loads the ranges from their text. */
    constructor (fp: File, rangesText: string)
      ensures fresh(file) && fresh(ranges) && file.fp == fp
      ensures SnapshotOf(ranges) == ApplyLines(INITIAL, rangesText)
      ensures !file.isDiscarded && file.bodySize == 0 && file.bodyOffset == 0 && file.headerSize == 0
    {
      var f := new FileReader(fp);
      var r := NewPartialRangesFromData(rangesText);
      file, ranges := f, r;
    }

    function MaxLength(): int
      reads file`bodySize, ranges`ranges
    {
      if file.bodySize > 0 then file.bodySize else ranges.MaxPosition() + 1
    }

    /** The part of `r` that can be served: the longest covered prefix, unless it is a small piece of a longer range. */
    method ContainsRange(r: Span) returns (r2: Span, ok: bool)
      requires ranges.Valid() && r.0 <= r.1
      ensures ok <==> Approved(ranges.ranges, file.bodySize, r)
      ensures ok ==> r2.0 == r.0 && LongestPrefix(ranges.ranges, r.0, r.1, r2.1)
    {
      r2, ok := ranges.Nearest(r.0, r.1);
      if ok && file.bodySize > 0 {
        var length, asked := r2.1 - r2.0 + 1, r.1 - r.0 + 1;
        if length < asked && length < MIN_SPAN {
          assert !Covers(ranges.ranges, r2.1 + 1);
          ok := false;
        }
      }
    }
  }

  predicate Usable(stored: Stored)
  {
    |stored.data| >= SIZE_META && 100 <= StatusOf(stored.data) <= 999 && HeaderLengthOf(stored.data) > 0
  }

  /** Opens what lies on disk. A file without a header is not kept. */
  method OpenPartialReader(stored: Stored) returns (reader: PartialFileReader, usable: bool)
    requires '\n' !in stored.ranges.contentMD5
    ensures fresh(reader) && fresh(reader.file) && fresh(reader.ranges) && fresh(reader.file.fp)
    ensures reader.file.fp.data == stored.data && SnapshotOf(reader.ranges) == stored.ranges
    ensures usable <==> Usable(stored)
    ensures usable ==> reader.file.bodyOffset == BaseOf(stored.data)
    ensures usable ==> reader.file.bodySize == ToInt64(BodyLengthOf(stored.data))
  {
    var fp := new File(stored.data);
    TextRoundTrip(stored.ranges);
    reader := new PartialFileReader(fp, Text(stored.ranges));
    var err := reader.file.Init();
    usable := err.None? && reader.file.bodyOffset > 0;
  }

  /** The length that requests are taken against: the recorded one, or one more than the last covered position. */
  function LengthOf(stored: Stored): int
    requires |stored.data| >= SIZE_META
  {
    var recorded := ToInt64(BodyLengthOf(stored.data));
    if recorded > 0 then recorded else Last(stored.ranges.ranges) + 1
  }

  ghost predicate Servable(stored: Stored, request: Span)
    requires |stored.data| >= SIZE_META
  {
    var converted := Convert(request, LengthOf(stored));
    converted.Some? && Approved(stored.ranges.ranges, ToInt64(BodyLengthOf(stored.data)), converted.value)
  }

  /** That is: the length is the recorded one if it is known, and one more than the last covered position if not; the part
      of the request inside it begins with two covered positions, and if the length is known all of that part is covered,
      or 128 KiB from its beginning. */
  lemma ServableMeans(stored: Stored, request: Span)
    requires |stored.data| >= SIZE_META
    ensures var rs, recorded := stored.ranges.ranges, BodyLengthOf(stored.data);
      var isKnown := 0 < recorded < 0x8000_0000_0000_0000;
      var length := if isKnown then recorded else if rs == [] then 1 else rs[|rs| - 1].1 + 1;
      var first := if request.0 < 0 then length + request.0 else request.0;
      var last := if request.0 >= 0 && 0 <= request.1 < length then request.1 else length - 1;
      Servable(stored, request) <==>
        && 0 <= first <= last && Covers(rs, first) && Covers(rs, first + 1)
        && (!isKnown || CoversAll(rs, first, last) || CoversAll(rs, first, first + 131071))
  {
    KnownLength(stored.data);
  }

  lemma KnownLength(data: ByteString)
    requires |data| >= SIZE_META
    ensures ToInt64(BodyLengthOf(data)) > 0 <==> 0 < BodyLengthOf(data) < 0x8000_0000_0000_0000
  {
    PowersOf256();
    FromBigEndianBound(data[OFFSET_BODY_LENGTH..SIZE_META]);
  }

  /** A request for one range: what is served is that slice of the origin. */
  method ServeRange(stored: Stored, request: Span, bufferSize: nat, ghost origin: ByteString)
    returns (served: Option<(Span, ByteString)>)
    requires Faithful(stored, origin) && Usable(stored) && bufferSize > 0
    requires '\n' !in stored.ranges.contentMD5
    ensures served.Some? <==> Servable(stored, request)
    ensures served.Some? ==>
              var (r, bytes) := served.value;
              var asked := Convert(request, LengthOf(stored)).value;
              && r.0 == asked.0 && LongestPrefix(stored.ranges.ranges, asked.0, asked.1, r.1)
              && 0 <= r.0 <= r.1 < |origin|
              && bytes == origin[r.0..r.1 + 1]
  {
    var reader, usable := OpenPartialReader(stored);
    var converted := Convert(request, reader.MaxLength());
    if converted.None? {
      return None;
    }
    var r, ok := reader.ContainsRange(converted.value);
    if !ok {
      return None;
    }
    assert Convert(r, reader.MaxLength()) == Some(r);
    var bytes := ReadCovered(reader, r, bufferSize, stored, origin);
    served := Some((r, bytes));
  }

  /** Any range that the ranges cover reads back as that slice of the origin. */
  method ReadCovered(reader: PartialFileReader, r: Span, bufferSize: nat, ghost stored: Stored, ghost origin: ByteString)
    returns (bytes: ByteString)
    requires Faithful(stored, origin) && bufferSize > 0
    requires reader.file.fp.data == stored.data && reader.ranges.ranges == stored.ranges.ranges
    requires reader.file.bodyOffset == BaseOf(stored.data)
    requires 0 <= r.0 <= r.1 && CoversAll(reader.ranges.ranges, r.0, r.1)
    modifies reader.file.fp`pos
    ensures r.1 < |origin| && bytes == origin[r.0..r.1 + 1]
  {
    AgreeSlice(stored.ranges.ranges, BaseOf(stored.data), stored.data, origin, r.0, r.1);
    var err;
    bytes, err := reader.file.ReadBodyRange(bufferSize, r.0, r.1);
  }

  // ---------- opening a writer on what may be there already ----------

  /** The new response declares another length than the recorded one. */
  predicate OtherLength(existing: Stored, bodySize: int)
  {
    bodySize > 0 && existing.ranges.bodySize > 0 && bodySize != existing.ranges.bodySize
  }

  /** The ranges that openWriter passes on, and where the body begins if it goes on with the file. */
  method LoadForWriting(existing: Option<Stored>, bodySize: int) returns (ranges: PartialRanges, bodyOffset: Option<nat>)
    requires existing.Some? ==> '\n' !in existing.value.ranges.contentMD5
    ensures fresh(ranges)
    ensures SnapshotOf(ranges) == if existing.Some? && Usable(existing.value) then existing.value.ranges else INITIAL
    ensures bodyOffset.Some? <==>
      && existing.Some? && Usable(existing.value)
      && !(bodySize > 0 && existing.value.ranges.bodySize > 0 && bodySize != existing.value.ranges.bodySize)
    ensures bodyOffset.Some? ==> bodyOffset.value == BaseOf(existing.value.data)
  {
    bodyOffset := None;
    if existing.Some? {
      var reader, usable := OpenPartialReader(existing.value);
      if usable {
        ranges := reader.ranges;
        if !OtherLength(existing.value, bodySize) {
          bodyOffset := Some(reader.file.bodyOffset);
        }
        return;
      }
    }
    ranges := new PartialRanges();
  }

  /** openWriter for partial content. Going on with a file, of whatever version, keeps it truthful. When the length
      differs a new file is begun with the old ranges: it agrees with them exactly when they are empty, and if they are
      of version 0 the body is shifted by the key. */
  method OpenPartialWriter(key: string, existing: Option<Stored>, expiredAt: nat, status: int, headerSize: int,
                           bodySize: int, disk: DiskSpeed, ghost origin: ByteString)
    returns (w: PartialFileWriter)
    requires existing.Some? ==> '\n' !in existing.value.ranges.contentMD5
    requires existing.Some? && Usable(existing.value) ==>
               Normal(existing.value.ranges.ranges) && (OtherLength(existing.value, bodySize) || Faithful(existing.value, origin))
    ensures fresh(w) && fresh(w.rawWriter) && fresh(w.ranges) && w.RecordKnown() && w.InPlace()
    ensures w.held == origin && w.key == key && w.disk == disk
    ensures w.isNew <==>
      || existing.None? || !Usable(existing.value)
      || (bodySize > 0 && existing.value.ranges.bodySize > 0 && bodySize != existing.value.ranges.bodySize)
    ensures w.isNew ==> w.expiresAt == expiredAt && w.status == if 100 <= status <= 999 then status else 200
    ensures w.writtenBytes == 0 && w.published == None
    ensures w.isNew ==> w.AtHeaderEnd() && w.headerSize == 0 && w.header == [] && w.rawWriter.data == w.record
    ensures !w.isNew ==> w.rawWriter.data == existing.value.data && SameLengths(w.record, existing.value.data)
    ensures SnapshotOf(w.ranges) == if existing.Some? && Usable(existing.value) then existing.value.ranges else INITIAL
    ensures w.Valid() <==> !(w.isNew && w.ranges.ranges != [])
    ensures w.isNew && w.ranges.ranges != [] ==> !Agree(w.ranges.ranges, w.Base(), w.rawWriter.data, origin)
    ensures w.Shifted() <==> w.isNew && w.ranges.version == 0 && key != []
  {
    var ranges, bodyOffset := LoadForWriting(existing, bodySize);
    if bodyOffset.None? {
      w := new PartialFileWriter.New(key, expiredAt, status, headerSize, bodySize, ranges, disk, origin);
    } else {
      var f := new File(existing.value.data);
      w := new PartialFileWriter.Reopen(key, f, bodyOffset.value, ranges, disk, origin);
    }
  }

  /** A new file with old ranges of version 0 that are empty, and a key that is not: after writing the first byte of the
      body, the file does not tell the truth. */
  method ShiftedFileIsUntrue(key: string, existing: Stored, expiredAt: nat, status: int, headerSize: int, bodySize: int,
                             header: ByteString, disk: DiskSpeed, origin: ByteString)
    returns (after: Stored)
    requires Usable(existing) && OtherLength(existing, bodySize) && '\n' !in existing.ranges.contentMD5
    requires existing.ranges.ranges == [] && existing.ranges.version == 0 && key != []
    requires |header| < TWO_TO_THE_32 && origin != [] && origin[0] != 0
    ensures after.ranges.ranges == [(0, 0)] && !Faithful(after, origin)
  {
    var w := OpenPartialWriter(key, Some(existing), expiredAt, status, headerSize, bodySize, disk, origin);
    ghost var record := w.record;
    OverlayAtEnd(record, header);
    w.WriteHeader(header);
    ghost var file, base := w.rawWriter.data, w.Base();
    WriteFirstByte(w, origin);
    after := w.Close();
    GapIsUntrue(after, file, base, origin);
  }

  method WriteFirstByte(w: PartialFileWriter, origin: ByteString)
    requires w.Valid() && w.ranges.ranges == [] && origin != []
    modifies w`bodyOffset, w`writtenBytes, w`published, w`held, w.rawWriter`data, w.ranges`ranges, w.ranges`bodySize
    ensures w.Valid() && w.ranges.ranges == [(0, 0)] && w.Base() == old(w.Base())
    ensures w.rawWriter.data == Overlay(old(w.rawWriter.data), old(w.Base()), origin[..1])
  {
    w.WriteAt(0, origin[..1]);
  }

  /** Where readers look for the first byte there is the gap that was left for the key. */
  lemma GapIsUntrue(after: Stored, file: ByteString, base: nat, origin: ByteString)
    requires |after.data| >= SIZE_META && after.ranges.ranges == [(0, 0)] && origin != [] && origin[0] != 0
    requires |file| <= BaseOf(after.data) < base
    requires SameFrom(SIZE_META, Overlay(file, base, origin[..1]), after.data)
    ensures !Faithful(after, origin)
  {
    OverlayGap(file, base, origin[..1]);
    OverlayAt(file, base, origin[..1]);
    assert after.data[BaseOf(after.data)] == 0;
    assert Within([(0, 0)][0], 0);
    assert Covers([(0, 0)], 0);
  }
}
