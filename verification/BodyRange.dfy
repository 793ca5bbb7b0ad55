/** The other two readers of a body range (internal/caches/reader_memory.go, internal/caches/reader_file_mmap.go),
    and where the three readers agree. */
module BodyRange {
  import opened Bytes
  import opened ByteFile
  import opened CacheFormat
  import opened FileCache
  import opened Wrappers

  class MemoryReader {
    const body: ByteString

    constructor (body: ByteString)
      ensures this.body == body
    {
      this.body := body;
    }

    method ReadBodyRange(bufferSize: nat, start: int, end: int) returns (delivered: ByteString, err: Option<CacheError>)
      requires bufferSize > 0
      ensures var (from, to) := MemoryRange(|body|, start, end);
              if from < 0 || to < 0 || from > to then err == Some(InvalidRange) && delivered == []
              else err == None && delivered == body[from..to + 1]
    {
      var (offset, last) := MemoryRange(|body|, start, end);
      if offset < 0 || last < 0 || offset > last {
        return [], Some(InvalidRange);
      }
      var newData := body[offset..last + 1];
      var size := |newData|;
      var offset2 := 0;
      delivered := [];
      while true
        invariant 0 <= offset2 <= size && delivered == newData[..offset2]
        decreases size - offset2
      {
        var left := size - offset2;
        if bufferSize <= left {
          delivered := delivered + newData[offset2..offset2 + bufferSize];
        } else {
          delivered := delivered + newData[offset2..];
          offset2 := size;
          break;
        }
        offset2 := offset2 + bufferSize;
        if offset2 >= size {
          break;
        }
      }
      assert newData[..size] == newData;
      return delivered, None;
    }
  }

  /** The memory reader cuts an end that lies beyond the body. */
  function MemoryRange(bodySize: nat, start: int, end: int): (int, int)
  {
    var offset := if start < 0 then bodySize + end else start;
    var last := if start < 0 || end < 0 then bodySize - 1 else end;
    (offset, if last >= bodySize then bodySize - 1 else last)
  }

  class MMAPFileReader {
    const mapped: ByteString
    var expiresAt: nat
    var status: int
    var headerOffset: nat
    var headerSize: nat
    var bodySize: int
    var bodyOffset: nat
    var isDiscarded: bool

    constructor (mapped: ByteString)
      ensures this.mapped == mapped && !isDiscarded && headerSize == 0 && bodySize == 0 && bodyOffset == 0
    {
      this.mapped := mapped;
      expiresAt, status, headerOffset, headerSize, bodySize, bodyOffset, isDiscarded := 0, 0, 0, 0, 0, 0, false;
    }

    /** Unlike the file reader, checks that header and body lie within the file. */
    method Init() returns (err: Option<CacheError>)
      requires !isDiscarded && headerSize == 0
      modifies this
      ensures isDiscarded <==> err.Some?
      ensures err.None? <==> && |mapped| >= SIZE_META
                             && 100 <= StatusOf(mapped) <= 999
                             && (HeaderLengthOf(mapped) > 0 ==> LayoutFits(mapped))
      ensures err.None? ==> expiresAt == ExpiresAtOf(mapped) && status == StatusOf(mapped)
      ensures err.None? && HeaderLengthOf(mapped) > 0 ==>
                && headerSize == HeaderLengthOf(mapped)
                && headerOffset == SIZE_META + URLLengthOf(mapped)
                && bodyOffset == headerOffset + headerSize
                && bodySize == BodyLengthOf(mapped)
    {
      isDiscarded := true;
      if |mapped| < SIZE_META {
        return Some(NotFound);
      }
      var buf := mapped[..SIZE_META];
      FieldsOfRecord(mapped);
      expiresAt := ExpiresAtOf(buf);
      var s := StatusOf(buf);
      if s < 100 || s > 999 {
        return Some(InvalidStatus);
      }
      status := s;
      var urlLength, hSize := URLLengthOf(buf), HeaderLengthOf(buf);
      if hSize == 0 {
        isDiscarded := false;
        return None;
      }
      headerSize := hSize;
      headerOffset := SIZE_META + urlLength;
      bodyOffset := headerOffset + hSize;
      var bSize := BodyLengthOf(buf);
      if bSize >= TWO_TO_THE_63 {
        return Some(InvalidStatus);
      }
      bodySize := bSize;
      if headerOffset < SIZE_META || bodyOffset < headerOffset || bodyOffset > |mapped|
         || bodySize > |mapped| - bodyOffset {
        return Some(NotFound);
      }
      isDiscarded := false;
      return None;
    }

    method ReadBodyRange(bufferSize: nat, start: int, end: int) returns (delivered: ByteString, err: Option<CacheError>)
      requires bufferSize > 0 && !isDiscarded
      modifies this`isDiscarded
      ensures var (from, to) := FileRange(bodyOffset, bodySize, start, end);
              if from < 0 || to < 0 || from > to then err == Some(InvalidRange) && delivered == []
              else delivered == Slice(mapped, from, to + 1) && (err == None <==> to < |mapped|)
      ensures isDiscarded <==> err == Some(UnexpectedEOF)
    {
      var (offset, last) := FileRange(bodyOffset, bodySize, start, end);
      if offset < 0 || last < 0 || offset > last {
        return [], Some(InvalidRange);
      }
      ghost var from: nat := offset;
      delivered := [];
      while offset <= last
        invariant from <= offset <= last + 1 && delivered == Slice(mapped, from, offset)
        invariant offset > from ==> offset <= |mapped|
        invariant !isDiscarded
      {
        var remaining := last - offset + 1;
        var readSize := if bufferSize > remaining then remaining else bufferSize;
        var b := Slice(mapped, offset, offset + readSize);
        if |b| == 0 {
          SliceBeyond(mapped, from, offset, last + 1);
          isDiscarded := true;
          return delivered, Some(UnexpectedEOF);
        }
        SliceGrows(mapped, from, offset, b);
        delivered := delivered + b;
        offset := offset + |b|;
      }
      return delivered, None;
    }
  }

  ghost predicate LayoutFits(data: ByteString)
    requires |data| >= SIZE_META
  {
    && BodyLengthOf(data) < TWO_TO_THE_63
    && SIZE_META + URLLengthOf(data) + HeaderLengthOf(data) + BodyLengthOf(data) <= |data|
  }

  /** A request inside the body: with both ends; without the second one, for all that follows; or without the first one,
      for so many bytes at the end. */
  predicate IsInside(start: int, end: int, bodySize: nat)
  {
    || 0 <= start <= end < bodySize
    || (0 <= start < bodySize && end < 0)
    || (start < 0 && 0 < -end <= bodySize)
  }

  /** What it asks for. */
  function Asked(body: ByteString, start: int, end: int): ByteString
    requires IsInside(start, end, |body|)
  {
    if start < 0 then body[|body| + end..] else if end < 0 then body[start..] else body[start..end + 1]
  }

  method RangeFromFile(data: ByteString, bufferSize: nat, start: int, end: int,
                       ghost expiresAt: nat, ghost status: Status, ghost header: ByteString, ghost body: ByteString)
    returns (delivered: ByteString)
    requires bufferSize > 0 && IsInside(start, end, |body|)
    requires expiresAt < TWO_TO_THE_32 && 0 < |header| < TWO_TO_THE_32 && |body| < TWO_TO_THE_63
    requires data == Image(expiresAt, status, header, body)
    ensures delivered == Asked(body, start, end)
  {
    ImageFields(expiresAt, status, header, body);
    SliceOfImage(expiresAt, status, header, body, start, end);
    var fp := new File(data);
    var reader := new FileReader(fp);
    var err := reader.Init();
    delivered, err := reader.ReadBodyRange(bufferSize, start, end);
  }

  method RangeFromMapping(data: ByteString, bufferSize: nat, start: int, end: int,
                          ghost expiresAt: nat, ghost status: Status, ghost header: ByteString, ghost body: ByteString)
    returns (delivered: ByteString)
    requires bufferSize > 0 && IsInside(start, end, |body|)
    requires expiresAt < TWO_TO_THE_32 && 0 < |header| < TWO_TO_THE_32 && |body| < TWO_TO_THE_63
    requires data == Image(expiresAt, status, header, body)
    ensures delivered == Asked(body, start, end)
  {
    ImageFields(expiresAt, status, header, body);
    MetaRoundTrip(expiresAt, status, |header|, |body|, header + body);
    SliceOfImage(expiresAt, status, header, body, start, end);
    var reader := new MMAPFileReader(data);
    var err := reader.Init();
    delivered, err := reader.ReadBodyRange(bufferSize, start, end);
  }

  /** On one stored response the three readers deliver the bytes that are asked for, for every request inside the body. */
  method ReadersAgree(body: ByteString, header: ByteString, expiresAt: nat, status: Status,
                      buffer1: nat, buffer2: nat, buffer3: nat, start: int, end: int)
    returns (fromMemory: ByteString, fromFile: ByteString, fromMapping: ByteString)
    requires buffer1 > 0 && buffer2 > 0 && buffer3 > 0
    requires expiresAt < TWO_TO_THE_32 && 0 < |header| < TWO_TO_THE_32 && |body| < TWO_TO_THE_63
    requires IsInside(start, end, |body|)
    ensures fromMemory == fromFile == fromMapping == Asked(body, start, end)
  {
    var data := Image(expiresAt, status, header, body);
    var memory := new MemoryReader(body);
    var err;
    fromMemory, err := memory.ReadBodyRange(buffer1, start, end);
    fromFile := RangeFromFile(data, buffer2, start, end, expiresAt, status, header, body);
    fromMapping := RangeFromMapping(data, buffer3, start, end, expiresAt, status, header, body);
  }

  lemma SliceOfImage(expiresAt: nat, status: Status, header: ByteString, body: ByteString, start: int, end: int)
    requires IsInside(start, end, |body|)
    ensures var (from, to) := FileRange(SIZE_META + |header|, |body|, start, end);
      && 0 <= from <= to < |Image(expiresAt, status, header, body)|
      && Slice(Image(expiresAt, status, header, body), from, to + 1) == Asked(body, start, end)
  {
    var data := Image(expiresAt, status, header, body);
    var first := if start < 0 then |body| + end else start;
    var last := if start < 0 || end < 0 then |body| - 1 else end;
    assert data == Meta(expiresAt, status, |header|, |body|) + header + body;
    SliceBehind(Meta(expiresAt, status, |header|, |body|) + header, body, first, last);
    if last == |body| - 1 {
      assert body[first..last + 1] == body[first..];
    }
  }

  lemma SliceBehind(front: ByteString, body: ByteString, first: nat, last: nat)
    requires first <= last < |body|
    ensures Slice(front + body, |front| + first, |front| + last + 1) == body[first..last + 1]
  {
    var slice := (front + body)[|front| + first..|front| + last + 1];
    forall i | 0 <= i < |slice| ensures slice[i] == body[first + i] {
    }
  }
}
