/** Complete cache files: the writer (internal/caches/writer_file.go, with the record written by openWriter in
    internal/caches/storage_file.go) and the reader (internal/caches/reader_file.go). */
module FileCache {
  import opened Bytes
  import opened ByteFile
  import opened CacheFormat
  import opened Wrappers

  datatype CacheError = UnexpectedContentLength | EntityTooLarge | NotFound | InvalidStatus | InvalidRange | UnexpectedEOF

  /** A whole cache file as it should lie on disk. */
  function Image(expiresAt: nat, status: Status, header: ByteString, body: ByteString): ByteString
  {
    Meta(expiresAt, status, |header|, |body|) + (header + body)
  }

  function Positive(n: int): nat { if n > 0 then n else 0 }

  const LARGE_WRITE: nat := 2 * 1024 * 1024
  const WRITE_CHUNK: nat := 64 * 1024

  class FileWriter {
    const rawWriter: File
    const metaHeaderSize: int
    var headerSize: nat
    const metaBodySize: int
    var bodySize: nat
    const maxSize: int
    var isDiscarded: bool

    ghost const expiresAt: nat
    ghost const status: Status
    ghost var header: ByteString
    ghost var body: ByteString

    ghost predicate Valid()
      reads this, rawWriter
    {
      && headerSize == |header|
      && bodySize == |body|
      && rawWriter.data == Meta(expiresAt, status, Positive(metaHeaderSize), Positive(metaBodySize)) + (header + body)
      && rawWriter.pos == |rawWriter.data|
    }

    /** The record-writing part of openWriter. A declared length that is not positive is left out. */
    constructor (expiredAt: nat, status: int, headerSize: int, bodySize: int, maxSize: int)
      ensures Valid() && fresh(rawWriter) && !isDiscarded
      ensures header == [] && body == []
      ensures expiresAt == expiredAt && this.status == if 100 <= status <= 999 then status else 200
      ensures this.maxSize == maxSize && metaBodySize == (if bodySize > 0 then bodySize else -1)
    {
      var s := StatusToWrite(status);
      var f := new File([]);
      f.Write(Meta(expiredAt, s, Positive(headerSize), Positive(bodySize)));
      rawWriter := f;
      metaHeaderSize := if headerSize > 0 then headerSize else -1;
      metaBodySize := if bodySize > 0 then bodySize else -1;
      this.headerSize, this.bodySize, this.maxSize, isDiscarded := 0, 0, maxSize, false;
      this.expiresAt, this.status, header, body := expiredAt, s, [], [];
      new;
      OverlayAtEnd([], Meta(expiredAt, s, Positive(headerSize), Positive(bodySize)));
      assert rawWriter.data == Meta(expiredAt, s, Positive(headerSize), Positive(bodySize)) + ([] + []);
    }

    method WriteHeader(data: ByteString)
      requires Valid() && !isDiscarded && body == []
      modifies this`headerSize, this`header, rawWriter
      ensures Valid()
      ensures header == old(header) + data
    {
      OverlayAtEnd(rawWriter.data, data);
      rawWriter.Write(data);
      headerSize := headerSize + |data|;
      header := header + data;
      assert rawWriter.data
          == Meta(expiresAt, status, Positive(metaHeaderSize), Positive(metaBodySize)) + (header + body);
    }

    method WriteSmall(data: ByteString) returns (err: Option<CacheError>)
      requires Valid() && !isDiscarded
      modifies this`bodySize, this`body, this`isDiscarded, rawWriter
      ensures Valid() && body == old(body) + data
      ensures err == if maxSize > 0 && bodySize > maxSize then Some(EntityTooLarge) else None
      ensures isDiscarded <==> err.Some?
    {
      OverlayAtEnd(rawWriter.data, data);
      rawWriter.Write(data);
      bodySize := bodySize + |data|;
      body := body + data;
      assert rawWriter.data
          == Meta(expiresAt, status, Positive(metaHeaderSize), Positive(metaBodySize)) + (header + body);
      err := None;
      if maxSize > 0 && bodySize > maxSize {
        err := Some(EntityTooLarge);
        isDiscarded := true;
      }
    }

    /** Large data goes in chunks; the bytes that arrive are the same. */
    method Write(data: ByteString) returns (n: nat, err: Option<CacheError>)
      requires Valid() && !isDiscarded
      modifies this`bodySize, this`body, this`isDiscarded, rawWriter
      ensures Valid() && n <= |data| && body == old(body) + data[..n]
      ensures err.None? ==> n == |data|
      ensures err.Some? <==> maxSize > 0 && |old(body)| + |data| > maxSize
      ensures isDiscarded <==> err.Some?
    {
      var l := |data|;
      if l > LARGE_WRITE {
        var offset := 0;
        while true
          invariant Valid() && !isDiscarded && offset < l
          invariant body == old(body) + data[..offset]
          invariant offset > 0 ==> !(maxSize > 0 && bodySize > maxSize)
          decreases l - offset
        {
          var end := offset + WRITE_CHUNK;
          if end > l {
            end := l;
          }
          err := WriteSmall(data[offset..end]);
          assert data[..offset] + data[offset..end] == data[..end];
          n := end;
          if err.Some? || end >= l {
            return;
          }
          offset := end;
        }
      }
      err := WriteSmall(data);
      n := l;
    }

    method WriteHeaderLength(headerLength: nat)
      requires Valid()
      modifies rawWriter
      ensures rawWriter.data == Meta(expiresAt, status, headerLength, Positive(metaBodySize)) + (header + body)
    {
      if metaHeaderSize > 0 && metaHeaderSize == headerLength {
        return;
      }
      OverlayHeaderLength(expiresAt, status, Positive(metaHeaderSize), Positive(metaBodySize), header + body, headerLength);
      rawWriter.Seek(OFFSET_HEADER_LENGTH);
      rawWriter.Write(BigEndian(headerLength, SIZE_HEADER_LENGTH));
    }

    method WriteBodyLength(bodyLength: nat)
      requires rawWriter.data == Meta(expiresAt, status, headerSize, Positive(metaBodySize)) + (header + body)
      modifies rawWriter
      ensures rawWriter.data == Meta(expiresAt, status, headerSize, bodyLength) + (header + body)
    {
      if metaBodySize >= 0 && bodyLength == metaBodySize {
        return;
      }
      OverlayBodyLength(expiresAt, status, headerSize, Positive(metaBodySize), header + body, bodyLength);
      rawWriter.Seek(OFFSET_BODY_LENGTH);
      rawWriter.Write(BigEndian(bodyLength, SIZE_BODY_LENGTH));
    }

    /** A wrong declared body length removes the file; otherwise the file is the image of what was written. */
    method Close() returns (err: Option<CacheError>)
      requires Valid() && !isDiscarded
      modifies this`isDiscarded, rawWriter
      ensures err.Some? <==> metaBodySize > 0 && |body| != metaBodySize
      ensures isDiscarded <==> err.Some?
      ensures err.None? ==> rawWriter.data == Image(expiresAt, status, header, body)
    {
      if metaBodySize > 0 && bodySize != metaBodySize {
        isDiscarded := true;
        return Some(UnexpectedContentLength);
      }
      WriteHeaderLength(headerSize);
      WriteBodyLength(bodySize);
      return None;
    }
  }

  /** The part of `data` at positions from..to, as far as it exists. */
  function Slice(data: ByteString, from: nat, to: nat): ByteString
  {
    if from >= |data| || to <= from then [] else if to <= |data| then data[from..to] else data[from..]
  }

  lemma SliceGrows(data: ByteString, from: nat, mid: nat, b: ByteString)
    requires from <= mid && mid + |b| <= |data| && b == data[mid..mid + |b|]
    ensures Slice(data, from, mid) + b == Slice(data, from, mid + |b|)
  {
    if mid > from {
      assert data[from..mid] + b == data[from..mid + |b|];
    }
  }

  lemma SliceGrowsTo(data: ByteString, from: nat, mid: nat, b: ByteString, to: nat)
    requires from <= mid && mid + |b| == to <= |data| && b == data[mid..to]
    ensures Slice(data, from, mid) + b == Slice(data, from, to)
  {
    SliceGrows(data, from, mid, b);
  }

  lemma SliceFilled(data: ByteString, from: nat, mid: nat, b: ByteString, left: nat, to: nat)
    requires from <= mid && mid + |b| <= |data| && b == data[mid..mid + |b|] && left <= |b| && mid + left == to
    ensures Slice(data, from, mid) + b[..left] == Slice(data, from, to)
  {
    assert b[..left] == data[mid..mid + left];
    SliceGrows(data, from, mid, b[..left]);
  }

  lemma SliceBeyond(data: ByteString, from: nat, a: nat, b: nat)
    requires a >= |data| && b >= |data|
    ensures Slice(data, from, a) == Slice(data, from, b)
  {
  }

  function ToInt64(n: nat): int { if n < TWO_TO_THE_63 then n else n - TWO_TO_THE_64 }

  class FileReader {
    const fp: File
    var expiresAt: nat
    var status: int
    var headerOffset: nat
    var headerSize: nat
    var bodySize: int
    var bodyOffset: nat
    var isDiscarded: bool

    constructor (fp: File)
      ensures this.fp == fp && !isDiscarded && bodySize == 0 && bodyOffset == 0 && headerSize == 0 && headerOffset == 0
    {
      this.fp := fp;
      expiresAt, status, headerOffset, headerSize, bodySize, bodyOffset, isDiscarded := 0, 0, 0, 0, 0, 0, false;
    }

    method Init() returns (err: Option<CacheError>)
      requires fp.pos == 0 && !isDiscarded
      requires bodySize == 0 && bodyOffset == 0 && headerSize == 0
      modifies this, fp`pos
      ensures err == if |fp.data| < SIZE_META then Some(NotFound)
                     else if !(100 <= StatusOf(fp.data) <= 999) then Some(InvalidStatus) else None
      ensures isDiscarded <==> err.Some? || HeaderLengthOf(fp.data) == 0
      ensures err.None? ==> expiresAt == ExpiresAtOf(fp.data) && status == StatusOf(fp.data)
      ensures isDiscarded ==> bodyOffset == 0
      ensures !isDiscarded ==>
                && headerSize == HeaderLengthOf(fp.data)
                && headerOffset == SIZE_META + URLLengthOf(fp.data)
                && bodyOffset == headerOffset + headerSize
                && bodySize == ToInt64(BodyLengthOf(fp.data))
    {
      isDiscarded := true;
      var buf := fp.ReadFull(SIZE_META);
      if |buf| < SIZE_META {
        return Some(NotFound);
      }
      FieldsOfRecord(fp.data);
      assert buf == fp.data[..SIZE_META];
      expiresAt := ExpiresAtOf(buf);
      var s := StatusOf(buf);
      if s < 100 || s > 999 {
        return Some(InvalidStatus);
      }
      status := s;
      var urlLength, hSize := URLLengthOf(buf), HeaderLengthOf(buf);
      if hSize == 0 {
        return None;
      }
      headerSize := hSize;
      headerOffset := SIZE_META + urlLength;
      bodyOffset := headerOffset + hSize;
      var bSize := ToInt64(BodyLengthOf(buf));
      if bSize == 0 {
        isDiscarded := false;
        return None;
      }
      bodySize := bSize;
      isDiscarded := false;
      return None;
    }

    method ReadHeader(bufferSize: nat) returns (delivered: ByteString)
      requires bufferSize > 0 && headerSize > 0
      modifies fp`pos
      ensures delivered == Slice(fp.data, headerOffset, headerOffset + headerSize)
      ensures fp.pos == bodyOffset
    {
      fp.Seek(headerOffset);
      var left := headerSize;
      delivered := [];
      while true
        invariant 0 < left <= headerSize
        invariant fp.pos == headerOffset + (headerSize - left)
        invariant delivered == Slice(fp.data, headerOffset, fp.pos)
        decreases left
      {
        var b, eof := fp.Read(bufferSize);
        if |b| > 0 {
          if |b| < left {
            SliceGrowsTo(fp.data, headerOffset, fp.pos - |b|, b, fp.pos);
            delivered := delivered + b;
            left := left - |b|;
          } else {
            SliceFilled(fp.data, headerOffset, fp.pos - |b|, b, left, headerOffset + headerSize);
            delivered := delivered + b[..left];
            break;
          }
        }
        if eof {
          SliceBeyond(fp.data, headerOffset, fp.pos, headerOffset + headerSize);
          break;
        }
      }
      fp.Seek(bodyOffset);
    }

    /** Reads to the end of the file, unless the recorded length is 0. */
    method ReadBody(bufferSize: nat) returns (delivered: ByteString)
      requires bufferSize > 0
      modifies fp`pos
      ensures delivered == if bodySize == 0 then [] else Slice(fp.data, bodyOffset, |fp.data|)
    {
      delivered := [];
      if bodySize == 0 {
        return;
      }
      fp.Seek(bodyOffset);
      while true
        invariant fp.pos >= bodyOffset && delivered == Slice(fp.data, bodyOffset, fp.pos)
        decreases if fp.pos < |fp.data| then |fp.data| - fp.pos else 0
      {
        var b, eof := fp.Read(bufferSize);
        if |b| > 0 {
          SliceGrowsTo(fp.data, bodyOffset, fp.pos - |b|, b, fp.pos);
          delivered := delivered + b;
        }
        if eof {
          SliceBeyond(fp.data, bodyOffset, fp.pos, |fp.data|);
          break;
        }
      }
    }

    /** The bytes of a range, as far as the file reaches. */
    method ReadBodyRange(bufferSize: nat, start: int, end: int) returns (delivered: ByteString, err: Option<CacheError>)
      requires bufferSize > 0
      modifies fp`pos
      ensures var (from, to) := FileRange(bodyOffset, bodySize, start, end);
              if from < 0 || to < 0 || from > to then err == Some(InvalidRange) && delivered == []
              else err == None && delivered == Slice(fp.data, from, to + 1)
    {
      delivered := [];
      var (offset, last) := FileRange(bodyOffset, bodySize, start, end);
      if offset < 0 || last < 0 || offset > last {
        return [], Some(InvalidRange);
      }
      ghost var from: nat := offset;
      fp.Seek(offset);
      while true
        invariant from <= offset <= last && fp.pos == offset
        invariant delivered == Slice(fp.data, from, offset)
        decreases last - offset
      {
        var b, eof := fp.Read(bufferSize);
        var n := |b|;
        if n > 0 {
          var n2 := last - offset + 1;
          if n2 <= n {
            SliceGrows(fp.data, from, offset, b[..n2]);
            delivered := delivered + b[..n2];
            break;
          }
          SliceGrows(fp.data, from, offset, b);
          delivered := delivered + b;
          offset := offset + n;
        }
        if eof {
          SliceBeyond(fp.data, from, offset, last + 1);
          break;
        }
      }
      return delivered, None;
    }
  }

  /** Where in the file a requested range lies: a negative start asks for a suffix, a negative end for all that follows. */
  function FileRange(bodyOffset: nat, bodySize: int, start: int, end: int): (int, int)
  {
    if start < 0 then (bodyOffset + bodySize + end, bodyOffset + bodySize - 1)
    else if end < 0 then (bodyOffset + start, bodyOffset + bodySize - 1)
    else (bodyOffset + start, bodyOffset + end)
  }

  // ---------- writing and reading back ----------

  function Flatten(chunks: seq<ByteString>): ByteString
  {
    if chunks == [] then [] else Flatten(chunks[..|chunks| - 1]) + chunks[|chunks| - 1]
  }

  /** The fields that Init takes from an image. */
  lemma ImageFields(expiresAt: nat, status: Status, header: ByteString, body: ByteString)
    requires expiresAt < TWO_TO_THE_32 && |header| < TWO_TO_THE_32 && |body| < TWO_TO_THE_63
    ensures var data := Image(expiresAt, status, header, body);
      && |data| == SIZE_META + |header| + |body|
      && ExpiresAtOf(data) == expiresAt && StatusOf(data) == status && URLLengthOf(data) == 0
      && HeaderLengthOf(data) == |header| && ToInt64(BodyLengthOf(data)) == |body|
      && Slice(data, SIZE_META, SIZE_META + |header|) == header
      && Slice(data, SIZE_META + |header|, |data|) == body
  {
    MetaRoundTrip(expiresAt, status, |header|, |body|, header + body);
    var data := Image(expiresAt, status, header, body);
    assert data[SIZE_META..SIZE_META + |header|] == header;
    assert data[SIZE_META + |header|..] == body;
  }

  lemma {:induction false} FlattenPrefix(chunks: seq<ByteString>, k: nat)
    requires k <= |chunks|
    ensures |Flatten(chunks[..k])| <= |Flatten(chunks)|
  {
    if k < |chunks| {
      FlattenPrefix(chunks[..|chunks| - 1], k);
      assert chunks[..|chunks| - 1][..k] == chunks[..k];
    } else {
      assert chunks[..k] == chunks;
    }
  }

  /** Open, any chunks of header, any chunks of body, close: nothing, or exactly the image. */
  method Store(expiredAt: nat, status: int, declaredHeader: int, declaredBody: int, maxSize: int,
               headerChunks: seq<ByteString>, bodyChunks: seq<ByteString>)
    returns (file: Option<ByteString>)
    ensures file.Some? <==>
              && (maxSize > 0 && bodyChunks != [] ==> |Flatten(bodyChunks)| <= maxSize)
              && (declaredBody > 0 ==> declaredBody == |Flatten(bodyChunks)|)
    ensures file.Some? ==>
              file.value == Image(expiredAt, StatusToWrite(status), Flatten(headerChunks), Flatten(bodyChunks))
  {
    var w := new FileWriter(expiredAt, status, declaredHeader, declaredBody, maxSize);
    for k := 0 to |headerChunks|
      invariant w.Valid() && fresh(w) && fresh(w.rawWriter) && !w.isDiscarded && w.body == []
      invariant w.header == Flatten(headerChunks[..k])
    {
      assert headerChunks[..k + 1][..k] == headerChunks[..k];
      w.WriteHeader(headerChunks[k]);
    }
    assert headerChunks[..|headerChunks|] == headerChunks;
    for k := 0 to |bodyChunks|
      invariant w.Valid() && fresh(w) && fresh(w.rawWriter) && !w.isDiscarded
      invariant w.header == Flatten(headerChunks) && w.body == Flatten(bodyChunks[..k])
      invariant maxSize > 0 && k > 0 ==> |w.body| <= maxSize
    {
      assert bodyChunks[..k + 1][..k] == bodyChunks[..k];
      var n, err := w.Write(bodyChunks[k]);
      if err.Some? {
        FlattenPrefix(bodyChunks, k + 1);
        return None;
      }
    }
    assert bodyChunks[..|bodyChunks|] == bodyChunks;
    var err := w.Close();
    return if err.Some? then None else Some(w.rawWriter.data);
  }

  /** A reader of an image finds every part of it, unless the header is empty: then it throws the file away. */
  method Fetch(file: ByteString, headerBuffer: nat, bodyBuffer: nat,
               ghost expiredAt: nat, ghost stored: Status, ghost storedHeader: ByteString, ghost storedBody: ByteString)
    returns (kept: bool, expiresAt: nat, status: int, header: ByteString, body: ByteString)
    requires headerBuffer > 0 && bodyBuffer > 0
    requires expiredAt < TWO_TO_THE_32 && |storedHeader| < TWO_TO_THE_32 && |storedBody| < TWO_TO_THE_63
    requires file == Image(expiredAt, stored, storedHeader, storedBody)
    ensures kept <==> storedHeader != []
    ensures kept ==> expiresAt == expiredAt && status == stored && header == storedHeader && body == storedBody
  {
    ImageFields(expiredAt, stored, storedHeader, storedBody);
    var f := new File(file);
    var r := new FileReader(f);
    var err := r.Init();
    expiresAt, status, header, body := r.expiresAt, r.status, [], [];
    kept := !r.isDiscarded;
    if kept {
      header := r.ReadHeader(headerBuffer);
      body := r.ReadBody(bodyBuffer);
    }
  }

  /** The whole life of a cache file: what is stored is what is fetched. */
  method StoreAndFetch(expiredAt: nat, status: int, declaredHeader: int, declaredBody: int, maxSize: int,
                       headerChunks: seq<ByteString>, bodyChunks: seq<ByteString>, headerBuffer: nat, bodyBuffer: nat)
    returns (found: bool, gotExpires: nat, gotStatus: int, header: ByteString, body: ByteString)
    requires headerBuffer > 0 && bodyBuffer > 0
    requires expiredAt < TWO_TO_THE_32
    requires |Flatten(headerChunks)| < TWO_TO_THE_32 && |Flatten(bodyChunks)| < TWO_TO_THE_63
    ensures found <==>
              && (maxSize > 0 && bodyChunks != [] ==> |Flatten(bodyChunks)| <= maxSize)
              && (declaredBody > 0 ==> declaredBody == |Flatten(bodyChunks)|)
              && Flatten(headerChunks) != []
    ensures found ==> gotExpires == expiredAt && gotStatus == if 100 <= status <= 999 then status else 200
    ensures found ==> header == Flatten(headerChunks) && body == Flatten(bodyChunks)
  {
    var file := Store(expiredAt, status, declaredHeader, declaredBody, maxSize, headerChunks, bodyChunks);
    found, gotExpires, gotStatus, header, body := false, 0, 0, [], [];
    if file.Some? {
      found, gotExpires, gotStatus, header, body :=
        Fetch(file.value, headerBuffer, bodyBuffer,
              expiredAt, StatusToWrite(status), Flatten(headerChunks), Flatten(bodyChunks));
    }
  }
}
