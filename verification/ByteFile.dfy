/** A file as a byte string with a cursor. Reads may be short, as the operating system allows. */
module ByteFile {
  import opened Bytes

  /** `data` with `b` laid over it at `off`; a gap before `off` fills with zero bytes. */
  function Overlay(data: ByteString, off: nat, b: ByteString): (r: ByteString)
  {
    if b == [] then data
    else if |data| >= off + |b| then data[..off] + b + data[off + |b|..]
    else PadTo(data, off)[..off] + b
  }

  lemma OverlayAt(data: ByteString, off: nat, b: ByteString)
    ensures var r := Overlay(data, off, b);
      && |r| == (if b == [] || |data| >= off + |b| then |data| else off + |b|)
      && (forall i :: 0 <= i < |data| && !(off <= i < off + |b|) ==> r[i] == data[i])
      && (forall i :: off <= i < off + |b| ==> r[i] == b[i - off])
  {
  }

  function PadTo(data: ByteString, size: nat): (r: ByteString)
    ensures data <= r && |r| >= size
    ensures |data| >= size ==> r == data
    decreases if size > |data| then size - |data| else 0
  {
    if |data| >= size then data else PadTo(data + [0], size)
  }

  /** The gap before bytes that are laid beyond the end holds zero bytes. */
  lemma OverlayGap(data: ByteString, off: nat, b: ByteString)
    requires b != []
    ensures forall i :: |data| <= i < off ==> Overlay(data, off, b)[i] == 0
  {
    if |data| < off + |b| {
      PadIsZero(data, off);
    }
  }

  lemma {:induction false} PadIsZero(data: ByteString, size: nat)
    ensures forall i :: |data| <= i < |PadTo(data, size)| ==> PadTo(data, size)[i] == 0
    decreases if size > |data| then size - |data| else 0
  {
    if |data| < size {
      PadIsZero(data + [0], size);
    }
  }

  lemma OverlayAtEnd(data: ByteString, b: ByteString)
    ensures Overlay(data, |data|, b) == data + b
  {
    assert b == [] ==> data + b == data;
    assert PadTo(data, |data|)[..|data|] == data;
  }

  class File {
    var data: ByteString
    var pos: nat

    constructor (data: ByteString)
      ensures this.data == data && pos == 0
    {
      this.data, pos := data, 0;
    }

    method Seek(offset: nat)
      modifies this`pos
      ensures pos == offset
    {
      pos := offset;
    }

    method Write(b: ByteString)
      modifies this
      ensures data == Overlay(old(data), old(pos), b) && pos == old(pos) + |b|
    {
      data := Overlay(data, pos, b);
      pos := pos + |b|;
    }

    method WriteAt(b: ByteString, offset: nat)
      modifies this`data
      ensures data == Overlay(old(data), offset, b)
    {
      data := Overlay(data, offset, b);
    }

    /** Grows the file with zero bytes, or cuts it. */
    method Truncate(size: nat)
      modifies this`data
      ensures |data| == size
      ensures forall i :: 0 <= i < size && i < |old(data)| ==> data[i] == old(data)[i]
      ensures forall i :: |old(data)| <= i < size ==> data[i] == 0
    {
      data := if size <= |data| then data[..size] else data + seq(size - |data|, _ => 0);
    }

    /** At least one byte when there is one left and the buffer has room; nothing at the end of the file. */
    method Read(room: nat) returns (b: ByteString, eof: bool)
      modifies this`pos
      ensures |b| <= room && old(pos) + |b| == pos
      ensures b != [] ==> pos <= |data| && b == data[old(pos)..pos]
      ensures old(pos) < |data| && room > 0 ==> b != [] && !eof
      ensures old(pos) >= |data| ==> b == [] && (room > 0 ==> eof)
    {
      if room == 0 {
        return [], false;
      }
      if pos >= |data| {
        return [], true;
      }
      var n :| 0 < n <= room && pos + n <= |data|;
      b := data[pos..pos + n];
      pos := pos + n;
      eof := false;
    }

    /** One read of a small prefix, which a regular file returns as far as it goes. */
    method ReadFull(room: nat) returns (b: ByteString)
      modifies this`pos
      ensures old(pos) + room <= |data| ==> b == data[old(pos)..old(pos) + room] && pos == old(pos) + room
      ensures old(pos) + room > |data| && room > 0 ==> |b| < room
    {
      var end := if pos + room <= |data| then pos + room else if pos <= |data| then |data| else pos;
      b := if pos <= |data| then data[pos..end] else [];
      pos := end;
    }
  }
}
