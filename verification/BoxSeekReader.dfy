/** mp4/boxseekreader.go: a seekable window over a stream that can only be read forwards. */
module BoxSeekReader {
  import opened BitStrings
  import opened ByteStream

  // ----- the stream below -----

  /** The underlying io.Reader: bytes are taken from the front, and its only error is the end of the data. */
  class Source {
    const data: seq<byte>
    var consumed: nat

    ghost predicate Valid()
      reads this
    {
      consumed <= |data|
    }

    constructor (data: seq<byte>)
      ensures Valid() && this.data == data && consumed == 0
    {
      this.data, consumed := data, 0;
    }

    /** One Read of up to want bytes. It may be short: grant says how many bytes the stream is ready to give, which is
        at least one where there are any.
      */
    method Read(want: nat, grant: nat) returns (got: seq<byte>)
      requires Valid()
      modifies this
      ensures Valid() && consumed == old(consumed) + |got| && |got| <= want
      ensures got == data[old(consumed)..consumed]
      ensures want > 0 && old(consumed) < |data| ==> |got| > 0
      ensures |got| == Min(want, Min(|data| - old(consumed), AtLeastOne(grant)))
    {
      var n := Min(want, Min(|data| - consumed, AtLeastOne(grant)));
      got := data[consumed..consumed + n];
      consumed := consumed + n;
    }

    /** io.ReadFull of want bytes: fewer only at the end of the data. */
    method ReadFull(want: nat) returns (got: seq<byte>)
      requires Valid()
      modifies this
      ensures Valid() && consumed == old(consumed) + |got|
      ensures got == data[old(consumed)..consumed]
      ensures |got| == Min(want, |data| - old(consumed))
    {
      var n := Min(want, |data| - consumed);
      got := data[consumed..consumed + n];
      consumed := consumed + n;
    }
  }

  function AtLeastOne(n: nat): nat {
    if n == 0 then 1 else n
  }

  // ----- box headers -----

  datatype BoxHeader = BoxHeader(name: seq<byte>, size: nat, hdrlen: nat)

  function BigEndian64(f: seq<byte>): nat
    requires |f| == 8
  {
    BigEndian32(f[..4]) * 0x1_0000_0000 + BigEndian32(f[4..])
  }

  /** The header at the start of buf, of 8 bytes, or of 16 where the size is 1; None where it makes no sense. */
  function HeaderIn(buf: seq<byte>): (h: Option<BoxHeader>)
    requires |buf| >= 8
    ensures h.Some? ==> 8 <= h.value.hdrlen <= |buf| && h.value.hdrlen <= h.value.size
  {
    var large := BigEndian32(buf[..4]) == 1 && |buf| >= 16;
    var size := if large then BigEndian64(buf[8..16]) else BigEndian32(buf[..4]);
    var headerLen := if large then 16 else 8;
    if size == 0 || headerLen > size then None else Some(BoxHeader(buf[4..8], size, headerLen))
  }

  /** The header of the box that starts at pos. */
  function HeaderAt(data: seq<byte>, pos: nat): (h: Option<BoxHeader>)
    ensures h.Some? ==> pos + h.value.hdrlen <= |data| && 8 <= h.value.hdrlen <= h.value.size
  {
    if pos + 8 > |data| then None
    else
      var len := if BigEndian32(data[pos..pos + 4]) == 1 then 16 else 8;
      if pos + len > |data| then None else HeaderIn(data[pos..pos + len])
  }

  /** What a buffer of at least the header says is what the stream says. */
  lemma HeaderFromBuffer(data: seq<byte>, pos: nat, buf: seq<byte>)
    requires 8 <= |buf| && pos + |buf| <= |data| && buf == data[pos..pos + |buf|]
    requires BigEndian32(buf[..4]) == 1 ==> |buf| >= 16
    ensures HeaderIn(buf) == HeaderAt(data, pos)
  {
    var len := if BigEndian32(buf[..4]) == 1 then 16 else 8;
    var h := data[pos..pos + len];
    Sub(data, pos, buf, 0, 4);
    Sub(data, pos, h, 0, 4);
    Sub(data, pos, buf, 4, 8);
    Sub(data, pos, h, 4, 8);
    if len == 16 {
      Sub(data, pos, buf, 8, 16);
      Sub(data, pos, h, 8, 16);
    }
  }

  lemma Sub(data: seq<byte>, pos: nat, buf: seq<byte>, i: nat, j: nat)
    requires pos + |buf| <= |data| && buf == data[pos..pos + |buf|] && i <= j <= |buf|
    ensures buf[i..j] == data[pos + i..pos + j]
  {
    forall k | i <= k < j ensures buf[k] == data[pos + k] {
    }
  }

  lemma Extended(data: seq<byte>, a: nat, b: nat, c: nat)
    requires a <= b <= c <= |data|
    ensures data[a..b] + data[b..c] == data[a..c]
  {
  }

  /** Where a header is asked for and io.EOF is the answer: at the end of the stream, but also where the stream ends
      between the two parts of a header with a large size.
    */
  predicate PlainEof(data: seq<byte>, pos: nat) {
    pos == |data| || (pos + 8 == |data| && BigEndian32(data[pos..pos + 4]) == 1)
  }

  /** The 8 or 16 bytes of a header. Where the stream ends before the header does there are fewer than 8, and none for
      io.EOF.
    */
  method ReadHeaderBytes(reader: Source) returns (headerBuf: seq<byte>)
    requires reader.Valid()
    modifies reader
    ensures reader.Valid() && (headerBuf == [] <==> PlainEof(reader.data, old(reader.consumed)))
    ensures old(reader.consumed) == |reader.data| ==> reader.consumed == old(reader.consumed)
    ensures |headerBuf| < 8 ==> HeaderAt(reader.data, old(reader.consumed)).None?
    ensures |headerBuf| >= 8 ==>
              && reader.consumed == old(reader.consumed) + |headerBuf|
              && headerBuf == reader.data[old(reader.consumed)..reader.consumed]
              && HeaderIn(headerBuf) == HeaderAt(reader.data, old(reader.consumed))
              && (HeaderIn(headerBuf).Some? ==> HeaderIn(headerBuf).value.hdrlen == |headerBuf|)
  {
    hide BigEndian64;
    ghost var pos, data := reader.consumed, reader.data;
    headerBuf := reader.ReadFull(8);
    if |headerBuf| < 8 {
      return;
    }
    assert headerBuf[..4] == data[pos..pos + 4];
    if BigEndian32(headerBuf[..4]) == 1 {
      var largeSizeBuf := reader.ReadFull(8);
      if |largeSizeBuf| < 8 {
        return largeSizeBuf;
      }
      Extended(data, pos, pos + 8, pos + 16);
      headerBuf := headerBuf + largeSizeBuf;
      assert headerBuf[..4] == data[pos..pos + 4];
    }
    HeaderFromBuffer(data, pos, headerBuf);
  }

  datatype Outcome<+T> = Done(value: T) | Failed | Eof

  // ----- the window -----

  class Window {
    const reader: Source
    var store: array<byte>
    var len: nat
    var bufferPos: nat
    var currentPos: nat
    var mdatStart: nat
    var mdatSize: nat
    var mdatActive: bool

    /** The buffer is the slice of the stream from bufferPos to where the stream was read, and the current position is
        inside it.
      */
    ghost predicate Valid()
      reads this, reader, store
    {
      && reader.Valid() && len <= store.Length
      && reader.consumed == bufferPos + len
      && store[..len] == reader.data[bufferPos..reader.consumed]
      && bufferPos <= currentPos <= reader.consumed
      && (mdatActive ==> mdatStart <= bufferPos)
    }

    ghost function BufferEnd(): nat
      reads this
    {
      bufferPos + len
    }

    function MdatEnd(): nat
      reads this
    {
      mdatStart + mdatSize
    }

    constructor (reader: Source, initialSize: nat)
      requires reader.Valid() && reader.consumed == 0
      ensures Valid() && fresh(store) && this.reader == reader && currentPos == 0 && len == 0 && !mdatActive
    {
      this.reader := reader;
      store := new byte[if initialSize == 0 then 0x1_0000 else initialSize];
      len, bufferPos, currentPos, mdatStart, mdatSize, mdatActive := 0, 0, 0, 0, 0, false;
    }

    /** Makes the buffer n bytes long, in a new array where the capacity is too small; what it holds stays. */
    method Resize(n: nat)
      requires len <= store.Length && len <= n
      modifies this`store, this`len, store
      ensures len == n <= store.Length && (store == old(store) || fresh(store))
      ensures store[..old(len)] == old(store[..len])
    {
      if store.Length < n {
        var newBuf := new byte[n](i requires 0 <= i reads this, store => if i < store.Length then store[i] else 0);
        store := newBuf;
      }
      len := n;
    }

    /** append(buffer, bytes...) */
    method Append(bytes: seq<byte>)
      requires len <= store.Length
      modifies this`store, this`len, store
      ensures len == old(len) + |bytes| <= store.Length && (store == old(store) || fresh(store))
      ensures store[..len] == old(store[..len]) + bytes
    {
      ghost var was := store[..len];
      var from := len;
      Resize(len + |bytes|);
      Put(from, bytes);
      assert store[..from] == was;
    }

    /** copy(buffer[from:], bytes) */
    method Put(from: nat, bytes: seq<byte>)
      requires from + |bytes| <= len <= store.Length
      modifies store
      ensures store[..from + |bytes|] == old(store[..from]) + bytes
    {
      forall i | 0 <= i < |bytes| {
        store[from + i] := bytes[i];
      }
    }

    /** ReadFullBox, after the header was peeked. Fails without a change for sizes above 2 GiB and below what is in the
        buffer; where the stream ends too early, the window is lost.
      */
    method ReadFullBox(boxSize: nat) returns (r: Outcome<seq<byte>>)
      requires Valid()
      modifies this`store, this`len, this`currentPos, store, reader
      ensures store == old(store) || fresh(store)
      ensures r.Failed? <==> boxSize > 0x8000_0000 || boxSize < old(len)
      ensures r.Eof? <==> !r.Failed? && bufferPos + boxSize > |reader.data|
      ensures r.Failed? ==> Valid() && len == old(len) && currentPos == old(currentPos)
      ensures r.Done? ==> Valid() && len == boxSize && currentPos == BufferEnd()
      ensures r.Done? ==> r.value == reader.data[bufferPos..bufferPos + boxSize]
    {
      if boxSize > 0x8000_0000 {
        return Failed;
      }
      var headerLen := len;
      if boxSize < headerLen {
        return Failed;
      }
      Resize(boxSize);
      if boxSize - headerLen > 0 {
        var ok := FillFrom(headerLen);
        if !ok {
          return Eof;
        }
      }
      currentPos := bufferPos + boxSize;
      return Done(store[..boxSize]);
    }

    /** io.ReadFull of the bytes of the buffer that follow the first from. */
    method FillFrom(from: nat) returns (ok: bool)
      requires reader.Valid() && from <= len <= store.Length && reader.consumed == bufferPos + from
      requires store[..from] == reader.data[bufferPos..reader.consumed]
      modifies store, reader
      ensures reader.Valid() && (ok <==> bufferPos + len <= |reader.data|)
      ensures ok ==> reader.consumed == bufferPos + len && store[..len] == reader.data[bufferPos..bufferPos + len]
    {
      var got := reader.ReadFull(len - from);
      if |got| < len - from {
        return false;
      }
      Put(from, got);
      Extended(reader.data, bufferPos, bufferPos + from, bufferPos + len);
      ok := true;
    }

    /** SetMdatBounds keeps the window if and only if the stream is at the start of the payload. */
    method SetMdatBounds(start: nat, size: nat)
      requires Valid()
      modifies this`mdatStart, this`mdatSize, this`mdatActive, this`len, this`bufferPos, this`currentPos
      ensures Valid() <==> start == reader.consumed
      ensures mdatActive && mdatStart == start && mdatSize == size && len == 0 && bufferPos == currentPos == start
    {
      mdatStart, mdatSize, mdatActive := start, size, true;
      len := 0;
      assert store[..0] == [];
      bufferPos, currentPos := start, start;
    }

    /** ResetBuffer keeps the window if and only if the position is at the end of the buffer. */
    method ResetBuffer()
      requires Valid()
      modifies this`mdatStart, this`mdatSize, this`mdatActive, this`len, this`bufferPos
      ensures Valid() <==> currentPos == old(BufferEnd())
      ensures len == 0 && bufferPos == currentPos && !mdatActive
    {
      len := 0;
      bufferPos := currentPos;
      mdatActive, mdatStart, mdatSize := false, 0, 0;
      assert store[..0] == [];
    }

    /** How many bytes a Read of want bytes may deliver. */
    function Allowed(want: nat): nat
      requires mdatActive ==> currentPos <= MdatEnd()
      reads this
    {
      if mdatActive then Min(want, MdatEnd() - currentPos) else want
    }

    /** Bytes from the stream below go to the caller and to the end of the buffer. */
    method ReadOn(want: nat, grant: nat) returns (got: seq<byte>, eof: bool)
      requires Valid() && currentPos == BufferEnd()
      modifies this`store, this`len, this`currentPos, store, reader
      ensures store == old(store) || fresh(store)
      ensures Valid() && currentPos == BufferEnd() == old(BufferEnd()) + |got|
      ensures got == reader.data[old(currentPos)..currentPos]
      ensures |got| == Min(want, Min(|reader.data| - old(reader.consumed), AtLeastOne(grant)))
      ensures eof <==> want > 0 && old(reader.consumed) == |reader.data|
    {
      got := reader.Read(want, grant);
      eof := want > 0 && |got| == 0;
      Extended(reader.data, bufferPos, currentPos, currentPos + |got|);
      Append(got);
      currentPos := currentPos + |got|;
    }

    /** Delivers the bytes of the stream at the current position, from the buffer as far as it goes and then from the
        stream below, never beyond the end of the mdat payload.
      */
    method Read(want: nat, grant: nat) returns (got: seq<byte>, eof: bool)
      requires Valid() && (mdatActive ==> currentPos <= MdatEnd())
      modifies this`store, this`len, this`currentPos, store, reader
      ensures store == old(store) || fresh(store)
      ensures Valid() && currentPos == old(currentPos) + |got|
      ensures got == reader.data[old(currentPos)..currentPos]
      ensures |got| <= old(Allowed(want)) && (old(Allowed(want)) > 0 && !eof ==> |got| > 0)
      ensures mdatActive ==> currentPos <= MdatEnd()
      ensures eof <==> || (mdatActive && old(currentPos) == MdatEnd())
                       || (old(Allowed(want)) > old(BufferEnd() - currentPos) && old(reader.consumed) == |reader.data|)
      ensures eof ==> currentPos == |reader.data| || (mdatActive && currentPos == MdatEnd())
      ensures BufferEnd() == old(BufferEnd()) || BufferEnd() == currentPos
    {
      if mdatActive && currentPos >= MdatEnd() {
        assert reader.data[currentPos..currentPos] == [];
        return [], true;
      }
      got, eof := ReadAllowed(Allowed(want), grant);
    }

    /** Read without bounds. */
    method ReadAllowed(p: nat, grant: nat) returns (got: seq<byte>, eof: bool)
      requires Valid()
      modifies this`store, this`len, this`currentPos, store, reader
      ensures store == old(store) || fresh(store)
      ensures Valid() && currentPos == old(currentPos) + |got| && |got| <= p && (p > 0 && !eof ==> |got| > 0)
      ensures got == reader.data[old(currentPos)..currentPos]
      ensures eof <==> p > old(BufferEnd() - currentPos) && old(reader.consumed) == |reader.data|
      ensures eof ==> currentPos == |reader.data|
      ensures BufferEnd() == old(BufferEnd()) || BufferEnd() == currentPos
    {
      hide MdatEnd;
      var availableInBuffer := bufferPos + len - currentPos;
      if availableInBuffer > 0 {
        var toCopy := Min(p, availableInBuffer);
        got := Buffered(toCopy);
        currentPos := currentPos + toCopy;
        if toCopy == p {
          return got, false;
        }
        var more;
        more, eof := ReadOn(p - toCopy, grant);
        Extended(reader.data, old(currentPos), old(currentPos) + toCopy, currentPos);
        got := got + more;
        return;
      }
      got, eof := ReadOn(p, grant);
    }

    /** n bytes of the buffer at the current position. */
    method Buffered(n: nat) returns (got: seq<byte>)
      requires Valid() && currentPos + n <= BufferEnd()
      ensures got == reader.data[currentPos..currentPos + n]
    {
      var offset := currentPos - bufferPos;
      got := store[..len][offset..offset + n];
      Sub(reader.data, bufferPos, store[..len], offset, offset + n);
    }

    /** Where Seek is asked to go. */
    function Target(offset: int, whence: Whence): int
      reads this
    {
      if whence == SeekStart then offset else currentPos + offset
    }

    /** Seek does not refuse to go to t. */
    predicate Allows(t: int)
      reads this
    {
      t >= bufferPos && (mdatActive ==> mdatStart <= t <= MdatEnd())
    }

    /** Where the stream has to be read to for t. Beyond the buffer Seek counts the bytes from the current position, not
        from the end of the buffer, and so reads as many too many as there are buffered bytes behind the position.
      */
    function Reach(t: nat): nat
      requires currentPos <= bufferPos + len
      reads this
    {
      if t <= bufferPos + len then bufferPos + len else t + (bufferPos + len - currentPos)
    }

    /** Moves the position within the buffer, or forwards. It succeeds if and only if the target is allowed and the
        stream is as long as Reach says. The window is kept in any case.
      */
    method Seek(offset: int, whence: Whence) returns (r: Outcome<nat>)
      requires Valid()
      modifies this`store, this`len, this`currentPos, store, reader
      ensures store == old(store) || fresh(store)
      ensures Valid()
      ensures r.Failed? <==> whence == SeekEnd || whence == SeekOther || !old(Allows(Target(offset, whence)))
      ensures r.Failed? ==> currentPos == old(currentPos) && BufferEnd() == old(BufferEnd())
      ensures !r.Failed? ==>
                var t := old(Target(offset, whence));
                && (r.Done? <==> old(Reach(t)) <= |reader.data|)
                && BufferEnd() == Min(old(Reach(t)), |reader.data|)
                && (r.Done? ==> r.value == t == currentPos)
                && (r.Eof? ==> currentPos <= t && BufferEnd() - currentPos == old(BufferEnd() - currentPos))
    {
      if whence == SeekEnd || whence == SeekOther {
        return Failed;
      }
      var newPos := Target(offset, whence);
      if newPos < 0 {
        return Failed;
      }
      if mdatActive && (newPos < mdatStart || newPos > MdatEnd()) {
        return Failed;
      }
      if bufferPos <= newPos <= bufferPos + len {
        currentPos := newPos;
        return Done(newPos);
      }
      if newPos < bufferPos {
        return Failed;
      }
      r := SeekForward(newPos);
    }

    /** The bytes that follow, up to toRead, to the end of the buffer. */
    method ReadAhead(toRead: nat) returns (n: nat)
      requires Valid()
      modifies this`store, this`len, store, reader
      ensures store == old(store) || fresh(store)
      ensures Valid() && n == Min(toRead, |reader.data| - old(reader.consumed)) && BufferEnd() == old(BufferEnd()) + n
    {
      hide MdatEnd;
      var currentLen := len;
      Resize(currentLen + toRead);
      var got := reader.ReadFull(toRead);
      Extended(reader.data, bufferPos, bufferPos + currentLen, bufferPos + currentLen + |got|);
      Put(currentLen, got);
      n := |got|;
      len := currentLen + n;
    }

    /** The target lies beyond the buffer. */
    method SeekForward(newPos: nat) returns (r: Outcome<nat>)
      requires Valid() && BufferEnd() < newPos && (mdatActive ==> mdatStart <= newPos)
      modifies this`store, this`len, this`currentPos, store, reader
      ensures store == old(store) || fresh(store)
      ensures Valid() && BufferEnd() == Min(old(Reach(newPos)), |reader.data|)
      ensures if old(Reach(newPos)) <= |reader.data| then r == Done(newPos) && currentPos == newPos else r == Eof
      ensures currentPos <= newPos && BufferEnd() - currentPos == old(BufferEnd() - currentPos)
    {
      var toRead := newPos - currentPos;
      var n := ReadAhead(toRead);
      currentPos := currentPos + n;
      return if n < toRead then Eof else Done(newPos);
    }

    /** PeekBoxHeader. With a header in the buffer it is parsed again, and the box starts where the buffer does;
        otherwise it is read from the stream but taken to start at the position, and the window is kept if and only if
        that is at the end of the buffer.
      */
    method PeekBoxHeader() returns (r: Outcome<(BoxHeader, nat)>)
      requires Valid()
      modifies this`store, this`len, this`bufferPos, this`currentPos, store, reader
      ensures store == old(store) || fresh(store)
      ensures old(len) >= 8 ==> Valid() && bufferPos == old(bufferPos) && len == old(len) && !r.Eof?
      ensures old(len) >= 8 && r.Failed? ==> HeaderIn(old(store[..len])).None? && currentPos == old(currentPos)
      ensures old(len) >= 8 && r.Done? ==> HeaderIn(old(store[..len])) == Some(r.value.0) && r.value.1 == bufferPos
      ensures old(len) < 8 ==> (r.Done? <==> HeaderAt(reader.data, old(BufferEnd())).Some?)
      ensures old(len) < 8 ==> (r.Eof? <==> PlainEof(reader.data, old(BufferEnd())))
      ensures old(len) < 8 && old(BufferEnd()) == |reader.data| ==>
                Valid() && currentPos == old(currentPos) && len == old(len)
      ensures old(len) < 8 && r.Done? ==>
                && (Valid() <==> old(currentPos == BufferEnd()))
                && HeaderAt(reader.data, old(BufferEnd())) == Some(r.value.0) && r.value.1 == old(currentPos)
                && bufferPos == old(currentPos) && len == r.value.0.hdrlen
      ensures r.Done? ==> currentPos == r.value.1 + r.value.0.hdrlen
    {
      if len >= 8 {
        var h := HeaderIn(store[..len]);
        if h.None? {
          return Failed;
        }
        currentPos := bufferPos + h.value.hdrlen;
        return Done((h.value, bufferPos));
      }
      r := ReadHeader();
    }

    /** Reads a header from the stream, which replaces the buffer. */
    method ReadHeader() returns (r: Outcome<(BoxHeader, nat)>)
      requires Valid()
      modifies this`store, this`len, this`bufferPos, this`currentPos, store, reader
      ensures store == old(store) || fresh(store)
      ensures r.Done? <==> HeaderAt(reader.data, old(BufferEnd())).Some?
      ensures r.Eof? <==> PlainEof(reader.data, old(BufferEnd()))
      ensures old(BufferEnd()) == |reader.data| ==> Valid() && currentPos == old(currentPos) && len == old(len)
      ensures r.Done? ==>
                && (Valid() <==> old(currentPos == BufferEnd()))
                && HeaderAt(reader.data, old(BufferEnd())) == Some(r.value.0) && r.value.1 == old(currentPos)
                && bufferPos == old(currentPos) && len == r.value.0.hdrlen && currentPos == BufferEnd()
    {
      hide HeaderAt, HeaderIn, PlainEof;
      var boxStartPos := currentPos;
      var headerBuf := ReadHeaderBytes(reader);
      if |headerBuf| == 0 {
        return Eof;
      }
      if |headerBuf| < 8 {
        return Failed;
      }
      var h := HeaderIn(headerBuf);
      if h.None? {
        return Failed;
      }
      len := 0;
      assert store[..0] == [];
      Append(headerBuf);
      bufferPos := boxStartPos;
      currentPos := boxStartPos + h.value.hdrlen;
      return Done((h.value, boxStartPos));
    }
  }

  datatype Whence = SeekStart | SeekCurrent | SeekEnd | SeekOther

  // ----- the protocol: peek, take the box or its mdat payload, reset -----

  /** The second of two peeks gives the same header and start, and reads nothing. */
  method PeekTwice(w: Window) returns (first: Outcome<(BoxHeader, nat)>, second: Outcome<(BoxHeader, nat)>)
    requires w.Valid() && w.len == 0
    modifies w, w.store, w.reader
    ensures first.Done? ==> second == first && w.Valid() && w.currentPos == second.value.1 + second.value.0.hdrlen
    ensures first.Done? ==> w.reader.consumed == old(w.reader.consumed) + first.value.0.hdrlen
  {
    first := w.PeekBoxHeader();
    second := first;
    if first.Done? {
      ghost var data, pos := w.reader.data, w.bufferPos;
      HeaderFromBufferExact(data, pos, w.store[..w.len]);
      second := w.PeekBoxHeader();
    }
  }

  /** A buffer that holds exactly a header. */
  lemma HeaderFromBufferExact(data: seq<byte>, pos: nat, buf: seq<byte>)
    requires HeaderAt(data, pos).Some? && |buf| == HeaderAt(data, pos).value.hdrlen && buf == data[pos..pos + |buf|]
    ensures HeaderIn(buf) == HeaderAt(data, pos)
  {
    Sub(data, pos, buf, 0, 4);
  }

  /** A box as the reader gives it. */
  datatype BoxData = BoxData(header: BoxHeader, start: nat, bytes: seq<byte>)

  /** What ends the boxes of an init segment: the end of the stream, the first box of a fragment, or an error. */
  datatype Ending = EndOfStream | FragmentStart | Broken

  /** The boxes of an init segment, what ends them, and where. */
  datatype InitBoxes = InitBoxes(boxes: seq<BoxData>, ending: Ending, end: nat)

  /** styp, moof, sidx, emsg and prft. */
  predicate StartsFragment(name: seq<byte>) {
    || name == [0x73, 0x74, 0x79, 0x70]
    || name == [0x6d, 0x6f, 0x6f, 0x66]
    || name == [0x73, 0x69, 0x64, 0x78]
    || name == [0x65, 0x6d, 0x73, 0x67]
    || name == [0x70, 0x72, 0x66, 0x74]
  }

  predicate IsMdat(name: seq<byte>) {
    name == [0x6d, 0x64, 0x61, 0x74]
  }

  /** A box that can be read in full: at most 2 GiB, and within the stream. */
  predicate Readable(data: seq<byte>, pos: nat, h: BoxHeader) {
    h.size <= 0x8000_0000 && pos + h.size <= |data|
  }

  /** What the box at pos is to the loop: None for one that belongs to the init segment. */
  function EndingAt(data: seq<byte>, pos: nat): Option<Ending> {
    var h := HeaderAt(data, pos);
    if h.None? then Some(if PlainEof(data, pos) then EndOfStream else Broken)
    else if StartsFragment(h.value.name) then Some(FragmentStart)
    else if IsMdat(h.value.name) || !Readable(data, pos, h.value) then Some(Broken)
    else None
  }

  lemma BoxThere(data: seq<byte>, pos: nat)
    requires EndingAt(data, pos).None?
    ensures HeaderAt(data, pos).Some? && HeaderAt(data, pos).value.size >= 8
    ensures pos + HeaderAt(data, pos).value.size <= |data|
  {
  }

  function BoxAt(data: seq<byte>, pos: nat): BoxData
    requires EndingAt(data, pos).None?
  {
    BoxThere(data, pos);
    var h := HeaderAt(data, pos).value;
    BoxData(h, pos, data[pos..pos + h.size])
  }

  /** The boxes from pos on, up to what ends them. */
  function BoxesFrom(data: seq<byte>, pos: nat): InitBoxes
    decreases |data| - pos
  {
    var e := EndingAt(data, pos);
    if e.Some? then InitBoxes([], e.value, pos)
    else
      BoxThere(data, pos);
      var rest := BoxesFrom(data, pos + HeaderAt(data, pos).value.size);
      rest.(boxes := [BoxAt(data, pos)] + rest.boxes)
  }

  /** One box of the init segment in full: peek, read, reset; or what ends them. */
  method NextBox(w: Window) returns (ending: Option<Ending>, box: Option<BoxData>)
    requires w.Valid() && w.len == 0
    modifies w, w.store, w.reader
    ensures w.store == old(w.store) || fresh(w.store)
    ensures ending == EndingAt(w.reader.data, old(w.currentPos))
    ensures ending.None? ==>
              && box == Some(BoxAt(w.reader.data, old(w.currentPos)))
              && w.Valid() && w.len == 0 && w.currentPos == old(w.currentPos) + box.value.header.size
    ensures ending == Some(FragmentStart) ==>
              && w.Valid() && w.currentPos == w.bufferPos == old(w.currentPos) && w.len >= 8
              && HeaderIn(w.store[..w.len]) == HeaderAt(w.reader.data, w.currentPos)
  {
    hide HeaderAt, HeaderIn, PlainEof, StartsFragment, IsMdat;
    ghost var pos, data := w.currentPos, w.reader.data;
    var peeked := w.PeekBoxHeader();
    if peeked.Eof? {
      return Some(EndOfStream), None;
    }
    if peeked.Failed? {
      return Some(Broken), None;
    }
    var h := peeked.value.0;
    if StartsFragment(h.name) {
      HeaderFromBufferExact(data, pos, w.store[..w.len]);
      w.currentPos := peeked.value.1;
      return Some(FragmentStart), None;
    }
    if IsMdat(h.name) {
      return Some(Broken), None;
    }
    var read := w.ReadFullBox(h.size);
    if !read.Done? {
      return Some(Broken), None;
    }
    w.ResetBuffer();
    return None, Some(BoxData(h, peeked.value.1, read.value));
  }

  // ----- printed boxes are found as they were -----

  /** A box to be printed, with the small or the large form of its size. */
  datatype Box = Box(name: seq<byte>, payload: seq<byte>, large: bool)
  {
    function HeaderLength(): nat {
      if large then 16 else 8
    }

    function Size(): nat {
      HeaderLength() + |payload|
    }

    predicate Valid() {
      |name| == 4 && (if large then Size() < 0x1_0000_0000_0000_0000 else Size() < 0x1_0000_0000)
    }

    /** Size, name and, in the large form, the size that the first field has no room for. */
    function Header(): (s: seq<byte>)
      requires Valid()
      ensures |s| == HeaderLength()
    {
      if large then LengthField(1) + name + LengthField(Size() / 0x1_0000_0000) + LengthField(Size() % 0x1_0000_0000)
      else LengthField(Size()) + name
    }

    function Printed(): (s: seq<byte>)
      requires Valid()
      ensures |s| == Size()
    {
      Header() + payload
    }
  }

  /** A printed header says what it was printed from. */
  lemma HeaderBack(b: Box)
    requires b.Valid()
    ensures HeaderIn(b.Header()) == Some(BoxHeader(b.name, b.Size(), b.HeaderLength()))
    ensures BigEndian32(b.Header()[..4]) == 1 <==> b.large
  {
    hide LengthField, BigEndian32;
    var h, n := b.Header(), b.Size();
    if b.large {
      var hi, lo := n / 0x1_0000_0000, n % 0x1_0000_0000;
      LengthFieldExact(1);
      LengthFieldExact(hi);
      LengthFieldExact(lo);
      FourFields(LengthField(1), b.name, LengthField(hi), LengthField(lo), h);
    } else {
      LengthFieldExact(n);
      TwoFields(LengthField(n), b.name, h);
    }
  }

  lemma TwoFields(w: seq<byte>, x: seq<byte>, h: seq<byte>)
    requires |w| == |x| == 4 && h == w + x
    ensures h[..4] == w && h[4..8] == x
  {
  }

  lemma FourFields(w: seq<byte>, x: seq<byte>, y: seq<byte>, z: seq<byte>, h: seq<byte>)
    requires |w| == |x| == |y| == |z| == 4 && h == w + x + y + z
    ensures h[..4] == w && h[4..8] == x && h[8..16][..4] == y && h[8..16][4..] == z
  {
  }

  /** Wherever a printed header stands in a stream, it is found there. */
  lemma HeaderFound(b: Box, data: seq<byte>, pos: nat, end: nat)
    requires b.Valid() && end == pos + b.HeaderLength() <= |data| && data[pos..end] == b.Header()
    ensures HeaderAt(data, pos) == Some(BoxHeader(b.name, b.Size(), b.HeaderLength()))
  {
    hide HeaderIn;
    HeaderBack(b);
    Sub(data, pos, b.Header(), 0, 4);
  }

  /** A box of an init segment. */
  predicate InitBox(b: Box) {
    b.Valid() && !StartsFragment(b.name) && !IsMdat(b.name) && b.Size() <= 0x8000_0000
  }

  predicate AllInit(boxes: seq<Box>) {
    forall i :: 0 <= i < |boxes| ==> InitBox(boxes[i])
  }

  /** The first k boxes, one after the other. */
  function PrintedTo(boxes: seq<Box>, k: nat): seq<byte>
    requires k <= |boxes| && AllInit(boxes)
  {
    if k == 0 then [] else PrintedTo(boxes, k - 1) + boxes[k - 1].Printed()
  }

  lemma {:induction false} PrintedPrefix(boxes: seq<Box>, j: nat, k: nat)
    requires j <= k <= |boxes| && AllInit(boxes)
    ensures PrintedTo(boxes, j) <= PrintedTo(boxes, k)
  {
    hide InitBox, Box.Printed;
    if j < k {
      PrintedPrefix(boxes, j, k - 1);
    }
  }

  /** The boxes from k on as the reader should give them. */
  function Expected(boxes: seq<Box>, k: nat): seq<BoxData>
    requires k <= |boxes| && AllInit(boxes)
    decreases |boxes| - k
  {
    if k == |boxes| then []
    else
      var b := boxes[k];
      [BoxData(BoxHeader(b.name, b.Size(), b.HeaderLength()), |PrintedTo(boxes, k)|, b.Printed())]
        + Expected(boxes, k + 1)
  }

  /** The box after a. */
  lemma BoxFound(a: seq<byte>, b: Box, data: seq<byte>, pos: nat)
    requires InitBox(b) && a + b.Printed() <= data && pos == |a|
    ensures EndingAt(data, pos).None?
    ensures BoxAt(data, pos) == BoxData(BoxHeader(b.name, b.Size(), b.HeaderLength()), pos, b.Printed())
  {
    hide HeaderAt;
    var p := b.Printed();
    assert data[..|a + p|] == a + p && data[pos..pos + b.Size()] == p;
    assert data[pos..pos + b.HeaderLength()] == p[..b.HeaderLength()] == b.Header();
    HeaderFound(b, data, pos, pos + b.HeaderLength());
  }

  /** Of a stream of such boxes, from box k on, exactly these boxes are found; what follows the last one decides what
      ends them.
    */
  lemma {:induction false} BoxesBack(boxes: seq<Box>, data: seq<byte>, k: nat, pos: nat)
    requires k <= |boxes| && AllInit(boxes) && pos == |PrintedTo(boxes, k)|
    requires PrintedTo(boxes, |boxes|) <= data && EndingAt(data, |PrintedTo(boxes, |boxes|)|).Some?
    ensures var end := |PrintedTo(boxes, |boxes|)|;
            BoxesFrom(data, pos) == InitBoxes(Expected(boxes, k), EndingAt(data, end).value, end)
    decreases |boxes| - k
  {
    hide InitBox, Box.Printed, Box.Header, EndingAt, BoxAt, HeaderAt;
    if k < |boxes| {
      assert InitBox(boxes[k]);
      PrintedPrefix(boxes, k + 1, |boxes|);
      BoxFound(PrintedTo(boxes, k), boxes[k], data, pos);
      BoxesBack(boxes, data, k + 1, pos + boxes[k].Size());
      NextFound(data, pos);
    }
  }

  lemma NextFound(data: seq<byte>, pos: nat)
    requires EndingAt(data, pos).None?
    ensures var b := BoxAt(data, pos);
            && pos + b.header.size <= |data|
            && var rest := BoxesFrom(data, pos + b.header.size);
            BoxesFrom(data, pos) == rest.(boxes := [b] + rest.boxes)
  {
    BoxThere(data, pos);
  }

  /** ReadBoxes on the printed form of any list of boxes, and nothing else, gives this list, and a clean end. */
  method ReadPrinted(boxes: seq<Box>, initialSize: nat) returns (found: seq<BoxData>, ending: Ending)
    requires AllInit(boxes)
    ensures found == Expected(boxes, 0) && ending == EndOfStream
  {
    var data := PrintedTo(boxes, |boxes|);
    var source := new Source(data);
    var w := new Window(source, initialSize);
    BoxesBack(boxes, data, 0, 0);
    found, ending := ReadBoxes(w);
  }

  // ----- the loop over the boxes -----

  /** boxes and what BoxesFrom finds at pos make goal. */
  ghost predicate Collected(data: seq<byte>, boxes: seq<BoxData>, pos: nat, goal: InitBoxes) {
    var rest := BoxesFrom(data, pos);
    goal == rest.(boxes := boxes + rest.boxes)
  }

  lemma CollectOne(data: seq<byte>, boxes: seq<BoxData>, pos: nat, goal: InitBoxes)
    requires Collected(data, boxes, pos, goal)
    ensures var e := EndingAt(data, pos);
            && (e.Some? ==> goal == InitBoxes(boxes, e.value, pos))
            && (e.None? ==>
                  var b := BoxAt(data, pos);
                  b.header.size >= 8 && pos + b.header.size <= |data|
                  && Collected(data, boxes + [b], pos + b.header.size, goal))
  {
    if EndingAt(data, pos).None? {
      BoxThere(data, pos);
      var b := BoxAt(data, pos);
      var rest := BoxesFrom(data, pos + b.header.size);
      assert boxes + ([b] + rest.boxes) == boxes + [b] + rest.boxes;
    } else {
      assert boxes + [] == boxes;
    }
  }

  /** The loop of InitDecodeStream in mp4/stream.go as far as the reader is concerned: it delivers exactly the boxes of
      the init segment, and ends as EndingAt says. Where a fragment starts, the reader is put back to its first box,
      whose header is still in the buffer.
    */
  method ReadBoxes(w: Window) returns (boxes: seq<BoxData>, ending: Ending)
    requires w.Valid() && w.len == 0
    modifies w, w.store, w.reader
    ensures var goal := BoxesFrom(w.reader.data, old(w.currentPos));
            && boxes == goal.boxes && ending == goal.ending
            && (ending == FragmentStart ==>
                  && w.Valid() && w.currentPos == w.bufferPos == goal.end && w.len >= 8
                  && HeaderIn(w.store[..w.len]) == HeaderAt(w.reader.data, goal.end))
  {
    hide HeaderAt, HeaderIn, EndingAt, BoxAt, BoxesFrom;
    ghost var goal, data := BoxesFrom(w.reader.data, w.currentPos), w.reader.data;
    boxes := [];
    assert boxes + goal.boxes == goal.boxes;
    while true
      invariant w.Valid() && w.len == 0 && (w.store == old(w.store) || fresh(w.store))
      invariant Collected(data, boxes, w.currentPos, goal)
      decreases |data| - w.currentPos
    {
      CollectOne(data, boxes, w.currentPos, goal);
      var end, box := NextBox(w);
      if end.Some? {
        return boxes, end.value;
      }
      boxes := boxes + [box.value];
    }
  }

  /** A stream that ends in 00 00 00 01 'f' 'r' 'e' 'e', the first half of a header, is taken to end cleanly. */
  lemma CutHeaderAccepted(data: seq<byte>, pos: nat)
    requires pos + 8 == |data| && data[pos..] == [0, 0, 0, 1, 0x66, 0x72, 0x65, 0x65]
    ensures EndingAt(data, pos) == Some(EndOfStream) && BoxesFrom(data, pos) == InitBoxes([], EndOfStream, pos)
  {
    assert data[pos..pos + 4] == data[pos..][..4] == [0, 0, 0, 1];
  }

  /** From the header of an mdat box to its payload, as processFragment does. */
  method EnterMdat(w: Window, h: BoxHeader, start: nat) returns (ok: bool)
    requires w.Valid() && !w.mdatActive && w.bufferPos == start && w.len == h.hdrlen && h.hdrlen <= h.size
    modifies w, w.store
    modifies w.reader
    ensures ok && w.Valid() && w.mdatActive && w.mdatStart == start + h.hdrlen && w.MdatEnd() == start + h.size
    ensures w.currentPos == w.BufferEnd() == w.mdatStart && (w.store == old(w.store) || fresh(w.store))
  {
    var r := w.Seek(start + h.hdrlen, SeekStart);
    ok := r.Done?;
    w.SetMdatBounds(start + h.hdrlen, h.size - h.hdrlen);
  }

  /** io.ReadFull over Read; grants(i) is what the stream below is ready to give in round i. */
  method ReadFull(w: Window, n: nat, grants: nat -> nat) returns (got: seq<byte>)
    requires w.Valid() && (w.mdatActive ==> w.currentPos <= w.MdatEnd())
    modifies w`store, w`len, w`currentPos, w.store, w.reader
    ensures w.store == old(w.store) || fresh(w.store)
    ensures w.Valid() && w.currentPos == old(w.currentPos) + |got|
              && got == w.reader.data[old(w.currentPos)..w.currentPos]
    ensures |got| == Min(old(w.Allowed(n)), |w.reader.data| - old(w.currentPos))
    ensures w.BufferEnd() == old(w.BufferEnd()) || w.BufferEnd() == w.currentPos
    ensures w.mdatActive ==> w.currentPos <= w.MdatEnd()
  {
    got := [];
    var round := 0;
    ghost var start, limit := w.currentPos, w.Allowed(n);
    while |got| < n
      invariant w.Valid() && |got| <= limit && w.currentPos == start + |got|
                  && (w.store == old(w.store) || fresh(w.store))
      invariant got == w.reader.data[start..w.currentPos]
      invariant w.mdatActive ==> w.currentPos <= w.MdatEnd()
      invariant w.BufferEnd() == old(w.BufferEnd()) || w.BufferEnd() == w.currentPos
      decreases n - |got|
    {
      var more, eof := w.Read(n - |got|, grants(round));
      Extended(w.reader.data, start, start + |got|, w.currentPos);
      got := got + more;
      round := round + 1;
      if eof {
        return;
      }
    }
  }

  /** One sample of the payload, as a fragment callback takes it: seek to its offset, read it in full. It is got if and
      only if the seek may go there and the stream is long enough for the seek, and the sample lies within the payload
      and within the stream. Samples taken in stream order leave the position at the end of the buffer and read nothing
      beyond the payload.
    */
  method ReadSample(w: Window, offset: nat, n: nat, grants: nat -> nat) returns (ok: bool, got: seq<byte>)
    requires w.Valid() && w.mdatActive && w.currentPos <= w.MdatEnd()
    modifies w`store, w`len, w`currentPos, w.store, w.reader
    ensures w.store == old(w.store) || fresh(w.store)
    ensures w.Valid() && w.currentPos <= w.MdatEnd()
    ensures ok <==> old(w.Allows(offset) && w.Reach(offset) <= |w.reader.data|)
                    && offset + n <= Min(old(w.MdatEnd()), |w.reader.data|)
    ensures ok ==> |got| == n && offset + n <= |w.reader.data| && got == w.reader.data[offset..offset + n]
    ensures ok ==> w.currentPos == offset + n
    ensures old(w.currentPos) == old(w.BufferEnd()) <= offset ==> w.currentPos == w.BufferEnd()
  {
    var r := w.Seek(offset, SeekStart);
    if !r.Done? {
      return false, [];
    }
    got := ReadFull(w, n, grants);
    ok := |got| == n;
  }

  /** The end of processFragment: seek to the end of the payload, reset. The window is then at the next box if and only
      if the position was at the end of the buffer, or the buffer already reached the end of the payload. Otherwise the
      stream has been read beyond the end of the payload, by as many bytes as were buffered behind the position.
    */
  method FinishMdat(w: Window) returns (ok: bool)
    requires w.Valid() && w.mdatActive && w.currentPos <= w.MdatEnd()
    modifies w, w.store, w.reader
    ensures ok <==> old(w.Reach(w.MdatEnd())) <= |w.reader.data|
    ensures ok ==> w.currentPos == old(w.MdatEnd()) && w.len == 0 && !w.mdatActive
    ensures ok ==> w.reader.consumed == old(w.Reach(w.MdatEnd()))
    ensures ok ==>
              (w.Valid() <==>
               old(w.BufferEnd() == w.MdatEnd() || (w.BufferEnd() < w.MdatEnd() && w.currentPos == w.BufferEnd())))
  {
    var r := w.Seek(w.MdatEnd(), SeekStart);
    ok := r.Done?;
    if ok {
      w.ResetBuffer();
    }
  }

  /** The protocol for an mdat box whose samples are taken in stream order: after it the window is at the next box. */
  method ReadMdatInOrder(w: Window, h: BoxHeader, start: nat, sizes: seq<nat>, grants: nat -> nat)
    returns (samples: seq<seq<byte>>)
    requires w.Valid() && !w.mdatActive && w.bufferPos == start && w.len == h.hdrlen && h.hdrlen <= h.size
    requires start + h.size <= |w.reader.data| && h.hdrlen + Sum(sizes, |sizes|) <= h.size
    modifies w, w.store, w.reader
    ensures w.Valid() && w.len == 0 && w.currentPos == start + h.size
    ensures samples == Slices(w.reader.data, start + h.hdrlen, sizes, |sizes|)
  {
    hide Sum, Slices;
    var entered := EnterMdat(w, h, start);
    samples := [];
    var k := 0;
    ghost var payload := start + h.hdrlen;
    NoSlices(w.reader.data, payload, sizes);
    while k < |sizes|
      invariant k <= |sizes| && w.Valid() && w.mdatActive && (w.store == old(w.store) || fresh(w.store))
      invariant w.mdatStart == payload && w.MdatEnd() == start + h.size
      invariant w.currentPos == w.BufferEnd() == payload + Sum(sizes, k)
      invariant samples == Slices(w.reader.data, payload, sizes, k)
    {
      SumMono(sizes, k + 1, |sizes|);
      NextSlice(w.reader.data, payload, sizes, k);
      var sample := ReadFull(w, sizes[k], grants);
      samples := samples + [sample];
      k := k + 1;
    }
    var ok := FinishMdat(w);
  }

  /** The bytes of the first k samples. */
  function Sum(sizes: seq<nat>, k: nat): nat
    requires k <= |sizes|
  {
    if k == 0 then 0 else Sum(sizes, k - 1) + sizes[k - 1]
  }

  lemma {:induction false} SumMono(sizes: seq<nat>, j: nat, k: nat)
    requires j <= k <= |sizes|
    ensures Sum(sizes, j) <= Sum(sizes, k)
  {
    if j < k {
      SumMono(sizes, j, k - 1);
    }
  }

  /** The first k of the consecutive slices from pos on. */
  function Slices(data: seq<byte>, pos: nat, sizes: seq<nat>, k: nat): seq<seq<byte>>
    requires k <= |sizes| && pos + Sum(sizes, k) <= |data|
  {
    if k == 0 then []
    else Slices(data, pos, sizes, k - 1) + [data[pos + Sum(sizes, k - 1)..pos + Sum(sizes, k)]]
  }

  lemma NoSlices(data: seq<byte>, pos: nat, sizes: seq<nat>)
    requires pos <= |data|
    ensures Sum(sizes, 0) == 0 && Slices(data, pos, sizes, 0) == []
  {
  }

  lemma NextSlice(data: seq<byte>, pos: nat, sizes: seq<nat>, k: nat)
    requires k < |sizes| && pos + Sum(sizes, k + 1) <= |data|
    ensures Sum(sizes, k + 1) == Sum(sizes, k) + sizes[k]
    ensures Slices(data, pos, sizes, k + 1)
         == Slices(data, pos, sizes, k) + [data[pos + Sum(sizes, k)..pos + Sum(sizes, k + 1)]]
  {
  }

  /** Reading does go beyond the payload after a seek back: of an mdat payload of 20 bytes, 10 are read, then the
      position goes back to the start and the payload is left.
    */
  method OverReadExample(data: seq<byte>) returns (w: Window)
    requires |data| == 30
    ensures w.currentPos == 20 && w.reader.consumed == 30 && !w.Valid()
  {
    var source := new Source(data);
    w := new Window(source, 64);
    w.SetMdatBounds(0, 20);
    var head := ReadFull(w, 10, i => 10);
    var back := w.Seek(0, SeekStart);
    var ok := FinishMdat(w);
  }
}
