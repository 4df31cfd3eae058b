/** File transfers: `CNtFile`, `AsyncFileBuffered`, `DataTransfer::send_file` and
    `DataTransfer::receive_file`. */
module FileTransfer {
  import opened Text
  import opened TextMode
  import opened Network

  const BUFFER_SIZE := 65536

  /** The file after `data` has been written over it at `at`: nothing is truncated. */
  function Overwritten(content: string, at: nat, data: string): string
    requires at <= |content|
  {
    content[..at] + data + if at + |data| <= |content| then content[at + |data|..] else ""
  }

  /** Byte by byte: the data where it was written, the old file everywhere else. */
  lemma OverwrittenAt(content: string, at: nat, data: string, i: nat)
    requires at <= |content|
    ensures |Overwritten(content, at, data)| == if |content| < at + |data| then at + |data| else |content|
    ensures i < |Overwritten(content, at, data)| ==>
      Overwritten(content, at, data)[i] == if at <= i < at + |data| then data[i - at] else content[i]
  {}

  /** An open file.  `content` is what is on the disk and `position` where the C stream stands
      in it.  The stream is a text-mode one, and the offsets passed to `CNtFile::Read` and
      `Write` are ignored, so `currentOffset` does not govern it. */
  class AsyncFileBuffered {
    var content: string
    var position: nat
    var currentOffset: nat
    var fileSize: nat

    ghost predicate Valid() reads this`content, this`position { position <= |content| }

    /** What is still to be read. */
    ghost function Remaining(): string
      requires Valid()
      reads this`content, this`position
    {
      ReadText(content[position..])
    }

    constructor (onDisk: string)
      ensures Valid() && content == onDisk && position == 0 && currentOffset == 0 && fileSize == |onDisk|
    {
      content, position, currentOffset, fileSize := onDisk, 0, 0, |onDisk|;
    }

    /** One character of a text-mode `fread`. */
    method ReadChar() returns (c: Option<char>)
      requires Valid()
      modifies this`position
      ensures Valid()
      ensures c.None? ==> old(Remaining()) == "" && position == old(position)
      ensures c.Some? ==> old(Remaining()) == [c.value] + Remaining()
    {
      if position == |content| || content[position] == CTRL_Z { return None; }
      if LineEnd(content, position) {
        assert content[position..][2..] == content[position + 2..];
        position := position + 2;
        return Some(LF);
      }
      assert content[position..][1..] == content[position + 1..];
      position := position + 1;
      return Some(content[position - 1]);
    }

    method Read(size: nat) returns (data: string)
      requires Valid()
      modifies this`position, this`currentOffset
      ensures Valid() && data + Remaining() == old(Remaining()) && |data| == Min(size, |old(Remaining())|)
      ensures currentOffset == old(currentOffset) + |data|
    {
      data := "";
      ghost var all := Remaining();
      while |data| < size
        invariant Valid() && |data| <= size && data + Remaining() == all && currentOffset == old(currentOffset)
      {
        var c := ReadChar();
        if c.None? {
          assert Remaining() == "";
          break;
        }
        Concat3(data, [c.value], Remaining());
        data := data + [c.value];
      }
      currentOffset := currentOffset + |data|;
    }

    method Write(data: string) returns (written: nat)
      requires Valid()
      modifies this
      ensures Valid() && written == |data|
      ensures content == Overwritten(old(content), old(position), WriteText(data))
      ensures position == old(position) + |WriteText(data)|
      ensures currentOffset == old(currentOffset) + |data|
      ensures fileSize == if old(fileSize) < currentOffset then currentOffset else old(fileSize)
    {
      content := Overwritten(content, position, WriteText(data));
      position := position + |WriteText(data)|;
      currentOffset := currentOffset + |data|;
      if fileSize < currentOffset { fileSize := currentOffset; }
      written := |data|;
    }

    /** Returns whether `out_of_range` was thrown. */
    method Seek(offset: nat) returns (threw: bool)
      modifies this`currentOffset
      ensures threw == (offset > fileSize)
      ensures currentOffset == if threw then old(currentOffset) else offset
    {
      if offset > fileSize { return true; }
      currentOffset := offset;
      threw := false;
    }
  }

  /** One buffer: sends until all of it has been taken. */
  method SendAll(socket: Socket<char>, buffer: string) returns (bytesSent: nat)
    modifies socket`sent
    ensures bytesSent == |buffer| && socket.sent == old(socket.sent) + buffer
  {
    bytesSent := 0;
    while bytesSent < |buffer|
      invariant bytesSent <= |buffer| && socket.sent == old(socket.sent) + buffer[..bytesSent]
    {
      var n := socket.Send(buffer[bytesSent..]);
      SendMore(buffer, bytesSent, n);
      bytesSent := bytesSent + n;
    }
    assert buffer[..|buffer|] == buffer;
  }

  lemma SendMore(buffer: string, i: nat, n: nat)
    requires i + n <= |buffer|
    ensures buffer[..i] + buffer[i..][..n] == buffer[..i + n]
  {}

  /** Whatever the sizes of the partial sends, the first `maxBytes` bytes that can be read from
      the file go out in order, or all of them, and are counted.  The offset is checked and
      then ignored. */
  method SendFile(onDisk: string, socket: Socket<char>, offset: nat, maxBytes: nat)
    returns (totalSent: nat, threw: bool, file: AsyncFileBuffered)
    modifies socket`sent
    ensures threw == (offset > |onDisk|)
    ensures threw ==> socket.sent == old(socket.sent)
    ensures !threw ==> socket.sent == old(socket.sent) + Prefix(ReadText(onDisk), maxBytes)
    ensures !threw ==> totalSent == Min(maxBytes, |ReadText(onDisk)|) && file.currentOffset == offset + totalSent
  {
    totalSent := 0;
    file := new AsyncFileBuffered(onDisk);
    ghost var text, sent := ReadText(onDisk), "";
    assert onDisk[0..] == onDisk;
    if offset > 0 {
      threw := file.Seek(offset);
      if threw { return; }
    }
    while totalSent < maxBytes
      invariant file.Valid() && |sent| == totalSent <= maxBytes
      invariant sent + file.Remaining() == text && file.currentOffset == offset + totalSent
      invariant socket.sent == old(socket.sent) + sent
      decreases maxBytes - totalSent
    {
      var chunkSize := Min(BUFFER_SIZE, maxBytes - totalSent);
      var buffer := file.Read(chunkSize);
      if buffer == "" { break; }
      var bytesSent := SendAll(socket, buffer);
      Concat3(sent, buffer, file.Remaining());
      Concat3(old(socket.sent), sent, buffer);
      sent := sent + buffer;
      totalSent := totalSent + bytesSent;
    }
    SentIsPrefix(text, sent, file.Remaining(), maxBytes);
    threw := false;
  }

  lemma SentIsPrefix(text: string, sent: string, rest: string, size: nat)
    requires sent + rest == text && |sent| <= size && (|sent| == size || rest == "")
    ensures sent == Prefix(text, size) && |sent| == Min(size, |text|)
  {}

  // ---------------------------------------------------------------- when a download is right

  /** The bytes a transfer from `offset` is supposed to carry. */
  function Requested(onDisk: string, offset: nat, maxBytes: nat): string
    requires offset <= |onDisk|
  {
    Prefix(onDisk[offset..], maxBytes)
  }

  /** At offset 0 the bytes sent are the bytes requested exactly when none of them is a
      control-Z and none starts a line end. */
  lemma SentIsRequested(onDisk: string, maxBytes: nat)
    ensures Prefix(ReadText(onDisk), maxBytes) == Requested(onDisk, 0, maxBytes)
       <==> AllKept(onDisk, Min(maxBytes, |onDisk|))
  {
    ReadUnchanged(onDisk, maxBytes);
    assert onDisk[0..] == onDisk;
  }

  /** The offset has to be 0: at every other one there are files that text mode leaves alone
      and that are still sent wrong. */
  lemma OffsetMustBeZero(offset: nat, maxBytes: nat)
    requires maxBytes > 0
    ensures (forall f: string :: offset <= |f| && AllKept(f, |f|)
              ==> Prefix(ReadText(f), maxBytes) == Requested(f, offset, maxBytes))
       <==> offset == 0
  {
    if offset == 0 {
      forall f: string | AllKept(f, |f|) ensures Prefix(ReadText(f), maxBytes) == Requested(f, 0, maxBytes) {
        SentIsRequested(f, maxBytes);
      }
    } else {
      var f := seq(offset, _ => 'a') + "b";
      forall i | 0 <= i < |f| ensures Kept(f, i) { assert f[i] == 'a' || f[i] == 'b'; }
      SentIsRequested(f, maxBytes);
      assert Requested(f, 0, maxBytes)[0] == 'a' && Requested(f, offset, maxBytes)[0] == 'b';
    }
  }

  /** A file with a line end is sent without its carriage return, one byte short. */
  lemma LineEndIsLost()
    ensures Prefix(ReadText("a\r\nb"), 4) == "a\nb" && Requested("a\r\nb", 0, 4) == "a\r\nb"
  {
    ReadPlain('b', "");
    assert ['b'] + "" == "b" && ReadText("b") == "b";
    ReadLineEnd("b");
    assert [CR, LF] + "b" == "\r\nb";
    ReadPlain('a', "\r\nb");
    assert ['a'] + "\r\nb" == "a\r\nb";
  }

  // ---------------------------------------------------------------- uploads

  /** An upload: the text received goes over the start of the file; the end of the connection
      is an exception, so only the limit ends the loop normally. */
  method ReceiveFile(onDisk: string, socket: Socket<char>, append: bool, maxBytes: nat)
    returns (totalReceived: nat, threw: bool, file: AsyncFileBuffered)
    modifies socket`incoming
    ensures var all := old(socket.incoming);
            && totalReceived <= |all| && socket.incoming == all[totalReceived..]
            && file.content == Overwritten(onDisk, 0, WriteText(all[..totalReceived]))
            && (threw ==> totalReceived == |all| < maxBytes)
            && (!threw ==> maxBytes <= totalReceived)
  {
    totalReceived := 0;
    ghost var all, received := socket.incoming, "";
    file := new AsyncFileBuffered(onDisk);
    if append { var outOfRange := file.Seek(file.fileSize); }
    while totalReceived < maxBytes
      invariant |received| == totalReceived && received + socket.incoming == all
      invariant file.Valid() && file.position == |WriteText(received)|
      invariant file.content == Overwritten(onDisk, 0, WriteText(received))
      decreases |socket.incoming|
    {
      var data := socket.ReadSome(BUFFER_SIZE);
      if data.None? {
        ReceivedSoFar(all, received, socket.incoming);
        return totalReceived, true, file;
      }
      WriteConcat(received, data.value);
      OverwriteMore(onDisk, WriteText(received), WriteText(data.value));
      Concat3(received, data.value, socket.incoming);
      var written := file.Write(data.value);
      received := received + data.value;
      totalReceived := totalReceived + written;
    }
    ReceivedSoFar(all, received, socket.incoming);
    threw := false;
  }

  lemma ReceivedSoFar(all: string, received: string, rest: string)
    requires received + rest == all
    ensures all[..|received|] == received && all[|received|..] == rest
  {}

  lemma OverwriteMore(content: string, a: string, b: string)
    ensures |a| <= |Overwritten(content, 0, a)|
    ensures Overwritten(Overwritten(content, 0, a), |a|, b) == Overwritten(content, 0, a + b)
  {}

  /** The bytes received end up on the disk as they are exactly when none of them is a line feed. */
  lemma ReceivedIsStored(onDisk: string, data: string)
    ensures Overwritten(onDisk, 0, WriteText(data)) == Overwritten(onDisk, 0, data) <==> LF !in data
  {
    if LF in data {
      var k := WriteFirstLineFeed(data);
      assert Overwritten(onDisk, 0, WriteText(data))[k] == CR && Overwritten(onDisk, 0, data)[k] == LF;
    } else {
      WriteFree(data);
    }
  }

  /** Downloading an upload gives it back exactly when it has no control-Z and nothing of the
      old file can be read behind it. */
  lemma UploadThenDownload(onDisk: string, data: string)
    ensures var n := |WriteText(data)|;
            (ReadText(Overwritten(onDisk, 0, WriteText(data))) == data)
            <==> (CTRL_Z !in data && (|onDisk| <= n || onDisk[n] == CTRL_Z))
  {
    var n := |WriteText(data)|;
    var tail := if n <= |onDisk| then onDisk[n..] else "";
    assert Overwritten(onDisk, 0, WriteText(data)) == WriteText(data) + tail;
    WrittenTextReadsBack(data, tail);
  }
}
