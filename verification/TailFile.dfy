/** `File` of hydra/file.go: the open file, its read buffer and the carried fragment,
    on the heap as the agent keeps them. */
module TailFile {
  import opened Prelude
  import opened GoSlice
  import opened Lines

  // ---- records --------------------------------------------------------------

  /** A record of a FormatNone file: `message` is a window on the block it was split from. */
  datatype TinyFluentMessage = TinyFluentMessage(timestamp: Time, fieldName: bytes, message: Slice<byte>)

  datatype FluentRecordSet = FluentRecordSet(tag: bytes, records: seq<TinyFluentMessage>)

  ghost predicate Within(rs: FluentRecordSet, arrays: set<array<byte>>) {
    forall i :: 0 <= i < |rs.records| ==> rs.records[i].message.Valid() && rs.records[i].message.arr in arrays
  }

  ghost function Messages(rs: FluentRecordSet, arrays: set<array<byte>>): seq<bytes>
    requires Within(rs, arrays)
    reads arrays
  {
    seq(|rs.records|, i requires 0 <= i < |rs.records| reads arrays => rs.records[i].message.Contents())
  }

  ghost predicate AllWithin(sets: seq<FluentRecordSet>, arrays: set<array<byte>>) {
    forall i :: 0 <= i < |sets| ==> Within(sets[i], arrays)
  }

  /** The messages of all the record sets, in order, as the heap holds them now. */
  ghost function AllMessages(sets: seq<FluentRecordSet>, arrays: set<array<byte>>): seq<bytes>
    requires AllWithin(sets, arrays)
    reads arrays
  {
    if sets == [] then [] else AllMessages(sets[..|sets| - 1], arrays) + Messages(sets[|sets| - 1], arrays)
  }

  lemma {:induction false} AllMessagesWeaken(sets: seq<FluentRecordSet>, arrays: set<array<byte>>,
                                             more: set<array<byte>>)
    requires AllWithin(sets, arrays) && arrays <= more
    ensures AllWithin(sets, more) && AllMessages(sets, arrays) == AllMessages(sets, more)
  {
    if sets != [] {
      AllMessagesWeaken(sets[..|sets| - 1], arrays, more);
      assert Within(sets[|sets| - 1], arrays);
    }
  }

  /** What a record set says besides its messages: where it came from, and when it was built. */
  predicate Labelled(rs: FluentRecordSet, tag: bytes, fieldName: bytes, now: Time) {
    && rs.tag == tag
    && forall i :: 0 <= i < |rs.records| ==> rs.records[i].fieldName == fieldName && rs.records[i].timestamp == now
  }

  predicate AllLabelled(sets: seq<FluentRecordSet>, tag: bytes, fieldName: bytes, times: seq<Time>) {
    |sets| == |times| && forall j :: 0 <= j < |sets| ==> Labelled(sets[j], tag, fieldName, times[j])
  }

  /** The clock's values at the reads that hold a newline, in order. */
  function CompletedAt(chunks: seq<bytes>, clock: seq<Time>): seq<Time>
    requires |clock| == |chunks|
  {
    if chunks == [] then []
    else CompletedAt(Front(chunks), Front(clock)) + if LF in Last(chunks) then [Last(clock)] else []
  }

  lemma CompletedNone()
    ensures CompletedAt([], []) == []
  {
  }

  lemma CompletedSnoc(chunks: seq<bytes>, clock: seq<Time>, chunk: bytes, now: Time)
    requires |clock| == |chunks|
    ensures CompletedAt(chunks + [chunk], clock + [now])
            == CompletedAt(chunks, clock) + if LF in chunk then [now] else []
  {
    assert Front(chunks + [chunk]) == chunks && Front(clock + [now]) == clock;
  }

  // ---- splitting a block into record messages ------------------------------

  /** `NewFluentRecordSet` for FormatNone: one record for each part of the block, in order,
      every message a window on the block's array. */
  method NewFluentRecordSet(tag: bytes, key: bytes, now: Time, buffer: Slice<byte>) returns (rs: FluentRecordSet)
    requires buffer.Valid()
    ensures rs.tag == tag && Within(rs, {buffer.arr})
    ensures Messages(rs, {buffer.arr}) == Split(buffer.Contents(), LF)
    ensures forall r <- rs.records :: r.timestamp == now && r.fieldName == key
    ensures Labelled(rs, tag, key, now)
  {
    hide Join, Split;
    var block := buffer.arr[buffer.off..buffer.off + buffer.len];
    var messages := Split(block, LF);
    SplitJoin(block, LF);
    var records: seq<TinyFluentMessage> := [];
    var at: nat, i: nat := 0, 0;
    assert messages[0..] == messages;
    while i < |messages|
      invariant |records| == i <= |messages| && at <= |block| + 1
      invariant i < |messages| ==> at <= |block| && block[at..] == Join(messages[i..], LF)
      invariant forall r <- records :: r.timestamp == now && r.fieldName == key
      invariant forall j :: 0 <= j < i ==> IsWindow(records[j].message, buffer, messages[j])
    {
      var n := |messages[i]|;
      JoinWindow(block, at, messages[i..], LF);
      assert messages[i..][1..] == messages[i + 1..];
      var msg := Part(buffer, at, n, i + 1 == |messages|);
      records := records + [TinyFluentMessage(now, key, msg)];
      at, i := at + n + 1, i + 1;
    }
    rs := FluentRecordSet(tag, records);
  }

  /** A part of the block as `bytes.Split` returns it: only the last one keeps the capacity behind it. */
  function Part(buffer: Slice<byte>, at: nat, n: nat, last: bool): (msg: Slice<byte>)
    requires buffer.Valid() && at + n <= buffer.len
    reads buffer.arr
    ensures msg.Valid() && msg.arr == buffer.arr && msg.Contents() == buffer.Contents()[at..at + n]
  {
    buffer.WindowContents(at, n);
    buffer.SubContents(at, at + n);
    if last then buffer.Sub(at, at + n) else buffer.Window(at, n)
  }

  ghost predicate IsWindow(msg: Slice<byte>, buffer: Slice<byte>, part: bytes)
    reads msg.arr
  {
    msg.Valid() && msg.arr == buffer.arr && msg.Contents() == part
  }

  // ---- the file -------------------------------------------------------------

  /** The sending side of `messageCh`: the record sets sent so far. */
  class MessageChannel {
    var sets: seq<FluentRecordSet>

    constructor ()
      ensures sets == []
    {
      sets := [];
    }

    method Send(rs: FluentRecordSet)
      modifies this
      ensures sets == old(sets) + [rs]
    {
      sets := sets + [rs];
    }
  }

  /** How the read loop of one `tailAndSend` call ends. */
  datatype ReadEnd = EOF | ReadError

  class File {
    const tag: bytes
    const fieldName: bytes
    const readBuf: array<byte>
    var Position: nat
    var contBuf: Slice<byte>

    ghost var read: bytes                    // every byte read since the file was opened
    ghost var sent: seq<FluentRecordSet>     // every record set built from them
    ghost var handedOut: set<array<byte>>    // the arrays behind those record sets

    /** The record sets handed out hold, now, exactly the complete lines of all bytes read;
        neither the read buffer nor the carried fragment shares memory with them. */
    ghost predicate Valid()
      reads this, readBuf, contBuf.arr, handedOut
    {
      && readBuf.Length > 0 && contBuf.Valid() && contBuf.arr != readBuf
      && readBuf !in handedOut && contBuf.arr !in handedOut
      && contBuf.Contents() == Fragment(read)
      && AllWithin(sent, handedOut)
      && AllMessages(sent, handedOut) == CompleteLines(read)
    }

    /** `openFile`: seek to the end as `stat` reported it (`SEEK_TAIL`), or to the start. */
    constructor (tag: bytes, fieldName: bytes, bufferSize: nat, seekTail: bool, size: nat)
      requires bufferSize > 0
      ensures Valid() && read == [] && sent == [] && handedOut == {}
      ensures this.tag == tag && this.fieldName == fieldName && readBuf.Length == bufferSize
      ensures Position == (if seekTail then size else 0)
      ensures fresh(readBuf) && fresh(contBuf.arr)
    {
      this.tag, this.fieldName := tag, fieldName;
      readBuf := new byte[bufferSize];
      Position := if seekTail then size else 0;
      var empty := Make<byte>(0);
      contBuf := empty;
      read, sent, handedOut := [], [], {};
    }

    /** `restrict`: a file shorter than the position is read again from its start.
        The carried fragment stays: the bytes read so far and the bytes read next are one stream. */
    method Restrict(size: nat)
      requires Valid()
      modifies this`Position
      ensures Valid()
      ensures Position == if size < old(Position) then 0 else old(Position)
    {
      if size < Position {
        Position := 0;
      }
    }

    /** `tailAndSend`: `reads` are the non-empty reads up to the end of the file or an error,
        `clock` the times at which records are built. */
    method TailAndSend(messageCh: MessageChannel, chunks: seq<bytes>, end: ReadEnd, clock: seq<Time>)
      returns (err: ReadEnd, ghost added: seq<FluentRecordSet>)
      requires Valid()
      requires forall i :: 0 <= i < |chunks| ==> 0 < |chunks[i]| <= readBuf.Length
      requires |clock| == |chunks|
      modifies this, readBuf, contBuf.arr, messageCh
      ensures Valid() && err == end
      ensures read == old(read) + Flatten(chunks)
      ensures Position == old(Position) + |Flatten(chunks)|
      ensures sent == old(sent) + added && messageCh.sets == old(messageCh.sets) + added
      ensures old(handedOut) <= handedOut && fresh(handedOut - old(handedOut))
      ensures forall a <- old(handedOut) :: a[..] == old(a[..])
      ensures AllLabelled(added, tag, fieldName, CompletedAt(chunks, clock))
    {
      hide Labelled, CompletedAt;
      CompletedNone();
      hide Split, CompleteLines, Fragment, AllMessages, AllWithin;
      var i := 0;
      added := [];
      while i < |chunks|
        invariant 0 <= i <= |chunks|
        invariant Valid()
        invariant contBuf.arr == old(contBuf.arr) || fresh(contBuf.arr)
        invariant read == old(read) + Flatten(chunks[..i])
        invariant Position == old(Position) + |Flatten(chunks[..i])|
        invariant sent == old(sent) + added && messageCh.sets == old(messageCh.sets) + added
        invariant old(handedOut) <= handedOut && fresh(handedOut - old(handedOut))
        invariant forall a <- old(handedOut) :: a[..] == old(a[..])
        invariant AllLabelled(added, tag, fieldName, CompletedAt(chunks[..i], clock[..i]))
      {
        assert chunks[..i + 1] == chunks[..i] + [chunks[i]];
        assert clock[..i + 1] == clock[..i] + [clock[i]];
        FlattenSnoc(chunks[..i], chunks[i]);
        CompletedSnoc(chunks[..i], clock[..i], chunks[i], clock[i]);
        assert old(read) + Flatten(chunks[..i + 1]) == old(read) + Flatten(chunks[..i]) + chunks[i];
        ghost var more := Iterate(messageCh, chunks[i], clock[i]);
        added := added + more;
        i := i + 1;
      }
      assert chunks[..i] == chunks && clock[..i] == clock;
      err := end;
    }

    /** One turn of the read loop: a read of `chunk` into the read buffer, the cut, the send. */
    method Iterate(messageCh: MessageChannel, chunk: bytes, now: Time) returns (ghost added: seq<FluentRecordSet>)
      requires Valid()
      requires 0 < |chunk| <= readBuf.Length
      modifies this, readBuf, contBuf.arr, messageCh
      ensures Valid()
      ensures read == old(read) + chunk && Position == old(Position) + |chunk|
      ensures contBuf.arr == old(contBuf.arr) || fresh(contBuf.arr)
      ensures sent == old(sent) + added && messageCh.sets == old(messageCh.sets) + added
      ensures old(handedOut) <= handedOut && fresh(handedOut - old(handedOut))
      ensures AllLabelled(added, tag, fieldName, if LF in chunk then [now] else [])
    {
      hide Labelled;
      hide Split, LastIndex, CompleteLines, Fragment, AllMessages, AllWithin, Consume, Within, Messages;
      var n := |chunk|;
      Fill(chunk);
      ConsumeResumes(read, chunk);
      BlockIff(Fragment(read), chunk);
      Position := Position + n;
      read := read + chunk;
      var sendBuf, whole := Cut(n);
      added := [];
      if whole {
        added := Emit(messageCh, sendBuf, now);
      }
    }

    /** The three branches on the `n` bytes just read: a block in a fresh array, or none yet. */
    method Cut(n: nat) returns (sendBuf: Slice<byte>, whole: bool)
      requires 0 < n <= readBuf.Length && contBuf.Valid() && contBuf.arr != readBuf
      modifies this`contBuf, contBuf.arr
      ensures sendBuf.Valid() && fresh(sendBuf.arr) && contBuf.Valid() && contBuf.arr != sendBuf.arr
      ensures contBuf.arr == old(contBuf.arr) || fresh(contBuf.arr)
      ensures Consume(old(contBuf.Contents()), readBuf[..n])
              == Consumed(contBuf.Contents(), if whole then Some(sendBuf.Contents()) else None)
    {
      hide Split, LastIndex;
      whole := true;
      ghost var chunk := readBuf[..n];
      if readBuf[n - 1] == LF {
        assert readBuf[..n - 1] == chunk[..n - 1];
        sendBuf := CutAtEnd(n);
      } else {
        var blockLen := LastIndex(readBuf[..n], LF);
        if blockLen == -1 {
          contBuf := Append(contBuf, readBuf[..n]);
          sendBuf := Make<byte>(0);
          whole := false;
        } else {
          assert readBuf[..blockLen] == chunk[..blockLen] && readBuf[blockLen + 1..n] == chunk[blockLen + 1..];
          sendBuf := CutInside(n, blockLen);
        }
      }
    }

    /** The read itself: the environment puts the bytes into the read buffer. */
    method Fill(chunk: bytes)
      requires |chunk| <= readBuf.Length
      modifies readBuf
      ensures readBuf[..|chunk|] == chunk
    {
      forall k | 0 <= k < |chunk| {
        readBuf[k] := chunk[k];
      }
    }

    /** The read buffer is just terminated by a newline: the block is all of it, behind the carry. */
    method CutAtEnd(n: nat) returns (sendBuf: Slice<byte>)
      requires 0 < n <= readBuf.Length && contBuf.Valid()
      modifies this`contBuf
      ensures sendBuf.Valid() && fresh(sendBuf.arr) && contBuf.Valid() && contBuf.arr != sendBuf.arr
      ensures contBuf.arr == old(contBuf.arr) || fresh(contBuf.arr)
      ensures sendBuf.Contents() == old(contBuf.Contents()) + readBuf[..n - 1] && contBuf.Contents() == []
    {
      sendBuf := Block(n - 1);
      if contBuf.len > 0 {
        contBuf := Make<byte>(0);
      }
    }

    /** The bottom line of the read buffer is unfinished: it becomes the carry, in a new array. */
    method CutInside(n: nat, blockLen: nat) returns (sendBuf: Slice<byte>)
      requires blockLen < n <= readBuf.Length && contBuf.Valid()
      modifies this`contBuf
      ensures sendBuf.Valid() && fresh(sendBuf.arr) && contBuf.Valid() && contBuf.arr != sendBuf.arr
      ensures fresh(contBuf.arr)
      ensures sendBuf.Contents() == old(contBuf.Contents()) + readBuf[..blockLen]
      ensures contBuf.Contents() == readBuf[blockLen + 1..n]
    {
      sendBuf := Block(blockLen);
      contBuf := Make<byte>(n - blockLen - 1);
      Copy(contBuf, readBuf[blockLen + 1..n]);
    }

    /** The carried fragment and the first `m` bytes of the read buffer, in an array of their own. */
    method Block(m: nat) returns (sendBuf: Slice<byte>)
      requires m <= readBuf.Length && contBuf.Valid()
      ensures sendBuf.Valid() && fresh(sendBuf.arr)
      ensures sendBuf.Contents() == contBuf.Contents() + readBuf[..m]
    {
      ghost var carry, rest := contBuf.Contents(), readBuf[..m];
      sendBuf := Make<byte>(0);
      if contBuf.len > 0 {
        sendBuf := Append(sendBuf, contBuf.arr[contBuf.off..contBuf.off + contBuf.len]);
      }
      assert sendBuf.Contents() == carry;
      sendBuf := Append(sendBuf, readBuf[..m]);
      assert sendBuf.Contents() == carry + rest;
    }

    /** Build the record set of a block and send it. */
    method Emit(messageCh: MessageChannel, block: Slice<byte>, now: Time) returns (ghost added: seq<FluentRecordSet>)
      requires block.Valid() && AllWithin(sent, handedOut)
      modifies this`sent, this`handedOut, messageCh
      ensures handedOut == old(handedOut) + {block.arr} && AllWithin(sent, handedOut)
      ensures AllMessages(sent, handedOut) == old(AllMessages(sent, handedOut)) + Split(block.Contents(), LF)
      ensures sent == old(sent) + added && messageCh.sets == old(messageCh.sets) + added
      ensures |added| == 1 && Labelled(added[0], tag, fieldName, now)
    {
      hide Split, Labelled;
      var rs := NewFluentRecordSet(tag, fieldName, now, block);
      AllMessagesWeaken(sent, handedOut, handedOut + {block.arr});
      handedOut := handedOut + {block.arr};
      sent := sent + [rs];
      assert sent[..|sent| - 1] == old(sent);
      assert Messages(rs, handedOut) == Messages(rs, {block.arr});
      messageCh.Send(rs);
      added := [rs];
    }
  }
}
