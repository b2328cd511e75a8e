/** The hand-written MessagePack writer of fluent/msgpack.go. */
module Msgpack {
  import opened Prelude

  // ---- big-endian numbers ----------------------------------------------------

  function Pow256(width: nat): (p: nat)
    ensures p > 0
  {
    if width == 0 then 1 else 256 * Pow256(width - 1)
  }

  /** The last `width` bytes of `v`, most significant first, as `binary.Write` puts them. */
  function BigEndian(v: nat, width: nat): (b: bytes)
    ensures |b| == width
  {
    if width == 0 then [] else BigEndian(v / 256, width - 1) + [v % 256]
  }

  function FromBigEndian(b: bytes): (v: nat)
    ensures v < Pow256(|b|)
  {
    if b == [] then 0 else 256 * FromBigEndian(Front(b)) + Last(b)
  }

  /** Reading back what was written gives the number modulo 256^width. */
  lemma {:induction false} BigEndianTruncates(v: nat, width: nat)
    ensures FromBigEndian(BigEndian(v, width)) == v % Pow256(width)
  {
    if width > 0 {
      BigEndianTruncates(v / 256, width - 1);
      assert Front(BigEndian(v, width)) == BigEndian(v / 256, width - 1);
      LowDigit(v, Pow256(width - 1));
    }
  }

  /** Byte k counts 256^(width - 1 - k): the most significant byte comes first. */
  lemma {:induction false} BigEndianDigit(v: nat, width: nat, k: nat)
    requires k < width
    ensures BigEndian(v, width)[k] == v / Pow256(width - 1 - k) % 256
  {
    if k < width - 1 {
      BigEndianDigit(v / 256, width - 1, k);
      DivTwice(v, Pow256(width - 2 - k));
    }
  }

  lemma DivTwice(v: nat, p: nat)
    requires p > 0
    ensures v / 256 / p == v / (256 * p)
  {
    var u, d := v / 256, v % 256;
    var q, r := u / p, u % p;
    assert u == p * q + r;
    assert v == 256 * (p * q + r) + d;
    assert 256 * (p * q) == (256 * p) * q;
    DivModUnique(v, 256 * p, q, 256 * r + d);
  }

  lemma LowDigit(v: nat, p: nat)
    requires p > 0
    ensures 256 * (v / 256 % p) + v % 256 == v % (256 * p)
  {
    var u, d := v / 256, v % 256;
    var q, r := u / p, u % p;
    assert u == p * q + r;
    assert v == 256 * (p * q + r) + d;
    assert 256 * (p * q) == (256 * p) * q;
    DivModUnique(v, 256 * p, q, 256 * r + d);
  }

  lemma Powers()
    ensures Pow256(1) == 0x100 && Pow256(2) == 0x1_0000 && Pow256(4) == TWO32 && Pow256(8) == TWO64
  {
    assert Pow256(3) == 256 * Pow256(2) && Pow256(5) == 256 * Pow256(4) && Pow256(6) == 256 * Pow256(5)
        && Pow256(7) == 256 * Pow256(6);
  }

  // ---- what the writer must produce ------------------------------------------

  const MP_INT64: byte := 0xd3
  const MP_STR: byte := 0xa0
  const MP_STR8: byte := 0xd9
  const MP_STR16: byte := 0xda
  const MP_STR32: byte := 0xdb
  const MP_2ELM_ARRAY: byte := 0x92
  const MP_1ELM_MAP: byte := 0x81
  const MP_BYTES8: byte := 0xc4
  const MP_BYTES16: byte := 0xc5
  const MP_BYTES32: byte := 0xc6
  const MP_EXTENSION8: byte := 0xd7
  const MP_EVENT_TIME_TYPE: byte := 0x00

  function PackTime(ts: Time, eventTime: bool): bytes {
    if eventTime then
      [MP_EXTENSION8, MP_EVENT_TIME_TYPE] + BigEndian(ts.sec % TWO32, 4) + BigEndian(ts.nsec % TWO32, 4)
    else
      [MP_INT64] + BigEndian(ts.sec % TWO64, 8)
  }

  function StrHead(l: nat): bytes {
    if l < 32 then [MP_STR + l]  // no bit of l overlaps the format bits
    else if l < 256 then [MP_STR8] + BigEndian(l, 1)
    else if l < 65536 then [MP_STR16] + BigEndian(l, 2)
    else [MP_STR32] + BigEndian(l, 4)
  }

  function BytesHead(l: nat): bytes {
    if l < 256 then [MP_BYTES8] + BigEndian(l, 1)
    else if l < 65536 then [MP_BYTES16] + BigEndian(l, 2)
    else [MP_BYTES32] + BigEndian(l, 4)
  }

  function PackStr(s: bytes): bytes {
    StrHead(|s|) + s
  }

  function PackTiny(ts: Time, key: bytes, value: bytes, eventTime: bool): bytes {
    [MP_2ELM_ARRAY] + (PackTime(ts, eventTime) + ([MP_1ELM_MAP] + (PackStr(key) + PackStr(value))))
  }

  function PackSet(tag: bytes, bin: bytes): bytes {
    [MP_2ELM_ARRAY] + (PackStr(tag) + PackStr(bin))
  }

  /** The contents of a `TinyFluentMessage` and of a record set of them. */
  datatype Message = Message(ts: Time, fieldName: bytes, message: bytes)

  datatype MessageSet = MessageSet(tag: bytes, records: seq<Message>)

  function Pack(m: Message, eventTime: bool): bytes {
    PackTiny(m.ts, m.fieldName, m.message, eventTime)
  }

  function PackBody(records: seq<Message>, eventTime: bool): bytes {
    if records == [] then [] else Pack(records[0], eventTime) + PackBody(records[1..], eventTime)
  }

  lemma {:induction false} PackBodySnoc(records: seq<Message>, m: Message, eventTime: bool)
    ensures PackBody(records + [m], eventTime) == PackBody(records, eventTime) + Pack(m, eventTime)
  {
    hide Pack;
    if records != [] {
      assert (records + [m])[1..] == records[1..] + [m];
      PackBodySnoc(records[1..], m, eventTime);
    } else {
      assert PackBody([m][1..], eventTime) == [];
      assert records + [m] == [m];
    }
  }

  // ---- the writer --------------------------------------------------------------

  class MsgpackBuffer {
    var data: bytes

    constructor ()
      ensures data == []
    {
      data := [];
    }

    method WriteByte(b: byte)
      modifies this
      ensures data == old(data) + [b]
    {
      data := data + [b];
    }

    method Write(bs: bytes)
      modifies this
      ensures data == old(data) + bs
    {
      data := data + bs;
    }

    /** `WriteValue` of an unsigned or two's-complement integer of `width` bytes. */
    method WriteValue(v: nat, width: nat)
      modifies this
      ensures data == old(data) + BigEndian(v, width)
    {
      data := data + BigEndian(v, width);
    }

    method WriteTime(ts: Time, enableEventTime: bool)
      modifies this
      ensures data == old(data) + PackTime(ts, enableEventTime)
    {
      if enableEventTime {
        WriteByte(MP_EXTENSION8);
        WriteByte(MP_EVENT_TIME_TYPE);
        WriteValue(ts.sec % TWO32, 4);
        WriteValue(ts.nsec % TWO32, 4);
      } else {
        WriteByte(MP_INT64);
        WriteValue(ts.sec % TWO64, 8);
      }
    }

    method WriteMpStringHead(l: nat)
      modifies this
      ensures data == old(data) + StrHead(l)
    {
      if l < 32 {
        WriteByte(MP_STR + l);
      } else if l < 256 {
        WriteByte(MP_STR8);
        WriteValue(l, 1);
      } else if l < 65536 {
        WriteByte(MP_STR16);
        WriteValue(l, 2);
      } else {
        WriteByte(MP_STR32);
        WriteValue(l, 4);
      }
    }

    method WriteMpBytesHead(l: nat)
      modifies this
      ensures data == old(data) + BytesHead(l)
    {
      if l < 256 {
        WriteByte(MP_BYTES8);
        WriteValue(l, 1);
      } else if l < 65536 {
        WriteByte(MP_BYTES16);
        WriteValue(l, 2);
      } else {
        WriteByte(MP_BYTES32);
        WriteValue(l, 4);
      }
    }
  }

  method ToMsgpackTinyMessage(ts: Time, key: bytes, value: bytes, enableEventTime: bool) returns (packed: bytes)
    ensures packed == PackTiny(ts, key, value, enableEventTime)
  {
    hide PackTime, StrHead;
    var b := new MsgpackBuffer();
    b.WriteByte(MP_2ELM_ARRAY);
    b.WriteTime(ts, enableEventTime);
    b.WriteByte(MP_1ELM_MAP);
    b.WriteMpStringHead(|key|);
    b.Write(key);
    b.WriteMpStringHead(|value|);
    b.Write(value);
    packed := b.data;
  }

  method ToMsgpackRecordSet(tag: bytes, bin: bytes) returns (packed: bytes)
    ensures packed == PackSet(tag, bin)
  {
    hide StrHead;
    var b := new MsgpackBuffer();
    b.WriteByte(MP_2ELM_ARRAY);
    b.WriteMpStringHead(|tag|);
    b.Write(tag);
    b.WriteMpStringHead(|bin|);
    b.Write(bin);
    packed := b.data;
  }

  method PackAsPackedForward(rs: MessageSet, enableEventTime: bool) returns (packed: bytes)
    ensures packed == PackSet(rs.tag, PackBody(rs.records, enableEventTime))
  {
    hide PackTiny, PackSet;
    var buffer: bytes := [];
    for i := 0 to |rs.records|
      invariant buffer == PackBody(rs.records[..i], enableEventTime)
    {
      var r := rs.records[i];
      var data := ToMsgpackTinyMessage(r.ts, r.fieldName, r.message, enableEventTime);
      buffer := buffer + data;
      assert rs.records[..i + 1] == rs.records[..i] + [r];
      PackBodySnoc(rs.records[..i], r, enableEventTime);
    }
    assert rs.records[..|rs.records|] == rs.records;
    packed := ToMsgpackRecordSet(rs.tag, buffer);
  }
}
