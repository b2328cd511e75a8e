/** A MessagePack reader written from the format specification ("Formats"): the inverse that
    the hand-written writer is measured against. */
module MsgpackDecode {
  import opened Prelude
  import opened Msgpack

  datatype Value =
    | Nil
    | Bool(b: bool)
    | Int(i: int)
    | Float(raw: bytes)
    | Str(s: bytes)
    | Bin(s: bytes)
    | Array(items: seq<Value>)
    | Map(items: seq<Value>)  // keys and values in turn
    | Ext(kind: byte, data: bytes)

  datatype Parsed<T> = Parsed(value: T, rest: bytes) | Failed

  /** What the first byte of a value says about the bytes after it. `Sized` formats hold their
      length in `lenWidth` bytes, or, when that is 0, in the first byte itself. */
  datatype Format =
    | Immediate(v: Value)
    | Number(width: nat, signed: bool)
    | Floating(width: nat)
    | Sized(content: Content, lenWidth: nat, fixed: nat)
    | Unused

  datatype Content = StrBytes | BinBytes | ExtBytes | ArrayItems | MapItems

  function FormatOf(t: byte): Format {
    if t <= 0x7f then Immediate(Int(t))
    else if t <= 0x8f then Sized(MapItems, 0, t - 0x80)
    else if t <= 0x9f then Sized(ArrayItems, 0, t - 0x90)
    else if t <= 0xbf then Sized(StrBytes, 0, t - 0xa0)
    else if t == 0xc0 then Immediate(Nil)
    else if t == 0xc1 then Unused
    else if t <= 0xc3 then Immediate(Bool(t == 0xc3))
    else if t <= 0xc6 then Sized(BinBytes, LenWidth(t - 0xc4), 0)
    else if t <= 0xc9 then Sized(ExtBytes, LenWidth(t - 0xc7), 0)
    else if t <= 0xcb then Floating(if t == 0xca then 4 else 8)
    else if t <= 0xcf then Number(NumWidth(t - 0xcc), false)
    else if t <= 0xd3 then Number(NumWidth(t - 0xd0), true)
    else if t <= 0xd8 then Sized(ExtBytes, 0, FixExt(t - 0xd4))
    else if t <= 0xdb then Sized(StrBytes, LenWidth(t - 0xd9), 0)
    else if t <= 0xdd then Sized(ArrayItems, LenWidth(t - 0xdb), 0)
    else if t <= 0xdf then Sized(MapItems, LenWidth(t - 0xdd), 0)
    else Immediate(Int(t - 0x100))
  }

  /** 8, 16 or 32 bit lengths. */
  function LenWidth(i: int): nat {
    if i == 0 then 1 else if i == 1 then 2 else 4
  }

  /** 8, 16, 32 or 64 bit numbers. */
  function NumWidth(i: int): nat {
    if i == 0 then 1 else if i == 1 then 2 else if i == 2 then 4 else 8
  }

  /** fixext 1, 2, 4, 8 and 16. */
  function FixExt(i: int): nat {
    if i == 0 then 1 else if i == 1 then 2 else if i == 2 then 4 else if i == 3 then 8 else 16
  }

  function Signed(v: nat, width: nat): int {
    if 2 * v >= Pow256(width) then v - Pow256(width) else v
  }

  /** The first `n` bytes and the rest. */
  function Take(b: bytes, n: nat): (r: Parsed<bytes>)
    ensures r.Parsed? <==> n <= |b|
    ensures r.Parsed? ==> r.value == b[..n] && r.rest == b[n..]
  {
    if n <= |b| then Parsed(b[..n], b[n..]) else Failed
  }

  /** One value from the front of `b`. */
  function DecodeValue(b: bytes): (r: Parsed<Value>)
    ensures r.Parsed? ==> |r.rest| < |b|
    decreases |b|, 0
  {
    if b == [] then Failed
    else
      var tail := b[1..];
      match FormatOf(b[0])
      case Unused => Failed
      case Immediate(v) => Parsed(v, tail)
      case Number(width, signed) =>
        var n := Take(tail, width);
        if n.Failed? then Failed
        else Parsed(Int(if signed then Signed(FromBigEndian(n.value), width) else FromBigEndian(n.value)), n.rest)
      case Floating(width) =>
        var n := Take(tail, width);
        if n.Failed? then Failed else Parsed(Float(n.value), n.rest)
      case Sized(content, lenWidth, fixed) =>
        var l := Take(tail, lenWidth);
        if l.Failed? then Failed
        else
          var len := if lenWidth == 0 then fixed else FromBigEndian(l.value);
          DecodeContent(l.rest, content, len)
  }

  function DecodeContent(b: bytes, content: Content, len: nat): (r: Parsed<Value>)
    ensures r.Parsed? ==> |r.rest| <= |b|
    decreases |b|, 2 * len + 2
  {
    match content
    case ExtBytes =>
      var d := Take(b, 1 + len);
      if d.Failed? then Failed else Parsed(Ext(d.value[0], d.value[1..]), d.rest)
    case StrBytes =>
      var d := Take(b, len);
      if d.Failed? then Failed else Parsed(Str(d.value), d.rest)
    case BinBytes =>
      var d := Take(b, len);
      if d.Failed? then Failed else Parsed(Bin(d.value), d.rest)
    case ArrayItems =>
      var d := DecodeItems(b, len);
      if d.Failed? then Failed else Parsed(Array(d.value), d.rest)
    case MapItems =>
      var d := DecodeItems(b, 2 * len);
      if d.Failed? then Failed else Parsed(Map(d.value), d.rest)
  }

  function DecodeItems(b: bytes, n: nat): (r: Parsed<seq<Value>>)
    ensures r.Parsed? ==> |r.rest| <= |b| && |r.value| == n
    decreases |b|, n + 1
  {
    if n == 0 then Parsed([], b)
    else
      var first := DecodeValue(b);
      if first.Failed? then Failed
      else
        var more := DecodeItems(first.rest, n - 1);
        if more.Failed? then Failed else Parsed([first.value] + more.value, more.rest)
  }

  // ---- reading is prefix-closed ------------------------------------------------

  /** A value that was read is read the same with any bytes behind it: no boundary is ambiguous. */
  lemma {:induction false} DecodeMore(b: bytes, more: bytes)
    requires DecodeValue(b).Parsed?
    ensures DecodeValue(b + more) == Parsed(DecodeValue(b).value, DecodeValue(b).rest + more)
    decreases |b|, 0
  {
    var tail := b[1..];
    assert (b + more)[1..] == tail + more && (b + more)[0] == b[0];
    match FormatOf(b[0])
    case Immediate(v) =>
    case Number(width, signed) => TakeMore(tail, width, more);
    case Floating(width) => TakeMore(tail, width, more);
    case Sized(content, lenWidth, fixed) =>
      TakeMore(tail, lenWidth, more);
      var l := Take(tail, lenWidth);
      ContentMore(l.rest, content, if lenWidth == 0 then fixed else FromBigEndian(l.value), more);
  }

  lemma TakeMore(b: bytes, n: nat, more: bytes)
    requires Take(b, n).Parsed?
    ensures Take(b + more, n) == Parsed(Take(b, n).value, Take(b, n).rest + more)
  {
    assert (b + more)[..n] == b[..n] && (b + more)[n..] == b[n..] + more;
  }

  lemma {:induction false} ContentMore(b: bytes, content: Content, len: nat, more: bytes)
    requires DecodeContent(b, content, len).Parsed?
    ensures DecodeContent(b + more, content, len)
         == Parsed(DecodeContent(b, content, len).value, DecodeContent(b, content, len).rest + more)
    decreases |b|, 2 * len + 2
  {
    match content
    case ExtBytes => TakeMore(b, 1 + len, more);
    case StrBytes => TakeMore(b, len, more);
    case BinBytes => TakeMore(b, len, more);
    case ArrayItems => ItemsMore(b, len, more);
    case MapItems => ItemsMore(b, 2 * len, more);
  }

  lemma {:induction false} ItemsMore(b: bytes, n: nat, more: bytes)
    requires DecodeItems(b, n).Parsed?
    ensures DecodeItems(b + more, n) == Parsed(DecodeItems(b, n).value, DecodeItems(b, n).rest + more)
    decreases |b|, n + 1
  {
    if n > 0 {
      DecodeMore(b, more);
      ItemsMore(DecodeValue(b).rest, n - 1, more);
    }
  }

  // ---- reading what was written -------------------------------------------------

  /** The length that the head written for `l` announces. */
  function Announced(l: nat): nat {
    l % TWO32
  }

  /** The lengths read back from the heads of one, two and four length bytes. */
  lemma AnnouncedLength(l: nat)
    ensures Announced(l) <= l && (l < TWO32 <==> Announced(l) == l)
    ensures l < 256 ==> FromBigEndian(BigEndian(l, 1)) == l
    ensures l < 65536 ==> FromBigEndian(BigEndian(l, 2)) == l
    ensures FromBigEndian(BigEndian(l, 4)) == Announced(l)
  {
    hide BigEndian, FromBigEndian;
    Powers();
    BigEndianTruncates(l, 1);
    BigEndianTruncates(l, 2);
    BigEndianTruncates(l, 4);
  }

  /** Of a string of any length the reader gets the first |s| mod 2^32 bytes: all of it exactly
      when it is shorter than 2^32. */
  lemma DecodeStr(s: bytes, rest: bytes)
    ensures var n := Announced(|s|);
            n <= |s| && DecodeValue(PackStr(s) + rest) == Parsed(Str(s[..n]), s[n..] + rest)
  {
    hide DecodeValue, BigEndian, FromBigEndian, Announced;
    var l := |s|;
    AnnouncedLength(l);
    if l < 32 {
      HeadOnly(MP_STR + l, StrBytes, l, s, rest);
    } else if l < 256 {
      HeadAndLength(MP_STR8, StrBytes, 1, l, s, rest);
    } else if l < 65536 {
      HeadAndLength(MP_STR16, StrBytes, 2, l, s, rest);
    } else {
      HeadAndLength(MP_STR32, StrBytes, 4, l, s, rest);
    }
  }

  /** The same for the bin formats. */
  lemma DecodeBin(s: bytes, rest: bytes)
    ensures var n := Announced(|s|);
            n <= |s| && DecodeValue(BytesHead(|s|) + s + rest) == Parsed(Bin(s[..n]), s[n..] + rest)
  {
    hide DecodeValue, BigEndian, FromBigEndian, Announced;
    var l := |s|;
    AnnouncedLength(l);
    if l < 256 {
      HeadAndLength(MP_BYTES8, BinBytes, 1, l, s, rest);
    } else if l < 65536 {
      HeadAndLength(MP_BYTES16, BinBytes, 2, l, s, rest);
    } else {
      HeadAndLength(MP_BYTES32, BinBytes, 4, l, s, rest);
    }
  }

  lemma HeadOnly(t: byte, content: Content, n: nat, s: bytes, rest: bytes)
    requires FormatOf(t) == Sized(content, 0, n) && n <= |s|
    requires content == StrBytes || content == BinBytes
    ensures DecodeValue([t] + s + rest)
         == Parsed(if content == StrBytes then Str(s[..n]) else Bin(s[..n]), s[n..] + rest)
  {
    var b := [t] + s + rest;
    assert b[1..] == s + rest && b[1..][0..] == s + rest;
    assert (s + rest)[..n] == s[..n] && (s + rest)[n..] == s[n..] + rest;
  }

  lemma HeadAndLength(t: byte, content: Content, width: nat, l: nat, s: bytes, rest: bytes)
    requires FormatOf(t) == Sized(content, width, 0) && width > 0
    requires content == StrBytes || content == BinBytes
    requires FromBigEndian(BigEndian(l, width)) <= |s|
    ensures var n := FromBigEndian(BigEndian(l, width));
            DecodeValue([t] + BigEndian(l, width) + s + rest)
            == Parsed(if content == StrBytes then Str(s[..n]) else Bin(s[..n]), s[n..] + rest)
  {
    hide FormatOf, BigEndian, FromBigEndian, Pow256;
    var be, n := BigEndian(l, width), FromBigEndian(BigEndian(l, width));
    var b := [t] + be + s + rest;
    assert b[1..] == be + (s + rest);
    assert (be + (s + rest))[..width] == be && (be + (s + rest))[width..] == s + rest;
    assert (s + rest)[..n] == s[..n] && (s + rest)[n..] == s[n..] + rest;
  }

  /** The time as the chosen format carries it: int64 seconds, or 32-bit seconds and nanoseconds. */
  function TimeValue(ts: Time, eventTime: bool): Value {
    if eventTime then Ext(0, BigEndian(ts.sec % TWO32, 4) + BigEndian(ts.nsec % TWO32, 4)) else Int(ts.sec)
  }

  lemma DecodeTime(ts: Time, eventTime: bool, rest: bytes)
    ensures DecodeValue(PackTime(ts, eventTime) + rest) == Parsed(TimeValue(ts, eventTime), rest)
  {
    hide DecodeValue, BigEndian, FromBigEndian, Pow256;
    if eventTime {
      DecodeFixExt8(BigEndian(ts.sec % TWO32, 4) + BigEndian(ts.nsec % TWO32, 4), rest);
      assert [MP_EXTENSION8, MP_EVENT_TIME_TYPE] == [MP_EXTENSION8] + [MP_EVENT_TIME_TYPE];
      assert PackTime(ts, eventTime) == [MP_EXTENSION8] + [MP_EVENT_TIME_TYPE]
          + (BigEndian(ts.sec % TWO32, 4) + BigEndian(ts.nsec % TWO32, 4));
    } else {
      Powers();
      BigEndianTruncates(ts.sec % TWO64, 8);
      DecodeInt64(BigEndian(ts.sec % TWO64, 8), rest);
    }
  }

  lemma DecodeFixExt8(data: bytes, rest: bytes)
    requires |data| == 8
    ensures DecodeValue([MP_EXTENSION8] + [MP_EVENT_TIME_TYPE] + data + rest) == Parsed(Ext(0, data), rest)
  {
    var tail := [MP_EVENT_TIME_TYPE] + data + rest;
    assert ([MP_EXTENSION8] + [MP_EVENT_TIME_TYPE] + data + rest)[1..] == tail && tail[0..] == tail;
    assert FormatOf(MP_EXTENSION8) == Sized(ExtBytes, 0, 8);
    assert tail[..9] == [MP_EVENT_TIME_TYPE] + data && tail[9..] == rest;
    assert ([MP_EVENT_TIME_TYPE] + data)[1..] == data;
  }

  lemma DecodeInt64(be: bytes, rest: bytes)
    requires |be| == 8
    ensures DecodeValue([MP_INT64] + be + rest) == Parsed(Int(Signed(FromBigEndian(be), 8)), rest)
  {
    assert ([MP_INT64] + be + rest)[1..] == be + rest;
    assert FormatOf(MP_INT64) == Number(8, true);
    assert (be + rest)[..8] == be && (be + rest)[8..] == rest;
  }

  /** Two items in a row. */
  lemma DecodePair(b: bytes)
    requires DecodeValue(b).Parsed?
    ensures var first := DecodeValue(b);
            var second := DecodeValue(first.rest);
            DecodeItems(b, 2) == if second.Failed? then Failed else Parsed([first.value, second.value], second.rest)
  {
    hide DecodeValue;
    var first := DecodeValue(b);
    var second := DecodeValue(first.rest);
    if second.Parsed? {
      assert DecodeItems(second.rest, 0) == Parsed([], second.rest);
      assert DecodeItems(first.rest, 1) == Parsed([second.value] + [], second.rest);
      assert [first.value] + ([second.value] + []) == [first.value, second.value];
    }
  }

  lemma DecodeArray2(b: bytes)
    ensures var d := DecodeItems(b, 2);
            DecodeValue([MP_2ELM_ARRAY] + b) == if d.Failed? then Failed else Parsed(Array(d.value), d.rest)
  {
    assert ([MP_2ELM_ARRAY] + b)[1..] == b && b[0..] == b;
    assert FormatOf(MP_2ELM_ARRAY) == Sized(ArrayItems, 0, 2);
  }

  lemma DecodeMap1(b: bytes)
    ensures var d := DecodeItems(b, 2);
            DecodeValue([MP_1ELM_MAP] + b) == if d.Failed? then Failed else Parsed(Map(d.value), d.rest)
  {
    assert ([MP_1ELM_MAP] + b)[1..] == b && b[0..] == b;
    assert FormatOf(MP_1ELM_MAP) == Sized(MapItems, 0, 1);
  }

  function TinyValue(ts: Time, key: bytes, value: bytes, eventTime: bool): Value {
    Array([TimeValue(ts, eventTime), Map([Str(key), Str(value)])])
  }

  /** Two short strings in a row. */
  lemma DecodeTwoStrings(key: bytes, value: bytes, rest: bytes)
    requires |key| < TWO32 && |value| < TWO32
    ensures DecodeItems(PackStr(key) + (PackStr(value) + rest), 2) == Parsed([Str(key), Str(value)], rest)
  {
    hide DecodeValue, DecodeItems, PackStr;
    DecodeShortStr(key, PackStr(value) + rest);
    DecodeShortStr(value, rest);
    DecodePair(PackStr(key) + (PackStr(value) + rest));
  }

  lemma DecodeShortStr(s: bytes, rest: bytes)
    requires |s| < TWO32
    ensures DecodeValue(PackStr(s) + rest) == Parsed(Str(s), rest)
  {
    hide DecodeValue, PackStr;
    DecodeStr(s, rest);
    assert s[..|s|] == s && s[|s|..] + rest == rest;
  }

  /** A packed message with anything behind it reads as that message, with exactly the rest left. */
  lemma SelfDelimiting(ts: Time, key: bytes, value: bytes, eventTime: bool, rest: bytes)
    requires |key| < TWO32 && |value| < TWO32
    ensures DecodeValue(PackTiny(ts, key, value, eventTime) + rest)
         == Parsed(TinyValue(ts, key, value, eventTime), rest)
  {
    hide DecodeValue, DecodeItems, PackTime, PackStr;
    var kv := PackStr(key) + (PackStr(value) + rest);
    DecodeTwoStrings(key, value, rest);
    DecodeMap1(kv);
    DecodeTime(ts, eventTime, [MP_1ELM_MAP] + kv);
    DecodePair(PackTime(ts, eventTime) + ([MP_1ELM_MAP] + kv));
    DecodeArray2(PackTime(ts, eventTime) + ([MP_1ELM_MAP] + kv));
    TinyWithRest(ts, key, value, eventTime, rest);
  }

  lemma TinyWithRest(ts: Time, key: bytes, value: bytes, eventTime: bool, rest: bytes)
    ensures PackTiny(ts, key, value, eventTime) + rest
         == [MP_2ELM_ARRAY] + (PackTime(ts, eventTime) + ([MP_1ELM_MAP] + (PackStr(key) + (PackStr(value) + rest))))
  {
    hide PackTime, PackStr;
  }

  /** Whatever the lengths, if a packed message reads at all then its time is right and its key is the
      first |key| mod 2^32 bytes; if the key is short enough, the same goes for its value. */
  lemma OversizeShows(ts: Time, key: bytes, value: bytes, eventTime: bool, rest: bytes) returns (x: Value)
    requires DecodeValue(PackTiny(ts, key, value, eventTime) + rest).Parsed?
    ensures Announced(|key|) <= |key| && Announced(|value|) <= |value|
    ensures DecodeValue(PackTiny(ts, key, value, eventTime) + rest).value
         == Array([TimeValue(ts, eventTime), Map([Str(key[..Announced(|key|)]), x])])
    ensures |key| < TWO32 ==> x == Str(value[..Announced(|value|)])
  {
    hide DecodeValue, DecodeItems, PackTime, PackStr;
    var kv := PackStr(key) + (PackStr(value) + rest);
    var n := Announced(|key|);
    DecodeStr(key, PackStr(value) + rest);
    DecodeStr(value, rest);
    DecodePair(kv);
    DecodeMap1(kv);
    DecodeTime(ts, eventTime, [MP_1ELM_MAP] + kv);
    DecodePair(PackTime(ts, eventTime) + ([MP_1ELM_MAP] + kv));
    DecodeArray2(PackTime(ts, eventTime) + ([MP_1ELM_MAP] + kv));
    TinyWithRest(ts, key, value, eventTime, rest);
    x := DecodeValue(key[n..] + (PackStr(value) + rest)).value;
    if |key| < TWO32 {
      assert key[n..] + (PackStr(value) + rest) == PackStr(value) + rest;
    }
  }
}
