/** Receiving a PackedForward message (fluent/server.go) and the round trip with the writer. */
module PackedForward {
  import opened Prelude
  import opened Msgpack
  import opened MsgpackDecode

  // ---- decoded data as Go sees it ----------------------------------------------

  datatype GoValue =
    | GoNil
    | GoBool(b: bool)
    | GoInt(i: int)
    | GoFloat(raw: bytes)
    | GoString(s: bytes)
    | GoBytes(s: bytes)
    | GoSlice(items: seq<GoValue>)
    | GoMap(m: map<bytes, GoValue>)
    | GoTime(t: Time)
    | GoExt(kind: byte, data: bytes)

  datatype Entry = Entry(ts: Time, data: map<bytes, GoValue>)

  datatype RecordSet = RecordSet(tag: bytes, records: seq<Entry>)

  /** How a floating-point number of seconds is cut to an integer. */
  type FloatSeconds = bytes -> int64

  /** `EventTimeExtension.ReadExt`: a short payload leaves zeros, surplus bytes are ignored. */
  function ReadExt(src: bytes): Time {
    Unix(if |src| >= 4 then FromBig32(src[..4]) else 0, if |src| >= 8 then FromBig32(src[4..8]) else 0)
  }

  function FromBig32(b: bytes): (v: int64)
    requires |b| == 4
    ensures 0 <= v < TWO32
  {
    Powers();
    FromBigEndian(b)
  }

  /** What decoding into an `interface{}` makes of a value; a map needs string or raw keys. */
  function ToGo(v: Value): Option<GoValue>
    decreases v, 0
  {
    match v
    case Nil => Some(GoNil)
    case Bool(b) => Some(GoBool(b))
    case Int(i) => Some(GoInt(i))
    case Float(raw) => Some(GoFloat(raw))
    case Str(s) => Some(GoBytes(s))
    case Bin(s) => Some(GoBytes(s))
    case Ext(kind, data) => Some(if kind == 0 then GoTime(ReadExt(data)) else GoExt(kind, data))
    case Array(items) =>
      var gs := ToGoItems(items);
      if gs.None? then None else Some(GoSlice(gs.value))
    case Map(items) =>
      var gs := ToGoItems(items);
      if gs.None? then None
      else
        var m := Pairs(gs.value);
        if m.None? then None else Some(GoMap(m.value))
  }

  function ToGoItems(items: seq<Value>): (r: Option<seq<GoValue>>)
    ensures r.Some? ==> |r.value| == |items|
    decreases items, 1
  {
    if items == [] then Some([])
    else
      var first := ToGo(items[0]);
      var more := ToGoItems(items[1..]);
      if first.None? || more.None? then None else Some([first.value] + more.value)
  }

  /** Keys and values in turn; a later pair with the same key wins. */
  function Pairs(items: seq<GoValue>): Option<map<bytes, GoValue>> {
    if |items| < 2 then Some(map[])
    else
      var n := |items|;
      var earlier := Pairs(items[..n - 2]);
      if earlier.None? || !items[n - 2].GoBytes? then None
      else Some(earlier.value[items[n - 2].s := items[n - 1]])
  }

  /** `coerceInPlace`: raw values become strings, in nested maps too, but not inside slices. */
  function Coerce(data: map<bytes, GoValue>): map<bytes, GoValue> {
    map k | k in data :: CoerceValue(data[k])
  }

  function CoerceValue(v: GoValue): GoValue {
    match v
    case GoBytes(s) => GoString(s)
    case GoMap(m) => GoMap(map k | k in m :: CoerceValue(m[k]))
    case _ => v
  }

  /** No raw value is left where coercion reaches. */
  predicate Coerced(v: GoValue) {
    match v
    case GoBytes(_) => false
    case GoMap(m) => forall k :: k in m ==> Coerced(m[k])
    case _ => true
  }

  /** Coercion leaves no raw value behind and nothing else changed: what is coerced already stays. */
  lemma {:induction false} CoerceSettles(v: GoValue)
    ensures Coerced(CoerceValue(v))
    ensures CoerceValue(v) == v <==> Coerced(v)
    ensures v.GoMap? ==> CoerceValue(v).GoMap? && CoerceValue(v).m.Keys == v.m.Keys
  {
    if v.GoMap? {
      forall k | k in v.m
        ensures Coerced(CoerceValue(v.m[k])) && (CoerceValue(v.m[k]) == v.m[k] <==> Coerced(v.m[k]))
      {
        CoerceSettles(v.m[k]);
      }
      if Coerced(v) {
        assert CoerceValue(v).m == v.m;
      } else {
        var k :| k in v.m && !Coerced(v.m[k]);
        assert CoerceValue(v).m[k] != v.m[k];
      }
    }
  }

  function Timestamp(v: GoValue, floatSeconds: FloatSeconds): Option<Time> {
    match v
    case GoInt(i) => Some(Unix(Wrap64(i), 0))
    case GoFloat(raw) => Some(Unix(floatSeconds(raw), 0))
    case GoTime(t) => Some(t)
    case _ => None
  }

  function DecodeEntry(v: GoValue, floatSeconds: FloatSeconds): Result<Entry> {
    if !v.GoSlice? || |v.items| != 2 then Err("Failed to decode recordSet")
    else if Timestamp(v.items[0], floatSeconds).None? then Err("Failed to decode timestamp field")
    else if !v.items[1].GoMap? then Err("Failed to decode data field")
    else Ok(Entry(Timestamp(v.items[0], floatSeconds).value, Coerce(v.items[1].m)))
  }

  /** The first bad entry fails the whole set. */
  function DecodeRecords(entries: seq<GoValue>, floatSeconds: FloatSeconds): (r: Result<seq<Entry>>)
    ensures r.Ok? ==> |r.value| == |entries|
  {
    if entries == [] then Ok([])
    else
      var first := DecodeEntry(entries[0], floatSeconds);
      if first.Err? then Err(first.error)
      else
        var more := DecodeRecords(entries[1..], floatSeconds);
        if more.Err? then more else Ok([first.value] + more.value)
  }

  /** The entries packed one behind the other in the body of a PackedForward message. */
  function DecodeBody(body: bytes): Option<seq<GoValue>>
    decreases |body|
  {
    if body == [] then Some([])
    else
      var d := DecodeValue(body);
      if d.Failed? || !d.value.Array? then None
      else
        var first := ToGo(d.value);
        var more := DecodeBody(d.rest);
        if first.None? || more.None? then None else Some([first.value] + more.value)
  }

  /** `decodeRecordSet`, entry by entry. */
  method DecodeRecordSet(tag: bytes, entries: seq<GoValue>, floatSeconds: FloatSeconds) returns (r: Result<RecordSet>)
    ensures r == var records := DecodeRecords(entries, floatSeconds);
                 if records.Err? then Err(records.error) else Ok(RecordSet(tag, records.value))
  {
    hide DecodeEntry;
    var records: seq<Entry> := [];
    var i := 0;
    assert entries[0..] == entries;
    assert DecodeRecords(entries, floatSeconds).Ok? ==>
        [] + DecodeRecords(entries, floatSeconds).value == DecodeRecords(entries, floatSeconds).value;
    while i < |entries|
      invariant |records| == i <= |entries|
      invariant var more := DecodeRecords(entries[i..], floatSeconds);
                DecodeRecords(entries, floatSeconds) == if more.Err? then more else Ok(records + more.value)
    {
      assert entries[i..][1..] == entries[i + 1..];
      var entry := DecodeEntry(entries[i], floatSeconds);
      if entry.Err? {
        return Err(entry.error);
      }
      ghost var more := DecodeRecords(entries[i + 1..], floatSeconds);
      if more.Ok? {
        assert records + ([entry.value] + more.value) == records + [entry.value] + more.value;
      }
      records := records + [entry.value];
      i := i + 1;
    }
    assert entries[i..] == [] && records + [] == records;
    r := Ok(RecordSet(tag, records));
  }

  /** The decode loop over the packed body: until its end, or an error. */
  method ReadEntries(body: bytes) returns (r: Option<seq<GoValue>>)
    ensures r == DecodeBody(body)
  {
    hide ToGo;
    var reader := body;
    var entries: seq<GoValue> := [];
    assert DecodeBody(body).Some? ==> [] + DecodeBody(body).value == DecodeBody(body).value;
    while reader != []
      invariant var more := DecodeBody(reader);
                DecodeBody(body) == if more.None? then None else Some(entries + more.value)
      decreases |reader|
    {
      var d := DecodeValue(reader);
      if d.Failed? || !d.value.Array? {
        return None;
      }
      var entry := ToGo(d.value);
      if entry.None? {
        return None;
      }
      ghost var more := DecodeBody(d.rest);
      if more.Some? {
        assert entries + ([entry.value] + more.value) == entries + [entry.value] + more.value;
      }
      entries := entries + [entry.value];
      reader := d.rest;
    }
    assert entries + [] == entries;
    r := Some(entries);
  }

  /** `DecodeEntries` on one message: Message, Forward or PackedForward mode by its second element. */
  function DecodeEntries(wire: bytes, floatSeconds: FloatSeconds): Result<RecordSet> {
    var d := DecodeValue(wire);
    if d.Failed? || !d.value.Array? then Err("decode error")
    else
      var v := ToGoItems(d.value.items);
      if v.None? then Err("decode error")
      else if |v.value| < 2 then Err("index out of range")
      else if !v.value[0].GoBytes? then Err("Failed to decode tag field")
      else DecodeByMode(v.value, floatSeconds)
  }

  function DecodeByMode(v: seq<GoValue>, floatSeconds: FloatSeconds): Result<RecordSet>
    requires |v| >= 2 && v[0].GoBytes?
  {
    match v[1]
    case GoSlice(entries) => WithTag(v[0].s, DecodeRecords(entries, floatSeconds))
    case GoBytes(body) =>
      var entries := DecodeBody(body);
      if entries.None? then Err("Unexpected payload format")
      else WithTag(v[0].s, DecodeRecords(entries.value, floatSeconds))
    case _ =>
      var t := Timestamp(v[1], floatSeconds);
      if t.None? then Err("Unknown type")
      else if |v| < 3 then Err("index out of range")
      else if !v[2].GoMap? then Err("Failed to decode data field")
      else Ok(RecordSet(v[0].s, [Entry(t.value, Coerce(v[2].m))]))
  }

  function WithTag(tag: bytes, records: Result<seq<Entry>>): Result<RecordSet> {
    if records.Err? then Err(records.error) else Ok(RecordSet(tag, records.value))
  }

  // ---- the round trip ---------------------------------------------------------------

  /** The time that arrives: whole seconds in int64 mode, 32 bits of them in EventTime mode. */
  function Carried(ts: Time, eventTime: bool): Time {
    if eventTime then Time(ts.sec % TWO32, ts.nsec) else Time(ts.sec, 0)
  }

  predicate ShortStrings(m: Message) {
    |m.fieldName| < TWO32 && |m.message| < TWO32
  }

  predicate ShortRecords(records: seq<Message>) {
    forall i :: 0 <= i < |records| ==> ShortStrings(records[i])
  }

  function EntryOf(m: Message, ts: Time): Entry {
    Entry(ts, map[m.fieldName := GoString(m.message)])
  }

  /** The records that arrive. */
  function Arriving(records: seq<Message>, eventTime: bool): seq<Entry> {
    seq(|records|, i requires 0 <= i < |records| => EntryOf(records[i], Carried(records[i].ts, eventTime)))
  }

  /** The records as they were sent, times to the nanosecond. */
  function AsSent(records: seq<Message>): seq<Entry> {
    seq(|records|, i requires 0 <= i < |records| => EntryOf(records[i], records[i].ts))
  }

  function GoTimeValue(ts: Time, eventTime: bool): GoValue {
    if eventTime then GoTime(Carried(ts, true)) else GoInt(ts.sec)
  }

  lemma ExtArrives(sec: nat, nsec: nanos)
    requires sec < TWO32
    ensures ReadExt(BigEndian(sec, 4) + BigEndian(nsec, 4)) == Time(sec, nsec)
  {
    hide FromBigEndian, BigEndian, Pow256, Unix;
    Powers();
    var s, n := BigEndian(sec, 4), BigEndian(nsec, 4);
    BigEndianTruncates(sec, 4);
    BigEndianTruncates(nsec, 4);
    UnixPlain(sec, nsec);
    assert (s + n)[..4] == s && (s + n)[4..8] == n;
  }

  /** A payload that is cut short leaves zeros, and surplus bytes are ignored. */
  lemma ExtOfAnyLength(src: bytes)
    ensures |src| < 4 ==> ReadExt(src) == Time(0, 0)
    ensures 4 <= |src| < 8 ==> ReadExt(src) == Time(FromBigEndian(src[..4]) % TWO32, 0)
    ensures |src| >= 8 ==> ReadExt(src) == ReadExt(src[..8])
  {
    hide FromBigEndian, Pow256;
    Powers();
    if |src| >= 8 {
      assert src[..8][..4] == src[..4] && src[..8][4..8] == src[4..8];
    }
  }

  lemma TimeArrives(ts: Time, eventTime: bool, floatSeconds: FloatSeconds)
    ensures ToGo(TimeValue(ts, eventTime)) == Some(GoTimeValue(ts, eventTime))
    ensures Timestamp(GoTimeValue(ts, eventTime), floatSeconds) == Some(Carried(ts, eventTime))
  {
    hide BigEndian, ReadExt;
    if eventTime {
      ExtArrives(ts.sec % TWO32, ts.nsec);
      assert ts.nsec % TWO32 == ts.nsec;
    }
  }

  lemma TwoItems(a: Value, b: Value)
    requires ToGo(a).Some? && ToGo(b).Some?
    ensures ToGoItems([a, b]) == Some([ToGo(a).value, ToGo(b).value])
  {
    hide ToGo;
    assert [a, b][1..] == [b] && [b][1..] == [];
    assert ToGoItems([b]) == Some([ToGo(b).value] + []);
    assert [ToGo(a).value] + ([ToGo(b).value] + []) == [ToGo(a).value, ToGo(b).value];
  }

  lemma OnePair(key: bytes, v: GoValue)
    ensures Pairs([GoBytes(key), v]) == Some(map[key := v])
  {
    assert [GoBytes(key), v][..0] == [];
    assert Pairs([]) == Some(map[]);
  }

  /** A decoded message becomes its entry: the time carried, and one coerced field. */
  lemma TinyArrives(m: Message, eventTime: bool, floatSeconds: FloatSeconds, key: bytes, x: Value)
    requires ToGo(x).Some?
    ensures var g := ToGo(Array([TimeValue(m.ts, eventTime), Map([Str(key), x])]));
            && g.Some?
            && DecodeEntry(g.value, floatSeconds)
               == Ok(Entry(Carried(m.ts, eventTime), map[key := CoerceValue(ToGo(x).value)]))
  {
    var t, kv, gx := TimeValue(m.ts, eventTime), Map([Str(key), x]), ToGo(x).value;
    TimeArrives(m.ts, eventTime, floatSeconds);
    TwoItems(Str(key), x);
    OnePair(key, gx);
    assert ToGo(kv) == Some(GoMap(map[key := gx]));
    TwoItems(t, kv);
    hide ToGoItems, Pairs, TimeValue, GoTimeValue, Timestamp, Carried, CoerceValue;
    assert ToGo(Array([t, kv])) == Some(GoSlice([GoTimeValue(m.ts, eventTime), GoMap(map[key := gx])]));
    assert Coerce(map[key := gx]) == map[key := CoerceValue(gx)];
  }

  lemma {:induction false} BodyArrives(records: seq<Message>, eventTime: bool, floatSeconds: FloatSeconds)
    requires ShortRecords(records)
    ensures DecodeBody(PackBody(records, eventTime)).Some?
    ensures DecodeRecords(DecodeBody(PackBody(records, eventTime)).value, floatSeconds)
         == Ok(Arriving(records, eventTime))
  {
    hide PackTiny, DecodeValue, ToGo, DecodeEntry;
    if records == [] {
      assert Arriving(records, eventTime) == [];
    } else {
      var m, rest := records[0], PackBody(records[1..], eventTime);
      BodyArrives(records[1..], eventTime, floatSeconds);
      SelfDelimiting(m.ts, m.fieldName, m.message, eventTime, rest);
      StrToGo(m.message);
      TinyArrives(m, eventTime, floatSeconds, m.fieldName, Str(m.message));
      assert Pack(m, eventTime) + rest == PackTiny(m.ts, m.fieldName, m.message, eventTime) + rest;
      NothingThere();
      var first := ToGo(TinyValue(m.ts, m.fieldName, m.message, eventTime)).value;
      assert ([first] + DecodeBody(rest).value)[1..] == DecodeBody(rest).value;
      assert Arriving(records, eventTime) == [EntryOf(m, Carried(m.ts, eventTime))] + Arriving(records[1..], eventTime);
    }
  }

  lemma StrToGo(s: bytes)
    ensures ToGo(Str(s)) == Some(GoBytes(s))
  {
  }

  lemma NothingThere()
    ensures DecodeValue([]).Failed?
  {
  }

  /** Decoding `PackAsPackedForward`: the tag and one entry per record come back, in order, with the
      times that the format carries. */
  lemma RoundTrip(rs: MessageSet, eventTime: bool, floatSeconds: FloatSeconds)
    requires |rs.tag| < TWO32 && ShortRecords(rs.records) && |PackBody(rs.records, eventTime)| < TWO32
    ensures DecodeEntries(PackSet(rs.tag, PackBody(rs.records, eventTime)), floatSeconds)
         == Ok(RecordSet(rs.tag, Arriving(rs.records, eventTime)))
  {
    var body := PackBody(rs.records, eventTime);
    hide PackBody, DecodeValue, DecodeBody, DecodeRecords, ToGo, Arriving;
    FrameShape(rs.tag, body);
    BodyArrives(rs.records, eventTime, floatSeconds);
    assert body[..Announced(|body|)] == body;
    FrameItems(rs.tag, body);
  }

  lemma FrameItems(tag: bytes, body: bytes)
    ensures ToGoItems([Str(tag), Str(body)]) == Some([GoBytes(tag), GoBytes(body)])
  {
    StrToGo(tag);
    StrToGo(body);
    TwoItems(Str(tag), Str(body));
  }

  /** The two elements of the frame, for lengths of any size. */
  lemma FrameShape(tag: bytes, body: bytes)
    ensures var d := DecodeValue(PackSet(tag, body));
            && Announced(|tag|) <= |tag| && Announced(|body|) <= |body|
            && (|tag| < TWO32 ==> d.Parsed? && d.value == Array([Str(tag), Str(body[..Announced(|body|)])]))
            && (d.Parsed? ==>
                  && d.value.Array? && |d.value.items| == 2
                  && d.value.items[0] == Str(tag[..Announced(|tag|)]))
  {
    hide DecodeValue, DecodeItems, PackStr;
    var n := Announced(|tag|);
    DecodeStr(tag, PackStr(body));
    DecodeStr(body, []);
    assert PackStr(body) + [] == PackStr(body);
    DecodePair(PackStr(tag) + PackStr(body));
    DecodeArray2(PackStr(tag) + PackStr(body));
    if |tag| < TWO32 {
      assert tag[n..] + PackStr(body) == PackStr(body) && tag[..n] == tag;
    }
  }

  // ---- exactly when the round trip is exact ----------------------------------------

  /** The formats can express this record set to the last byte and nanosecond. */
  predicate Expressible(rs: MessageSet, eventTime: bool) {
    && |rs.tag| < TWO32
    && ShortRecords(rs.records)
    && |PackBody(rs.records, eventTime)| < TWO32
    && forall i :: 0 <= i < |rs.records| ==> TimeExpressible(rs.records[i].ts, eventTime)
  }

  predicate TimeExpressible(ts: Time, eventTime: bool) {
    if eventTime then 0 <= ts.sec < TWO32 else ts.nsec == 0
  }

  lemma TimeExact(ts: Time, eventTime: bool)
    ensures Carried(ts, eventTime) == ts <==> TimeExpressible(ts, eventTime)
  {
  }

  lemma ToGoTiny(m: Message, eventTime: bool, key: bytes, x: Value)
    requires ToGo(Array([TimeValue(m.ts, eventTime), Map([Str(key), x])])).Some?
    ensures ToGo(x).Some?
  {
    hide TimeValue;
    var t, kv := TimeValue(m.ts, eventTime), Map([Str(key), x]);
    assert [t, kv][1..] == [kv] && [Str(key), x][1..] == [x];
    assert ToGoItems([t, kv]).Some? && ToGoItems([kv]).Some?;
    assert ToGo(kv).Some?;
    assert ToGoItems([Str(key), x]).Some? && ToGoItems([x]).Some?;
  }

  /** A record whose entry comes back as sent was expressible. */
  lemma EntryFaithful(m: Message, eventTime: bool, floatSeconds: FloatSeconds, rest: bytes, v: Value)
    requires DecodeValue(Pack(m, eventTime) + rest).Parsed? && DecodeValue(Pack(m, eventTime) + rest).value == v
    requires ToGo(v).Some? && DecodeEntry(ToGo(v).value, floatSeconds) == Ok(EntryOf(m, m.ts))
    ensures ShortStrings(m) && TimeExpressible(m.ts, eventTime)
  {
    hide DecodeValue, ToGo, DecodeEntry, PackTiny;
    var x := OversizeShows(m.ts, m.fieldName, m.message, eventTime, rest);
    var key := m.fieldName[..Announced(|m.fieldName|)];
    ToGoTiny(m, eventTime, key, x);
    TinyArrives(m, eventTime, floatSeconds, key, x);
    var data := map[key := CoerceValue(ToGo(x).value)];
    assert data == map[m.fieldName := GoString(m.message)];
    assert key in data && m.fieldName in data;
    assert key == m.fieldName && data[key] == GoString(m.message);
    StrToGo(m.message[..Announced(|m.message|)]);
    TimeExact(m.ts, eventTime);
  }

  /** Records that come back as sent from a prefix of the packed body were all expressible, and the
      prefix was the whole body. */
  lemma {:induction false} BodyFaithful(records: seq<Message>, eventTime: bool, floatSeconds: FloatSeconds,
                                        p: bytes, missing: bytes)
    requires p + missing == PackBody(records, eventTime)
    requires DecodeBody(p).Some? && DecodeRecords(DecodeBody(p).value, floatSeconds) == Ok(AsSent(records))
    ensures missing == [] && ShortRecords(records)
    ensures forall i :: 0 <= i < |records| ==> TimeExpressible(records[i].ts, eventTime)
    decreases |records|
  {
    hide PackTiny, DecodeValue, ToGo, DecodeEntry, TimeExpressible, ShortStrings;
    if records != [] {
      assert |AsSent(records)| == |records|;
      var m, rest := records[0], PackBody(records[1..], eventTime);
      var d, es := DecodeValue(p), DecodeBody(p).value;
      assert es == [ToGo(d.value).value] + DecodeBody(d.rest).value;
      assert es[1..] == DecodeBody(d.rest).value && es[0] == ToGo(d.value).value;
      assert AsSent(records)[0] == EntryOf(m, m.ts) && AsSent(records)[1..] == AsSent(records[1..]);
      var first, more := DecodeEntry(es[0], floatSeconds), DecodeRecords(es[1..], floatSeconds);
      assert AsSent(records) == [first.value] + more.value;
      assert AsSent(records)[0] == first.value && AsSent(records)[1..] == more.value;
      DecodeMore(p, missing);
      EntryFaithful(m, eventTime, floatSeconds, rest, d.value);
      ShortLengths(m);
      SelfDelimiting(m.ts, m.fieldName, m.message, eventTime, rest);
      BodyFaithful(records[1..], eventTime, floatSeconds, d.rest, missing);
    }
  }

  lemma ShortLengths(m: Message)
    requires ShortStrings(m)
    ensures |m.fieldName| < TWO32 && |m.message| < TWO32
  {
  }

  /** The round trip gives back exactly what was sent if and only if tag, strings and packed body are
      shorter than 2^32 bytes and every time is expressible: seconds in [0, 2^32) in EventTime mode, a
      whole second in int64 mode. */
  lemma RoundTripExactIff(rs: MessageSet, eventTime: bool, floatSeconds: FloatSeconds)
    ensures DecodeEntries(PackSet(rs.tag, PackBody(rs.records, eventTime)), floatSeconds)
            == Ok(RecordSet(rs.tag, AsSent(rs.records)))
            <==> Expressible(rs, eventTime)
  {
    var body := PackBody(rs.records, eventTime);
    hide PackBody, DecodeValue, DecodeBody, DecodeRecords, ToGo, ToGoItems;
    if Expressible(rs, eventTime) {
      RoundTrip(rs, eventTime, floatSeconds);
      forall i | 0 <= i < |rs.records|
        ensures Carried(rs.records[i].ts, eventTime) == rs.records[i].ts
      {
        TimeExact(rs.records[i].ts, eventTime);
      }
      assert Arriving(rs.records, eventTime) == AsSent(rs.records);
    } else if DecodeEntries(PackSet(rs.tag, body), floatSeconds) == Ok(RecordSet(rs.tag, AsSent(rs.records))) {
      FrameShape(rs.tag, body);
      ExactFrame(rs, eventTime, floatSeconds);
    }
  }

  lemma ExactFrame(rs: MessageSet, eventTime: bool, floatSeconds: FloatSeconds)
    requires DecodeEntries(PackSet(rs.tag, PackBody(rs.records, eventTime)), floatSeconds)
          == Ok(RecordSet(rs.tag, AsSent(rs.records)))
    ensures Expressible(rs, eventTime)
  {
    var body := PackBody(rs.records, eventTime);
    hide PackBody, DecodeValue, DecodeBody, DecodeRecords, ToGo, AsSent;
    FrameShape(rs.tag, body);
    var n := Announced(|body|);
    var d := DecodeValue(PackSet(rs.tag, body));
    StrToGo(rs.tag[..Announced(|rs.tag|)]);
    assert |rs.tag| < TWO32;
    FrameItems(rs.tag, body[..n]);
    assert body[..n] + body[n..] == body;
    BodyFaithful(rs.records, eventTime, floatSeconds, body[..n], body[n..]);
  }

  // ---- the other modes, and what is refused --------------------------------------------------

  /** An array of a time and a map, as Go sees it. */
  predicate GoodEntry(v: GoValue) {
    v.GoSlice? && |v.items| == 2 && TimeLike(v.items[0]) && v.items[1].GoMap?
  }

  predicate TimeLike(v: GoValue) {
    v.GoInt? || v.GoFloat? || v.GoTime?
  }

  /** A set is decoded if and only if all its entries are good, to one record each, in order; and else the
      first bad entry's error is the set's. */
  lemma {:induction false} DecodeRecordsIff(entries: seq<GoValue>, floatSeconds: FloatSeconds)
    ensures var r := DecodeRecords(entries, floatSeconds);
            && (r.Ok? <==> forall i :: 0 <= i < |entries| ==> GoodEntry(entries[i]))
            && (r.Ok? ==> forall i :: 0 <= i < |entries| ==> DecodeEntry(entries[i], floatSeconds) == Ok(r.value[i]))
            && (r.Err? ==> exists i :: FirstBad(entries, i) && DecodeEntry(entries[i], floatSeconds) == Err(r.error))
  {
    if entries != [] {
      DecodeRecordsIff(entries[1..], floatSeconds);
      var r, more := DecodeRecords(entries, floatSeconds), DecodeRecords(entries[1..], floatSeconds);
      if !GoodEntry(entries[0]) {
        assert FirstBad(entries, 0);
      } else if more.Err? {
        var i :| FirstBad(entries[1..], i) && DecodeEntry(entries[1..][i], floatSeconds) == Err(more.error);
        FirstBadLater(entries, i);
      } else {
        assert entries == [entries[0]] + entries[1..];
        assert r.value[1..] == more.value;
      }
    }
  }

  predicate FirstBad(entries: seq<GoValue>, i: int) {
    0 <= i < |entries| && !GoodEntry(entries[i]) && forall j :: 0 <= j < i ==> GoodEntry(entries[j])
  }

  lemma FirstBadLater(entries: seq<GoValue>, i: int)
    requires entries != [] && GoodEntry(entries[0]) && FirstBad(entries[1..], i)
    ensures FirstBad(entries, i + 1) && entries[i + 1] == entries[1..][i]
  {
    forall j | 0 <= j < i + 1
      ensures GoodEntry(entries[j])
    {
      assert j > 0 ==> entries[j] == entries[1..][j - 1];
    }
  }

  /** What an entry says about its time: whole seconds of an integer or a float, or the EventTime itself. */
  lemma EntryTimes(t: GoValue, data: map<bytes, GoValue>, floatSeconds: FloatSeconds)
    ensures var r := DecodeEntry(GoSlice([t, GoMap(data)]), floatSeconds);
            && (r.Ok? <==> TimeLike(t))
            && (r.Ok? ==> r.value.data.Keys == data.Keys
                          && forall k :: k in data ==> r.value.data[k] == CoerceValue(data[k]))
            && (t.GoInt? && -TWO63 <= t.i < TWO63 ==> r.value.ts == Time(t.i, 0))
            && (t.GoFloat? ==> r.value.ts == Time(floatSeconds(t.raw), 0))
            && (t.GoTime? ==> r.value.ts == t.t)
  {
  }

  /** A message is accepted if and only if it is an array whose first element is a raw tag and whose second
      is an array of good entries, or a raw body of good entries, or a time followed by a map. */
  predicate GoodMessage(v: seq<GoValue>) {
    && |v| >= 2 && v[0].GoBytes?
    && match v[1]
       case GoSlice(entries) => forall i :: 0 <= i < |entries| ==> GoodEntry(entries[i])
       case GoBytes(body) => DecodeBody(body).Some? && AllGood(DecodeBody(body).value)
       case GoInt(_) => |v| >= 3 && v[2].GoMap?
       case GoFloat(_) => |v| >= 3 && v[2].GoMap?
       case GoTime(_) => |v| >= 3 && v[2].GoMap?
       case _ => false
  }

  predicate AllGood(entries: seq<GoValue>) {
    forall i :: 0 <= i < |entries| ==> GoodEntry(entries[i])
  }

  lemma DecodeOkIff(wire: bytes, floatSeconds: FloatSeconds)
    ensures DecodeEntries(wire, floatSeconds).Ok?
            <==> && DecodeValue(wire).Parsed? && DecodeValue(wire).value.Array?
                 && ToGoItems(DecodeValue(wire).value.items).Some?
                 && GoodMessage(ToGoItems(DecodeValue(wire).value.items).value)
  {
    hide DecodeValue, ToGoItems, DecodeBody, DecodeRecords, DecodeEntry, GoodEntry;
    if DecodeValue(wire).Parsed? && DecodeValue(wire).value.Array? {
      var v := ToGoItems(DecodeValue(wire).value.items);
      if v.Some? && |v.value| >= 2 {
        if v.value[1].GoSlice? {
          DecodeRecordsIff(v.value[1].items, floatSeconds);
        } else if v.value[1].GoBytes? && DecodeBody(v.value[1].s).Some? {
          DecodeRecordsIff(DecodeBody(v.value[1].s).value, floatSeconds);
        }
      }
    }
  }

  function Tinies(records: seq<Message>, eventTime: bool): seq<Value> {
    seq(|records|, i requires 0 <= i < |records| =>
          TinyValue(records[i].ts, records[i].fieldName, records[i].message, eventTime))
  }

  /** Forward mode: the same records in a plain array decode to the same record set as a packed body. */
  lemma ForwardMode(wire: bytes, tag: bytes, records: seq<Message>, eventTime: bool, floatSeconds: FloatSeconds)
    requires DecodeValue(wire).Parsed?
    requires DecodeValue(wire).value == Array([Str(tag), Array(Tinies(records, eventTime))])
    ensures DecodeEntries(wire, floatSeconds) == Ok(RecordSet(tag, Arriving(records, eventTime)))
  {
    TiniesArrive(records, eventTime, floatSeconds);
    var items := Tinies(records, eventTime);
    assert ToGo(Array(items)) == Some(GoSlice(ToGoItems(items).value));
    StrToGo(tag);
    TwoItems(Str(tag), Array(items));
  }

  lemma {:induction false} TiniesArrive(records: seq<Message>, eventTime: bool, floatSeconds: FloatSeconds)
    ensures ToGoItems(Tinies(records, eventTime)).Some?
    ensures DecodeRecords(ToGoItems(Tinies(records, eventTime)).value, floatSeconds) == Ok(Arriving(records, eventTime))
  {
    hide DecodeEntry, ToGo, TinyValue;
    var items := Tinies(records, eventTime);
    if records == [] {
      assert items == [] && Arriving(records, eventTime) == [];
    } else {
      var m := records[0];
      TiniesArrive(records[1..], eventTime, floatSeconds);
      StrToGo(m.message);
      TinyArrives(m, eventTime, floatSeconds, m.fieldName, Str(m.message));
      assert items[1..] == Tinies(records[1..], eventTime);
      TinyIs(m, eventTime);
      var gs, more := ToGoItems(items).value, ToGoItems(items[1..]).value;
      assert gs == [ToGo(items[0]).value] + more && gs[1..] == more;
      assert Arriving(records, eventTime)
          == [EntryOf(m, Carried(m.ts, eventTime))] + Arriving(records[1..], eventTime);
    }
  }

  lemma TinyIs(m: Message, eventTime: bool)
    ensures TinyValue(m.ts, m.fieldName, m.message, eventTime)
         == Array([TimeValue(m.ts, eventTime), Map([Str(m.fieldName), Str(m.message)])])
  {
  }

  /** Message mode: a tag, a time and a map decode to one record; an option behind them is ignored. */
  lemma MessageMode(wire: bytes, tag: bytes, m: Message, option: seq<Value>, eventTime: bool,
                    floatSeconds: FloatSeconds)
    requires DecodeValue(wire).Parsed? && ToGoItems(option).Some?
    requires DecodeValue(wire).value
          == Array([Str(tag), TimeValue(m.ts, eventTime), Map([Str(m.fieldName), Str(m.message)])] + option)
    ensures DecodeEntries(wire, floatSeconds) == Ok(RecordSet(tag, [EntryOf(m, Carried(m.ts, eventTime))]))
  {
    var t, kv := TimeValue(m.ts, eventTime), Map([Str(m.fieldName), Str(m.message)]);
    var items := [Str(tag), t, kv] + option;
    TimeArrives(m.ts, eventTime, floatSeconds);
    StrToGo(m.message);
    TwoItems(Str(m.fieldName), Str(m.message));
    OnePair(m.fieldName, GoBytes(m.message));
    assert ToGo(kv) == Some(GoMap(map[m.fieldName := GoBytes(m.message)]));
    assert ToGo(Str(tag)) == Some(GoBytes(tag));
    hide TimeValue, GoTimeValue, Carried, DecodeValue, Pairs, Timestamp, ToGo, ToGoItems;
    ItemsCons(kv, option);
    ItemsCons(t, [kv] + option);
    ItemsCons(Str(tag), [t] + ([kv] + option));
    assert items == [Str(tag)] + ([t] + ([kv] + option));
    var go := ToGoItems(items).value;
    assert go == [GoBytes(tag)] + ([GoTimeValue(m.ts, eventTime)]
                 + ([GoMap(map[m.fieldName := GoBytes(m.message)])] + ToGoItems(option).value));
    assert go[0] == GoBytes(tag) && go[1] == GoTimeValue(m.ts, eventTime);
    assert go[2] == GoMap(map[m.fieldName := GoBytes(m.message)]);
    assert Coerce(go[2].m) == map[m.fieldName := GoString(m.message)];
    NotACollection(m.ts, eventTime);
  }

  lemma ItemsCons(v: Value, rest: seq<Value>)
    requires ToGo(v).Some? && ToGoItems(rest).Some?
    ensures ToGoItems([v] + rest) == Some([ToGo(v).value] + ToGoItems(rest).value)
  {
    hide ToGo;
    assert ([v] + rest)[1..] == rest;
  }

  lemma NotACollection(ts: Time, eventTime: bool)
    ensures TimeLike(GoTimeValue(ts, eventTime))
  {
  }
}
