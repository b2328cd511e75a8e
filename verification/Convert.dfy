/** Column types and time keys (hydra/fileformat.go): `NewConvertMap`, `ConvertTypes` and `Modify`. */
module Convert {
  import opened Prelude
  import opened Lines
  import UnixTime

  // ---- values and conversions -----------------------------------------------------------

  /** Values of a record's data; floating-point numbers are known by their bits only. */
  datatype Value =
    | Float64(bits: nat)
    | Float32(bits: nat)
    | Int(i: int64)
    | Int32(i: int64)
    | Int64(i: int64)
    | Bool(b: bool)
    | Str(s: bytes)
    | Other

  /** What Go's library decides: `strconv.ParseBool`, `strconv.ParseFloat`, `int64` of a float64 or float32,
      and `time.Parse` for layouts other than "unix". */
  datatype Library = Library(parseBool: bytes -> Option<bool>, parseFloat: bytes -> Option<nat>,
                             truncate64: nat -> int64, truncate32: nat -> int64,
                             parseTime: (bytes, bytes) -> Option<Time>)

  datatype ConvertType = TypeString | TypeInt | TypeFloat | TypeBool

  datatype Converter = ConvertBool | ConvertInt | ConvertFloat

  datatype ConvertMap = ConvertMap(typeMap: map<bytes, ConvertType>, converterMap: map<bytes, Converter>)

  const COMMA: byte := 44
  const BOOL: bytes := [98, 111, 111, 108]
  const INTEGER: bytes := [105, 110, 116, 101, 103, 101, 114]
  const FLOAT: bytes := [102, 108, 111, 97, 116]

  function ConvertString(lib: Library, c: Converter, s: bytes): Option<Value> {
    match c
    case ConvertBool => (var b := lib.parseBool(s); if b.Some? then Some(Bool(b.value)) else None)
    case ConvertInt => (var i := UnixTime.ParseInt(s); if i.Some? then Some(Int64(i.value)) else None)
    case ConvertFloat => (var f := lib.parseFloat(s); if f.Some? then Some(Float64(f.value)) else None)
  }

  /** A key missing from the type map has the zero type. */
  function TypeOf(m: ConvertMap, key: bytes): ConvertType {
    if key in m.typeMap then m.typeMap[key] else TypeString
  }

  function ConvertValue(lib: Library, m: ConvertMap, key: bytes, v: Value): Value
    requires key in m.converterMap
  {
    var toInt := TypeOf(m, key) == TypeInt;
    match v
    case Float64(f) => if toInt then Int64(lib.truncate64(f)) else v
    case Float32(f) => if toInt then Int64(lib.truncate32(f)) else v
    case Int(i) => if toInt then Int64(i) else v
    case Int32(i) => if toInt then Int64(i) else v
    case Str(s) => (var c := ConvertString(lib, m.converterMap[key], s); if c.Some? then c.value else v)
    case _ => v
  }

  type Data = map<bytes, Value>

  /** Every configured key converted on its own. */
  function Converted(lib: Library, m: ConvertMap, data: Data): Data {
    map k | k in data :: if k in m.converterMap then ConvertValue(lib, m, k, data[k]) else data[k]
  }

  // ---- the configuration ------------------------------------------------------------------

  function TypeNamed(name: bytes): Option<(ConvertType, Converter)> {
    if name == BOOL then Some((TypeBool, ConvertBool))
    else if name == INTEGER then Some((TypeInt, ConvertInt))
    else if name == FLOAT then Some((TypeFloat, ConvertFloat))
    else None
  }

  /** The key and type that a definition `key:type` sets, if it sets any. */
  function Definition(subdef: bytes): Option<(bytes, (ConvertType, Converter))> {
    var def := Cut(subdef, COLON);
    match def.1
    case None => None
    case Some(name) => (var t := TypeNamed(name); if t.Some? then Some((def.0, t.value)) else None)
  }

  /** The definitions that set a key are exactly `key:bool`, `key:integer` and `key:float`, where the key is
      what stands before the first colon. */
  lemma DefinitionIff(subdef: bytes, key: bytes, t: ConvertType, c: Converter)
    ensures Definition(subdef) == Some((key, (t, c)))
            <==> Free(key, COLON)
                 && ((subdef == key + [COLON] + BOOL && t == TypeBool && c == ConvertBool)
                    || (subdef == key + [COLON] + INTEGER && t == TypeInt && c == ConvertInt)
                    || (subdef == key + [COLON] + FLOAT && t == TypeFloat && c == ConvertFloat))
  {
    hide Cut;
    if Free(key, COLON) {
      CutAt(key, BOOL, COLON);
      CutAt(key, INTEGER, COLON);
      CutAt(key, FLOAT, COLON);
    }
  }

  /** Definition `i` sets `key` and none after it does. */
  predicate SetLast(subdefs: seq<bytes>, i: nat, key: bytes) {
    && i < |subdefs| && Definition(subdefs[i]).Some? && Definition(subdefs[i]).value.0 == key
    && forall j :: i < j < |subdefs| ==> Definition(subdefs[j]).None? || Definition(subdefs[j]).value.0 != key
  }

  /** Both maps have exactly the keys that some definition sets, with the types of the last one that does. */
  ghost predicate Configured(subdefs: seq<bytes>, m: ConvertMap) {
    && m.typeMap.Keys == m.converterMap.Keys
    && (forall key :: key in m.converterMap <==> exists i: nat :: SetLast(subdefs, i, key))
    && (forall key, i: nat :: key in m.converterMap && SetLast(subdefs, i, key) ==>
          Definition(subdefs[i]).value.1 == (m.typeMap[key], m.converterMap[key]))
  }

  /** The two maps have the same keys and agree on the types. */
  predicate Agree(m: ConvertMap) {
    && m.typeMap.Keys == m.converterMap.Keys
    && forall k :: k in m.converterMap ==>
         match m.converterMap[k]
         case ConvertBool => m.typeMap[k] == TypeBool
         case ConvertInt => m.typeMap[k] == TypeInt
         case ConvertFloat => m.typeMap[k] == TypeFloat
  }

  method NewConvertMap(config: bytes) returns (m: ConvertMap)
    ensures Agree(m) && Configured(Split(config, COMMA), m)
  {
    hide Split, Cut;
    m := ConvertMap(map[], map[]);
    var subdefs := Split(config, COMMA);
    for i := 0 to |subdefs|
      invariant Agree(m) && Configured(subdefs[..i], m)
    {
      ghost var before := m;
      var def := Cut(subdefs[i], COLON);
      if def.1.Some? {
        if def.1.value == BOOL {
          m := ConvertMap(m.typeMap[def.0 := TypeBool], m.converterMap[def.0 := ConvertBool]);
        } else if def.1.value == INTEGER {
          m := ConvertMap(m.typeMap[def.0 := TypeInt], m.converterMap[def.0 := ConvertInt]);
        } else if def.1.value == FLOAT {
          m := ConvertMap(m.typeMap[def.0 := TypeFloat], m.converterMap[def.0 := ConvertFloat]);
        }
      }
      ConfiguredOneMore(subdefs[..i], before, subdefs[i], m);
      assert subdefs[..i + 1] == subdefs[..i] + [subdefs[i]];
    }
    assert subdefs[..|subdefs|] == subdefs;
  }

  lemma ConfiguredOneMore(subdefs: seq<bytes>, m: ConvertMap, subdef: bytes, m': ConvertMap)
    requires Configured(subdefs, m)
    requires var d := Definition(subdef);
             m' == if d.None? then m
                   else ConvertMap(m.typeMap[d.value.0 := d.value.1.0], m.converterMap[d.value.0 := d.value.1.1])
    ensures Configured(subdefs + [subdef], m')
  {
    hide Definition, SetLast;
    var n, more, d := |subdefs|, subdefs + [subdef], Definition(subdef);
    forall key, i: nat
      ensures SetLast(more, i, key) <==>
                if d.Some? && d.value.0 == key then i == n else SetLast(subdefs, i, key)
      ensures SetLast(subdefs, i, key) ==> i < n && more[i] == subdefs[i]
    {
      SetLastSnoc(subdefs, subdef, i, key);
    }
    forall key
      ensures key in m'.converterMap <==> exists i: nat :: SetLast(more, i, key)
    {
      if d.Some? && d.value.0 == key {
        assert SetLast(more, n, key);
      } else if key in m.converterMap {
        var i: nat :| SetLast(subdefs, i, key);
        assert SetLast(more, i, key);
      }
    }
  }

  /** One more definition is the last to set its own key, and leaves the others as they were. */
  lemma SetLastSnoc(subdefs: seq<bytes>, subdef: bytes, i: nat, key: bytes)
    ensures var d := Definition(subdef);
            SetLast(subdefs + [subdef], i, key) <==>
              if d.Some? && d.value.0 == key then i == |subdefs| else SetLast(subdefs, i, key)
    ensures SetLast(subdefs, i, key) ==> i < |subdefs| && (subdefs + [subdef])[i] == subdefs[i]
  {
    hide Definition;
    var n, more := |subdefs|, subdefs + [subdef];
    assert more[n] == subdef;
    if i < n {
      assert forall j :: 0 <= j < n ==> more[j] == subdefs[j];
    }
  }

  // ---- conversion ---------------------------------------------------------------------------

  class TinyFluentRecord {
    var timestamp: Time
    var data: Data

    constructor (timestamp: Time, data: Data)
      ensures this.timestamp == timestamp && this.data == data
    {
      this.timestamp, this.data := timestamp, data;
    }
  }

  /** What a value turns into under its key, kind by kind. */
  ghost predicate Became(lib: Library, m: ConvertMap, key: bytes, was: Value, now: Value) {
    if key !in m.converterMap then now == was
    else
      var toInt := key in m.typeMap && m.typeMap[key] == TypeInt;
      match was
      case Str(s) => BecameOfText(lib, m.converterMap[key], s, now)
      case Float64(f) => now == if toInt then Int64(lib.truncate64(f)) else was
      case Float32(f) => now == if toInt then Int64(lib.truncate32(f)) else was
      case Int(i) => now == if toInt then Int64(i) else was
      case Int32(i) => now == if toInt then Int64(i) else was
      case Int64(_) => now == was
      case Bool(_) => now == was
      case Other => now == was
  }

  /** A string becomes the int64 that it denotes, or what the library makes of it, or else it stays. */
  ghost predicate BecameOfText(lib: Library, c: Converter, s: bytes, now: Value) {
    match c
    case ConvertInt =>
      && (forall i: int64 :: UnixTime.Denotes(s, i) ==> now == Int64(i))
      && ((forall i: int64 :: !UnixTime.Denotes(s, i)) ==> now == Str(s))
    case ConvertBool =>
      now == if lib.parseBool(s).Some? then Bool(lib.parseBool(s).value) else Str(s)
    case ConvertFloat =>
      now == if lib.parseFloat(s).Some? then Float64(lib.parseFloat(s).value) else Str(s)
  }

  lemma ConvertedMeans(lib: Library, m: ConvertMap, data: Data)
    ensures forall k :: k in data ==> Became(lib, m, k, data[k], Converted(lib, m, data)[k])
  {
    hide Became;
    forall k | k in data
      ensures Became(lib, m, k, data[k], Converted(lib, m, data)[k])
    {
      BecomesConverted(lib, m, k, data[k]);
    }
  }

  lemma BecomesConverted(lib: Library, m: ConvertMap, key: bytes, was: Value)
    ensures Became(lib, m, key, was, if key in m.converterMap then ConvertValue(lib, m, key, was) else was)
  {
    hide UnixTime.ParseInt, UnixTime.Denotes;
    if was.Str? {
      UnixTime.ParseIntIff(was.s);
    }
  }

  /** `ConvertTypes`: in whatever order the map is walked, the result is the same. */
  method ConvertTypes(lib: Library, c: ConvertMap, r: TinyFluentRecord)
    modifies r`data
    ensures r.data == Converted(lib, c, old(r.data))
    ensures r.data.Keys == old(r.data.Keys)
    ensures forall k :: k in r.data ==> Became(lib, c, k, old(r.data)[k], r.data[k])
  {
    ConvertedMeans(lib, c, r.data);
    hide ConvertString, TypeOf, Became;
    var rest := c.converterMap.Keys;
    while rest != {}
      invariant rest <= c.converterMap.Keys && r.data.Keys == old(r.data.Keys)
      invariant forall k :: k in r.data ==>
                  r.data[k] == if k in c.converterMap && k !in rest then ConvertValue(lib, c, k, old(r.data)[k])
                               else old(r.data)[k]
      decreases rest
    {
      var key :| key in rest;  // map iteration order
      rest := rest - {key};
      if key in r.data {
        match r.data[key]
        case Float64(f) =>
          if TypeOf(c, key) == TypeInt {
            r.data := r.data[key := Int64(lib.truncate64(f))];
          }
        case Float32(f) =>
          if TypeOf(c, key) == TypeInt {
            r.data := r.data[key := Int64(lib.truncate32(f))];
          }
        case Int(i) =>
          if TypeOf(c, key) == TypeInt {
            r.data := r.data[key := Int64(i)];
          }
        case Int32(i) =>
          if TypeOf(c, key) == TypeInt {
            r.data := r.data[key := Int64(i)];
          }
        case Str(s) =>
          var v := ConvertString(lib, c.converterMap[key], s);
          if v.Some? {
            r.data := r.data[key := v.value];
          }
        case _ =>
      }
    }
  }

  /** A key that holds the float converter under the integer type. */
  predicate Crossed(m: ConvertMap, k: bytes) {
    k in m.converterMap && m.converterMap[k] == ConvertFloat && TypeOf(m, k) == TypeInt
  }

  ghost predicate Idempotent(lib: Library, m: ConvertMap) {
    forall data :: Converted(lib, m, Converted(lib, m, data)) == Converted(lib, m, data)
  }

  /** Converting twice is converting once, for all data, exactly when no key crosses a float converter
      with the integer type; agreeing maps have no such key. */
  lemma IdempotentIff(lib: Library, m: ConvertMap, number: bytes)
    requires lib.parseFloat(number).Some?
    ensures Idempotent(lib, m) <==> forall k :: !Crossed(m, k)
    ensures Agree(m) ==> Idempotent(lib, m)
  {
    if k :| Crossed(m, k) {
      var data := map[k := Str(number)];
      var once := Converted(lib, m, data);
      assert once[k] == Float64(lib.parseFloat(number).value);
      assert Converted(lib, m, once)[k].Int64?;
    } else {
      forall data: Data
        ensures Converted(lib, m, Converted(lib, m, data)) == Converted(lib, m, data)
      {
        ConvertTwice(lib, m, data);
      }
    }
    if Agree(m) {
      forall k
        ensures !Crossed(m, k)
      {
      }
    }
  }

  lemma ConvertTwice(lib: Library, m: ConvertMap, data: Data)
    requires forall k :: !Crossed(m, k)
    ensures Converted(lib, m, Converted(lib, m, data)) == Converted(lib, m, data)
  {
    var once := Converted(lib, m, data);
    forall k | k in data && k in m.converterMap
      ensures ConvertValue(lib, m, k, once[k]) == once[k]
    {
      assert !Crossed(m, k);
    }
  }

  // ---- time keys ------------------------------------------------------------------------------

  /** `RecordModifier`; its convert map is nil when no types are configured. */
  datatype RecordModifier = RecordModifier(convertMap: Option<ConvertMap>, timeParse: bool, timeKey: bytes,
                                           timeFormat: bytes)

  const UNIX: bytes := [117, 110, 105, 120]

  function ConvertTime(lib: Library, format: bytes, s: bytes): Option<Time> {
    if format == UNIX then (var r := UnixTime.Convert(s); if r.Ok? then Some(r.value) else None)
    else lib.parseTime(format, s)
  }

  function ModifiedData(lib: Library, mod: RecordModifier, data: Data): Data {
    match mod.convertMap
    case None => data
    case Some(m) => Converted(lib, m, data)
  }

  /** A string that type conversion leaves a string: the key has no converter, or the converter fails. */
  predicate StaysText(lib: Library, mod: RecordModifier, v: Value) {
    v.Str? && (mod.convertMap.None?
               || mod.timeKey !in mod.convertMap.value.converterMap
               || ConvertString(lib, mod.convertMap.value.converterMap[mod.timeKey], v.s).None?)
  }

  /** The time that a record's data carry, as they were before conversion. */
  function TimeIn(lib: Library, mod: RecordModifier, data: Data): Option<Time> {
    if mod.timeParse && mod.timeKey in data && StaysText(lib, mod, data[mod.timeKey])
    then ConvertTime(lib, mod.timeFormat, data[mod.timeKey].s)
    else None
  }

  /** The time key holds a string after conversion exactly when it held one that no converter takes. */
  lemma TextAfterConversion(lib: Library, mod: RecordModifier, data: Data)
    requires mod.timeKey in data
    ensures var v := ModifiedData(lib, mod, data)[mod.timeKey];
            (v.Str? <==> StaysText(lib, mod, data[mod.timeKey])) && (v.Str? ==> v == data[mod.timeKey])
  {
  }

  /** Data are converted; and the timestamp is the time that the data carried before, if they did. */
  method Modify(lib: Library, mod: RecordModifier, r: TinyFluentRecord)
    modifies r
    ensures r.data == ModifiedData(lib, mod, old(r.data)) && r.data.Keys == old(r.data.Keys)
    ensures forall k :: k in r.data ==>
              if mod.convertMap.Some? then Became(lib, mod.convertMap.value, k, old(r.data)[k], r.data[k])
              else r.data[k] == old(r.data)[k]
    ensures var t := TimeIn(lib, mod, old(r.data));
            t == TimeFound(lib, mod, old(r.data))
            && r.timestamp == if t.Some? then t.value else old(r.timestamp)
  {
    hide Became;
    TimeUsedIff(lib, mod, r.data);
    if mod.convertMap.Some? {
      ConvertTypes(lib, mod.convertMap.value, r);
    }
    if !mod.timeParse {
      return;
    }
    if mod.timeKey in r.data {
      var t := r.data[mod.timeKey];
      if t.Str? {
        var ts := ConvertTime(lib, mod.timeFormat, t.s);
        if ts.Some? {
          r.timestamp := ts.value;
        }
      }
    }
  }

  /** The time that `Modify` finds, in its own order: convert first, then read what the time key holds. */
  function TimeFound(lib: Library, mod: RecordModifier, data: Data): Option<Time> {
    var after := ModifiedData(lib, mod, data);
    if mod.timeParse && mod.timeKey in after && after[mod.timeKey].Str?
    then ConvertTime(lib, mod.timeFormat, after[mod.timeKey].s)
    else None
  }

  /** It is the time that the data carried before; so a time that they hold as a string gets into the
      record if and only if no converter takes the string first. */
  lemma TimeUsedIff(lib: Library, mod: RecordModifier, data: Data)
    ensures TimeFound(lib, mod, data) == TimeIn(lib, mod, data)
    ensures mod.timeParse && mod.timeKey in data && data[mod.timeKey].Str?
            && ConvertTime(lib, mod.timeFormat, data[mod.timeKey].s).Some? ==>
              (TimeFound(lib, mod, data) == ConvertTime(lib, mod.timeFormat, data[mod.timeKey].s)
               <==> mod.convertMap.None?
                    || mod.timeKey !in mod.convertMap.value.converterMap
                    || ConvertString(lib, mod.convertMap.value.converterMap[mod.timeKey], data[mod.timeKey].s).None?)
  {
    if mod.timeKey in data {
      TextAfterConversion(lib, mod, data);
    }
  }

  /** With no types configured the time is what the string under the time key says in the configured format;
      there is none without time parsing, without the key, or where it holds no string. */
  lemma PlainTimeKey(lib: Library, mod: RecordModifier, data: Data)
    requires mod.convertMap.None?
    ensures !mod.timeParse || mod.timeKey !in data || !data[mod.timeKey].Str? ==> TimeFound(lib, mod, data) == None
    ensures mod.timeParse && mod.timeKey in data && data[mod.timeKey].Str? ==>
              var s := data[mod.timeKey].s;
              && (mod.timeFormat != UNIX ==> TimeFound(lib, mod, data) == lib.parseTime(mod.timeFormat, s))
              && (mod.timeFormat == UNIX ==>
                    && (TimeFound(lib, mod, data) == None <==> UnixTime.Convert(s).Err?)
                    && (UnixTime.Convert(s).Ok? ==> TimeFound(lib, mod, data) == Some(UnixTime.Convert(s).value)))
  {
    hide UnixTime.Convert;
  }

  /** A unix time key that is also configured as an integer loses every time without a fraction: it is
      converted to a number, while it would have been that time. A time with a fraction is no integer, so
      it stays a string and is used. */
  lemma IntegerTimeKey(lib: Library, m: ConvertMap, mod: RecordModifier, s: bytes, f: bytes)
    requires Configured(Split(mod.timeKey + [COLON] + INTEGER, COMMA), m)
    requires Free(mod.timeKey, COLON) && Free(mod.timeKey, COMMA)
    requires mod.convertMap == Some(m) && mod.timeParse && mod.timeFormat == UNIX
    requires s != [] && UnixTime.Digits(s) && UnixTime.Digits(f) && UnixTime.Value(s) < TWO63
    ensures ConvertTime(lib, UNIX, s) == Some(Time(UnixTime.Value(s), 0))
    ensures TimeIn(lib, mod, map[mod.timeKey := Str(s)]) == None
    ensures TimeIn(lib, mod, map[mod.timeKey := Str(s + [DOT] + f)])
            == Some(Time(UnixTime.Value(s), UnixTime.Nanos(f)))
  {
    hide Configured, Split, UnixTime.ParseInt, UnixTime.Convert, UnixTime.Value, UnixTime.Nanos, UnixTime.Digits;
    ConfiguredInteger(mod.timeKey, m);
    UnixTime.ConvertDecimal(s, f);
    UnixTime.ParseDigits(s);
    NotAnInteger(s, f);
  }

  lemma ConfiguredInteger(key: bytes, m: ConvertMap)
    requires Free(key, COLON) && Free(key, COMMA) && Configured(Split(key + [COLON] + INTEGER, COMMA), m)
    ensures key in m.converterMap && m.converterMap[key] == ConvertInt
  {
    hide Split, Cut;
    var def := key + [COLON] + INTEGER;
    assert Free(def, COMMA);
    SplitFree(def, COMMA);
    CutAt(key, INTEGER, COLON);
    assert Definition(def) == Some((key, (TypeInt, ConvertInt)));
    assert SetLast([def], 0, key);
  }

  const DOT: byte := UnixTime.DOT

  lemma NotAnInteger(s: bytes, f: bytes)
    requires s != [] && UnixTime.Digits(s)
    ensures UnixTime.ParseInt(s + [DOT] + f) == None
  {
    var v := s + [DOT] + f;
    assert v[|s|] == DOT && !UnixTime.IsDigit(v[|s|]);
    assert v[1..][|s| - 1] == DOT;
  }
}
