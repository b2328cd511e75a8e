/** Labelled tab-separated values: the encoder of ltsv/ltsv.go against the record builder
    `NewFluentRecordLTSV` of hydra/hydra.go. */
module Ltsv {
  import opened Prelude
  import opened Lines

  const LETTER_N: byte := 110
  const LETTER_R: byte := 114
  const LETTER_T: byte := 116

  // ---- escaping ----------------------------------------------------------------------

  /** `bytes.Replace(s, []byte{b}, []byte{'\\', letter}, -1)`. */
  function Replace(s: bytes, b: byte, letter: byte): bytes {
    if s == [] then []
    else (if s[0] == b then [BACKSLASH, letter] else [s[0]]) + Replace(s[1..], b, letter)
  }

  /** `replaceBytes`: newlines, then carriage returns, then tabs. */
  function ReplaceBytes(s: bytes): bytes {
    Replace(Replace(Replace(s, LF, LETTER_N), CR, LETTER_R), TAB, LETTER_T)
  }

  /** `Replacer`: one pass over the original bytes. */
  function Escape(s: bytes): bytes {
    if s == [] then []
    else
      (if s[0] == TAB then [BACKSLASH, LETTER_T]
       else if s[0] == LF then [BACKSLASH, LETTER_N]
       else if s[0] == CR then [BACKSLASH, LETTER_R]
       else [s[0]]) + Escape(s[1..])
  }

  predicate Plain(s: bytes) {
    TAB !in s && LF !in s && CR !in s
  }

  lemma {:induction false} ReplaceConcat(a: bytes, s: bytes, b: byte, letter: byte)
    ensures Replace(a + s, b, letter) == Replace(a, b, letter) + Replace(s, b, letter)
  {
    if a == [] {
      assert a + s == s;
    } else {
      assert (a + s)[1..] == a[1..] + s;
      ReplaceConcat(a[1..], s, b, letter);
    }
  }

  lemma ReplaceOne(x: byte, b: byte, letter: byte)
    ensures Replace([x], b, letter) == if x == b then [BACKSLASH, letter] else [x]
  {
  }

  /** The three replacements in turn are the simultaneous one, and leave no separator. */
  lemma {:induction false} EscapeRefined(s: bytes)
    ensures ReplaceBytes(s) == Escape(s)
    ensures Plain(Escape(s))
  {
    if s != [] {
      EscapeRefined(s[1..]);
      assert s == [s[0]] + s[1..];
      var s1 := Replace(s[1..], LF, LETTER_N);
      var s2 := Replace(s1, CR, LETTER_R);
      var h1 := Replace([s[0]], LF, LETTER_N);
      var h2 := Replace(h1, CR, LETTER_R);
      ReplaceConcat([s[0]], s[1..], LF, LETTER_N);
      ReplaceConcat(h1, s1, CR, LETTER_R);
      ReplaceConcat(h2, s2, TAB, LETTER_T);
      EscapeByte(s[0]);
    }
  }

  lemma EscapeByte(x: byte)
    ensures ReplaceBytes([x]) == if x == TAB then [BACKSLASH, LETTER_T]
                                 else if x == LF then [BACKSLASH, LETTER_N]
                                 else if x == CR then [BACKSLASH, LETTER_R]
                                 else [x]
  {
    ReplaceOne(x, LF, LETTER_N);
    if x == LF {
      ReplacePair(LETTER_N, CR, LETTER_R);
      ReplacePair(LETTER_N, TAB, LETTER_T);
    } else {
      ReplaceOne(x, CR, LETTER_R);
      if x == CR {
        ReplacePair(LETTER_R, TAB, LETTER_T);
      } else {
        ReplaceOne(x, TAB, LETTER_T);
      }
    }
  }

  lemma ReplacePair(y: byte, b: byte, letter: byte)
    requires b != BACKSLASH && y != b
    ensures Replace([BACKSLASH, y], b, letter) == [BACKSLASH, y]
  {
    assert [BACKSLASH, y] == [BACKSLASH] + [y];
    ReplaceConcat([BACKSLASH], [y], b, letter);
    ReplaceOne(BACKSLASH, b, letter);
    ReplaceOne(y, b, letter);
  }

  /** Escaping changes nothing exactly when there is nothing to escape. */
  lemma {:induction false} EscapeIdentityIff(s: bytes)
    ensures Escape(s) == s <==> Plain(s)
    ensures |Escape(s)| >= |s|
  {
    if s != [] {
      EscapeIdentityIff(s[1..]);
      assert s == [s[0]] + s[1..];
      if s[0] == TAB || s[0] == LF || s[0] == CR {
        assert |Escape(s)| > |s|;
      } else {
        assert Escape(s)[1..] == Escape(s[1..]);
      }
    }
  }

  // ---- encoding -----------------------------------------------------------------------

  /** A value of a record: a string, raw bytes, or anything else with the text that `fmt` prints for it. */
  datatype Field = Str(s: bytes) | Raw(s: bytes) | Other(printed: bytes)

  type Record = map<bytes, Field>

  function Rendered(v: Field): bytes {
    match v
    case Str(s) => Escape(s)
    case Raw(s) => Escape(s)
    case Other(printed) => printed
  }

  function RenderedMap(m: Record): map<bytes, bytes> {
    map k | k in m :: Rendered(m[k])
  }

  function Column(key: bytes, v: Field): bytes {
    key + [COLON] + Rendered(v)
  }

  function Columns(m: Record, keys: seq<bytes>): seq<bytes>
    requires forall i :: 0 <= i < |keys| ==> keys[i] in m
  {
    seq(|keys|, i requires 0 <= i < |keys| => Column(keys[i], m[keys[i]]))
  }

  /** One line, without its newline. */
  function EncodedLine(m: Record, keys: seq<bytes>): bytes
    requires forall i :: 0 <= i < |keys| ==> keys[i] in m
  {
    if keys == [] then [] else Join(Columns(m, keys), TAB)
  }

  /** Byte-wise string order. */
  predicate Less(a: bytes, b: bytes) {
    if b == [] then false
    else if a == [] then true
    else a[0] < b[0] || (a[0] == b[0] && Less(a[1..], b[1..]))
  }

  predicate Increasing(keys: seq<bytes>) {
    forall i, j :: 0 <= i < j < |keys| ==> Less(keys[i], keys[j])
  }

  /** The keys of a record in the order in which they are written. */
  ghost predicate SortedKeys(keys: seq<bytes>, all: set<bytes>) {
    Increasing(keys) && forall k :: k in keys <==> k in all
  }

  /** One is a proper front part of the other, or is smaller at the first place where they differ. */
  lemma {:induction false} LessIff(a: bytes, b: bytes)
    ensures Less(a, b) <==> exists i :: SmallerAt(a, b, i)
  {
    if a != [] && b != [] {
      LessIff(a[1..], b[1..]);
      if a[0] < b[0] {
        assert SmallerAt(a, b, 0);
      } else if a[0] == b[0] {
        if i :| SmallerAt(a[1..], b[1..], i) {
          assert a == [a[0]] + a[1..] && b == [b[0]] + b[1..];
          assert a[..i + 1] == [a[0]] + a[1..][..i] && b[..i + 1] == [b[0]] + b[1..][..i];
          assert SmallerAt(a, b, i + 1);
        }
        if i :| SmallerAt(a, b, i) {
          assert i > 0;
          assert a[1..][..i - 1] == a[..i][1..] && b[1..][..i - 1] == b[..i][1..];
          assert SmallerAt(a[1..], b[1..], i - 1);
        }
      } else if i :| SmallerAt(a, b, i) {
        assert i > 0 ==> a[..i][0] == a[0] && b[..i][0] == b[0];
      }
    } else if a == [] && b != [] {
      assert SmallerAt(a, b, 0);
    }
  }

  predicate SmallerAt(a: bytes, b: bytes, i: int) {
    0 <= i <= |a| && i < |b| && a[..i] == b[..i] && (i == |a| || a[i] < b[i])
  }

  lemma {:induction false} LessTotal(a: bytes, b: bytes)
    ensures Less(a, b) || a == b || Less(b, a)
    ensures !(Less(a, b) && Less(b, a)) && (a == b ==> !Less(a, b))
  {
    if a != [] && b != [] {
      LessTotal(a[1..], b[1..]);
      assert a == [a[0]] + a[1..] && b == [b[0]] + b[1..];
    }
  }

  lemma {:induction false} LessTransitive(a: bytes, b: bytes, c: bytes)
    requires Less(a, b) && Less(b, c)
    ensures Less(a, c)
  {
    if a != [] && a[0] == b[0] == c[0] {
      LessTransitive(a[1..], b[1..], c[1..]);
    }
  }

  /** Whatever order the map is walked in, the keys come out in one order. */
  lemma {:induction false} SortedKeysUnique(a: seq<bytes>, b: seq<bytes>, all: set<bytes>)
    requires SortedKeys(a, all) && SortedKeys(b, all)
    ensures a == b
    decreases |a|
  {
    if a == [] {
      FirstMember(b);
    } else {
      assert a[0] in b && b != [];
      LessTotal(a[0], b[0]);
      assert a[0] == b[0] by {
        assert b[0] in a;
      }
      TailSorted(a, all);
      TailSorted(b, all);
      SortedKeysUnique(a[1..], b[1..], all - {a[0]});
      assert a == [a[0]] + a[1..] && b == [b[0]] + b[1..];
    }
  }

  lemma FirstMember(keys: seq<bytes>)
    ensures keys != [] ==> keys[0] in keys
  {
  }

  lemma TailSorted(a: seq<bytes>, all: set<bytes>)
    requires SortedKeys(a, all) && a != []
    ensures SortedKeys(a[1..], all - {a[0]})
  {
    assert a == [a[0]] + a[1..];
    forall k | k in a[1..]
      ensures k in all - {a[0]}
    {
      LessTotal(a[0], a[0]);
      var i :| 0 <= i < |a[1..]| && a[1..][i] == k;
      assert a[i + 1] == k && Less(a[0], a[i + 1]);
    }
  }

  /** `sort.Strings` on distinct keys. */
  function Sorted(keys: seq<bytes>): seq<bytes> {
    if keys == [] then [] else Insert(Sorted(Front(keys)), Last(keys))
  }

  function Insert(sorted: seq<bytes>, key: bytes): seq<bytes> {
    if sorted == [] || Less(key, sorted[0]) then [key] + sorted
    else [sorted[0]] + Insert(sorted[1..], key)
  }

  lemma {:induction false} InsertSorted(sorted: seq<bytes>, key: bytes)
    requires Increasing(sorted) && key !in sorted
    ensures Increasing(Insert(sorted, key))
    ensures forall k :: k in Insert(sorted, key) <==> k in sorted || k == key
    decreases |sorted|
  {
    if sorted == [] {
    } else if Less(key, sorted[0]) {
      forall i | 0 <= i < |sorted|
        ensures Less(key, sorted[i])
      {
        if i > 0 {
          LessTransitive(key, sorted[0], sorted[i]);
        }
      }
    } else {
      var tail := sorted[1..];
      InsertSorted(tail, key);
      LessTotal(key, sorted[0]);
      var rest := Insert(tail, key);
      forall j | 0 <= j < |rest|
        ensures Less(sorted[0], rest[j])
      {
        assert rest[j] in tail || rest[j] == key;
      }
      assert sorted == [sorted[0]] + tail;
    }
  }

  lemma {:induction false} SortedIsSorted(keys: seq<bytes>)
    requires forall i, j :: 0 <= i < j < |keys| ==> keys[i] != keys[j]
    ensures Increasing(Sorted(keys)) && forall k :: k in Sorted(keys) <==> k in keys
  {
    if keys != [] {
      SortedIsSorted(Front(keys));
      assert keys == Front(keys) + [Last(keys)];
      InsertSorted(Sorted(Front(keys)), Last(keys));
    }
  }

  /** The keys of the map, in whatever order it is walked. */
  method CollectKeys(record: Record) returns (keys: seq<bytes>)
    ensures forall k :: k in keys <==> k in record.Keys
    ensures forall i, j :: 0 <= i < j < |keys| ==> keys[i] != keys[j]
  {
    keys := [];
    var rest := record.Keys;
    while rest != {}
      invariant forall k :: k in record.Keys <==> k in keys || k in rest
      invariant forall k :: k in rest ==> k !in keys
      invariant forall i, j :: 0 <= i < j < |keys| ==> keys[i] != keys[j]
      decreases rest
    {
      var key :| key in rest;
      keys, rest := keys + [key], rest - {key};
    }
  }

  /** Where the encoder writes to: it takes `room` more bytes and then fails. */
  class Writer {
    var data: bytes
    var room: nat

    constructor (room: nat)
      ensures data == [] && this.room == room
    {
      this.data, this.room := [], room;
    }

    /** `fmt.Fprint`: what fits is written, and anything less than all is an error. */
    method Fprint(s: bytes) returns (ok: bool)
      modifies this
      ensures ok <==> |s| <= old(room)
      ensures data == old(data) + First(s, old(room)) && room == old(room) - |First(s, old(room))|
    {
      ok := |s| <= room;
      var written := First(s, room);
      data, room := data + written, room - |written|;
    }
  }

  /** At most the first `n` bytes. */
  function First(s: bytes, n: nat): (r: bytes)
    ensures |r| <= n
  {
    if |s| <= n then s else s[..n]
  }

  /** What `Encode` writes for a record, its keys in order. */
  ghost predicate IsEncoding(record: Record, line: bytes) {
    exists keys :: SortedKeys(keys, record.Keys) && line == EncodedLine(record, keys) + [LF]
  }

  lemma OneEncoding(record: Record, a: bytes, b: bytes)
    requires IsEncoding(record, a) && IsEncoding(record, b)
    ensures a == b
  {
    var x :| SortedKeys(x, record.Keys) && a == EncodedLine(record, x) + [LF];
    var y :| SortedKeys(y, record.Keys) && b == EncodedLine(record, y) + [LF];
    SortedKeysUnique(x, y, record.Keys);
  }

  /** `Encode`: the columns in key order with tabs between them, and a newline, as far as the writer takes
      them; the error is returned exactly when it did not take them all. */
  method Encode(w: Writer, record: Record) returns (ok: bool, ghost line: bytes)
    modifies w
    ensures IsEncoding(record, line)
    ensures w.data == old(w.data) + First(line, old(w.room))
    ensures ok <==> |line| <= old(w.room)
  {
    hide EncodedLine, Rendered, Sorted, Increasing, First;
    var first := true;
    var keys := CollectKeys(record);
    SortedIsSorted(keys);
    keys := Sorted(keys);
    line := EncodedLine(record, keys) + [LF];
    assert SortedKeys(keys, record.Keys);
    ghost var start, room := w.data, w.room;
    NoKeys(record);
    for i := 0 to |keys|
      invariant first == (i == 0)
      invariant Written(w, start, room, EncodedLine(record, keys[..i]))
    {
      ghost var done := EncodedLine(record, keys[..i]);
      EncodedStep(record, keys, i);
      if !first {
        ok := w.Fprint([TAB]);
        WroteMore(w, start, room, done, [TAB], ok, line);
        done := done + [TAB];
        if !ok {
          return;
        }
      } else {
        first := false;
      }
      ok := w.Fprint(keys[i] + [COLON]);
      WroteMore(w, start, room, done, keys[i] + [COLON], ok, line);
      done := done + (keys[i] + [COLON]);
      if !ok {
        return;
      }
      ok := w.Fprint(Rendered(record[keys[i]]));
      WroteMore(w, start, room, done, Rendered(record[keys[i]]), ok, line);
      if !ok {
        return;
      }
    }
    assert keys[..|keys|] == keys;
    ok := w.Fprint([LF]);
    WroteMore(w, start, room, EncodedLine(record, keys), [LF], ok, line);
  }

  /** All of `done` was written, to a writer that had `room` and `start` before. */
  ghost predicate Written(w: Writer, start: bytes, room: nat, done: bytes)
    reads w
  {
    w.data == start + done && w.room + |done| == room
  }

  /** One more write behind `done`: it is all there, or the writer is full and has the front of the line. */
  lemma WroteMore(w: Writer, start: bytes, room: nat, done: bytes, s: bytes, ok: bool, line: bytes)
    requires |done| <= room && done + s <= line && (ok <==> |s| <= room - |done|)
    requires w.data == start + done + First(s, room - |done|) && w.room == room - |done| - |First(s, room - |done|)|
    ensures ok ==> Written(w, start, room, done + s)
    ensures !ok ==> w.data == start + First(line, room) && |line| > room
    ensures done + s == line && ok ==> w.data == start + First(line, room) && |line| <= room
  {
    if !ok {
      assert line[..room] == (done + s)[..room] == done + s[..room - |done|];
    }
  }

  /** The line as far as key `i` and what that key adds to it are the front of the whole line. */
  lemma EncodedStep(m: Record, keys: seq<bytes>, i: nat)
    requires (forall j :: 0 <= j < |keys| ==> keys[j] in m) && i < |keys|
    ensures var done, sep := EncodedLine(m, keys[..i]), if i == 0 then [] else [TAB];
            && EncodedLine(m, keys[..i + 1]) == done + sep + (keys[i] + [COLON]) + Rendered(m[keys[i]])
            && done + sep + (keys[i] + [COLON]) + Rendered(m[keys[i]]) <= EncodedLine(m, keys)
  {
    hide EncodedLine, Rendered;
    assert keys[..i + 1] == keys[..i] + [keys[i]];
    EncodedSnoc(m, keys[..i], keys[i]);
    EncodedGrows(m, keys, i + 1);
  }

  lemma {:induction false} EncodedGrows(m: Record, keys: seq<bytes>, i: nat)
    requires (forall j :: 0 <= j < |keys| ==> keys[j] in m) && i <= |keys|
    ensures EncodedLine(m, keys[..i]) <= EncodedLine(m, keys)
    decreases |keys| - i
  {
    hide EncodedLine, Rendered;
    if i < |keys| {
      assert keys[..i + 1] == keys[..i] + [keys[i]];
      EncodedSnoc(m, keys[..i], keys[i]);
      EncodedGrows(m, keys, i + 1);
    } else {
      assert keys[..i] == keys;
    }
  }

  lemma EncodedSnoc(m: Record, keys: seq<bytes>, key: bytes)
    requires (forall i :: 0 <= i < |keys| ==> keys[i] in m) && key in m
    ensures EncodedLine(m, keys + [key])
         == EncodedLine(m, keys) + (if keys == [] then [] else [TAB]) + (key + [COLON]) + Rendered(m[key])
  {
    assert Columns(m, keys + [key]) == Columns(m, keys) + [Column(key, m[key])];
    if keys != [] {
      JoinSnoc(Columns(m, keys), Column(key, m[key]), TAB);
    }
  }

  // ---- the record builder ----------------------------------------------------------------

  function ParseColumns(cols: seq<bytes>, fieldName: bytes, line: bytes): map<bytes, bytes> {
    if cols == [] then map[] else ParseColumn(ParseColumns(Front(cols), fieldName, line), Last(cols), fieldName, line)
  }

  /** An empty column is ignored; one without a colon puts the whole line under the field name. */
  function ParseColumn(data: map<bytes, bytes>, col: bytes, fieldName: bytes, line: bytes): map<bytes, bytes> {
    if col == [] then data
    else
      var pair := Cut(col, COLON);
      match pair.1
      case Some(v) => data[pair.0 := v]
      case None => data[fieldName := line]
  }

  function ParseLine(fieldName: bytes, line: bytes): map<bytes, bytes> {
    ParseColumns(Split(line, TAB), fieldName, line)
  }

  /** A column sets a key: `key:value`, where the key is what stands before the first colon; or, without a
      colon and not empty, the field name, to the whole line. */
  predicate Sets(col: bytes, fieldName: bytes, line: bytes, k: bytes, v: bytes) {
    || (Free(k, COLON) && col == k + [COLON] + v)
    || (col != [] && Free(col, COLON) && k == fieldName && v == line)
  }

  /** Column `i` sets `k` to `v`, and no column behind it sets `k`. */
  ghost predicate SetsLast(cols: seq<bytes>, i: int, fieldName: bytes, line: bytes, k: bytes, v: bytes) {
    && 0 <= i < |cols| && Sets(cols[i], fieldName, line, k, v)
    && forall j, w :: i < j < |cols| ==> !Sets(cols[j], fieldName, line, k, w)
  }

  /** The data are what the columns set, the last one for each key. */
  ghost predicate AsSet(data: map<bytes, bytes>, cols: seq<bytes>, fieldName: bytes, line: bytes) {
    forall k, v :: Holds(data, k, v) <==> exists i :: SetsLast(cols, i, fieldName, line, k, v)
  }

  predicate Holds(data: map<bytes, bytes>, k: bytes, v: bytes) {
    k in data && data[k] == v
  }

  lemma ColumnSets(data: map<bytes, bytes>, col: bytes, fieldName: bytes, line: bytes, k: bytes, v: bytes)
    ensures Holds(ParseColumn(data, col, fieldName, line), k, v)
            <==> Sets(col, fieldName, line, k, v)
                 || (Holds(data, k, v) && forall w :: !Sets(col, fieldName, line, k, w))
  {
    hide Cut;
    var pair := Cut(col, COLON);
    if pair.1.Some? {
      assert col == pair.0 + [COLON] + pair.1.value;
      assert Sets(col, fieldName, line, pair.0, pair.1.value);
      assert !Free(col, COLON);
      forall k', w | Free(k', COLON) && col == k' + [COLON] + w
        ensures k' == pair.0 && w == pair.1.value
      {
        CutAt(k', w, COLON);
      }
    } else if col != [] {
      assert Sets(col, fieldName, line, fieldName, line);
      forall k', w
        ensures !Free(k' + [COLON] + w, COLON)
      {
        HasColon(k', w);
      }
    }
  }

  lemma HasColon(k: bytes, v: bytes)
    ensures !Free(k + [COLON] + v, COLON)
  {
    assert (k + [COLON] + v)[|k|] == COLON;
  }

  lemma {:induction false} ParsedAsSet(cols: seq<bytes>, fieldName: bytes, line: bytes)
    ensures AsSet(ParseColumns(cols, fieldName, line), cols, fieldName, line)
  {
    if cols != [] {
      ParsedAsSet(Front(cols), fieldName, line);
    }
    hide Sets, ParseColumn;
    forall k, v
      ensures Holds(ParseColumns(cols, fieldName, line), k, v)
              <==> exists i :: SetsLast(cols, i, fieldName, line, k, v)
    {
      if cols != [] {
        ColumnSets(ParseColumns(Front(cols), fieldName, line), Last(cols), fieldName, line, k, v);
        LastColumnSets(Front(cols), Last(cols), fieldName, line, k, v);
        assert Front(cols) + [Last(cols)] == cols;
      }
    }
  }

  lemma LastColumnSets(front: seq<bytes>, col: bytes, fieldName: bytes, line: bytes, k: bytes, v: bytes)
    ensures (exists i :: SetsLast(front + [col], i, fieldName, line, k, v))
            <==> Sets(col, fieldName, line, k, v)
                 || ((exists i :: SetsLast(front, i, fieldName, line, k, v))
                     && forall w :: !Sets(col, fieldName, line, k, w))
  {
    hide Sets;
    var cols, n := front + [col], |front|;
    assert cols[n] == col;
    if Sets(col, fieldName, line, k, v) {
      assert SetsLast(cols, n, fieldName, line, k, v);
    }
    if i :| SetsLast(cols, i, fieldName, line, k, v) {
      if i < n {
        assert forall j :: 0 <= j < n ==> cols[j] == front[j];
        assert SetsLast(front, i, fieldName, line, k, v);
      }
    }
    if i :| SetsLast(front, i, fieldName, line, k, v) {
      if forall w :: !Sets(col, fieldName, line, k, w) {
        forall j, w | i < j < |cols|
          ensures !Sets(cols[j], fieldName, line, k, w)
        {
          assert j < n ==> cols[j] == front[j];
        }
        assert SetsLast(cols, i, fieldName, line, k, v);
      }
    }
  }

  /** `NewFluentRecordLTSV`. */
  method NewFluentRecordLTSV(fieldName: bytes, line: bytes) returns (data: map<bytes, bytes>)
    ensures data == ParseLine(fieldName, line)
    ensures AsSet(data, Split(line, TAB), fieldName, line)
  {
    ParsedAsSet(Split(line, TAB), fieldName, line);
    hide AsSet;
    hide Split, Cut;
    data := map[];
    var cols := Split(line, TAB);
    for i := 0 to |cols|
      invariant data == ParseColumns(cols[..i], fieldName, line)
    {
      var col := cols[i];
      assert Front(cols[..i + 1]) == cols[..i] && Last(cols[..i + 1]) == col;
      if col == [] {
        continue;
      }
      var pair := Cut(col, COLON);
      match pair.1
      case Some(v) => data := data[pair.0 := v];
      case None => data := data[fieldName := line];
    }
    assert cols[..|cols|] == cols;
  }

  /** The records of a block in LTSV format. */
  function ParseBlock(fieldName: bytes, buffer: bytes): seq<map<bytes, bytes>> {
    var lines := Split(buffer, LF);
    seq(|lines|, i requires 0 <= i < |lines| => ParseLine(fieldName, lines[i]))
  }

  // ---- the round trip ----------------------------------------------------------------------

  predicate CleanKey(k: bytes) {
    Free(k, COLON) && Free(k, TAB) && Free(k, LF)
  }

  predicate CleanValue(v: bytes) {
    Free(v, TAB) && Free(v, LF)
  }

  /** Every key and every rendered value keeps to its column. */
  predicate Clean(m: Record) {
    forall k :: k in m ==> CleanKey(k) && CleanValue(Rendered(m[k]))
  }

  /** A line and the keys in the order in which it holds them. */
  datatype Encoded = Encoded(m: Record, keys: seq<bytes>) {
    ghost predicate Valid() {
      && (forall k :: k in keys <==> k in m)
      && (forall i, j :: 0 <= i < j < |keys| ==> keys[i] != keys[j])
    }

    function Line(): bytes
      requires forall i :: 0 <= i < |keys| ==> keys[i] in m
    {
      EncodedLine(m, keys)
    }
  }

  /** Without newlines in play: key and value of each column stay inside it. */
  predicate LineClean(m: Record) {
    forall k :: k in m ==> Free(k, COLON) && Free(k, TAB) && Free(Rendered(m[k]), TAB)
  }

  /** What parsing can yield: a clean key with a tab-free value, or the whole line under the field name. */
  predicate Parsable(k: bytes, v: bytes, fieldName: bytes, line: bytes) {
    (Free(k, COLON) && Free(k, TAB) && Free(v, TAB)) || (k == fieldName && v == line)
  }

  predicate AllParsable(data: map<bytes, bytes>, fieldName: bytes, line: bytes) {
    forall k :: k in data ==> Parsable(k, data[k], fieldName, line)
  }

  lemma {:induction false} ParsedKeys(cols: seq<bytes>, fieldName: bytes, line: bytes)
    requires AllFree(cols, TAB)
    ensures AllParsable(ParseColumns(cols, fieldName, line), fieldName, line)
  {
    hide Cut;
    if cols != [] {
      assert AllFree(Front(cols), TAB);
      ParsedKeys(Front(cols), fieldName, line);
      assert Free(Last(cols), TAB);
      CutFree(Last(cols));
    }
  }

  lemma CutFree(col: bytes)
    requires Free(col, TAB)
    ensures Free(Cut(col, COLON).0, TAB) && Free(Cut(col, COLON).0, COLON)
    ensures Cut(col, COLON).1.Some? ==> Free(Cut(col, COLON).1.value, TAB)
  {
    hide Cut;
    var pair := Cut(col, COLON);
    if pair.1.Some? {
      assert forall b :: b in pair.0 || b in pair.1.value ==> b in col;
    }
  }

  /** A line is longer than any value in it. */
  lemma {:induction false} LineLonger(m: Record, keys: seq<bytes>, i: nat)
    requires (forall j :: 0 <= j < |keys| ==> keys[j] in m) && i < |keys|
    ensures |EncodedLine(m, keys)| > |Rendered(m[keys[i]])|
  {
    hide Rendered;
    assert keys == Front(keys) + [Last(keys)];
    EncodedSnoc(m, Front(keys), Last(keys));
    if i < |keys| - 1 {
      LineLonger(m, Front(keys), i);
    }
  }

  lemma {:induction false} ParseEncoded(m: Record, keys: seq<bytes>, fieldName: bytes, line: bytes)
    requires (forall i :: 0 <= i < |keys| ==> keys[i] in m) && LineClean(m)
    ensures ParseColumns(Columns(m, keys), fieldName, line) == map k | k in keys :: Rendered(m[k])
  {
    hide Cut, Rendered;
    if keys != [] {
      var key := Last(keys);
      ParseEncoded(m, Front(keys), fieldName, line);
      assert keys == Front(keys) + [key];
      assert Columns(m, keys) == Columns(m, Front(keys)) + [Column(key, m[key])];
      assert Front(Columns(m, keys)) == Columns(m, Front(keys));
      CutAt(key, Rendered(m[key]), COLON);
    }
  }

  lemma ColumnsFree(m: Record, keys: seq<bytes>)
    requires (forall i :: 0 <= i < |keys| ==> keys[i] in m) && LineClean(m)
    ensures AllFree(Columns(m, keys), TAB)
  {
  }

  /** One line reads back as the record, values escaped, exactly when no key holds a colon or a tab and no
      rendered value holds a tab. */
  lemma LineRoundTripIff(e: Encoded, fieldName: bytes)
    requires e.Valid()
    ensures ParseLine(fieldName, e.Line()) == RenderedMap(e.m) <==> LineClean(e.m)
  {
    hide Split, Rendered, ParseColumns, Columns;
    var line := e.Line();
    if LineClean(e.m) {
      if e.keys == [] {
        EmptyLine(e.m, fieldName);
      } else {
        ColumnsFree(e.m, e.keys);
        ColumnsNonEmpty(e.m, e.keys);
        JoinSplit(Columns(e.m, e.keys), TAB);
        ParseEncoded(e.m, e.keys, fieldName, line);
      }
      assert (map k | k in e.keys :: Rendered(e.m[k])) == RenderedMap(e.m);
    } else {
      var k :| k in e.m && !(Free(k, COLON) && Free(k, TAB) && Free(Rendered(e.m[k]), TAB));
      SplitJoin(line, TAB);
      ParsedKeys(Split(line, TAB), fieldName, line);
      assert k in e.keys;
      var i :| 0 <= i < |e.keys| && e.keys[i] == k;
      LineLonger(e.m, e.keys, i);
      var v, data := Rendered(e.m[k]), ParseLine(fieldName, line);
      assert !Parsable(k, v, fieldName, line);
      assert k in data ==> Parsable(k, data[k], fieldName, line);
      assert k in RenderedMap(e.m) && RenderedMap(e.m)[k] == v;
    }
  }

  lemma ColumnsNonEmpty(m: Record, keys: seq<bytes>)
    requires keys != [] && forall i :: 0 <= i < |keys| ==> keys[i] in m
    ensures |Columns(m, keys)| >= 1
  {
  }

  lemma EmptyLine(m: Record, fieldName: bytes)
    ensures ParseLine(fieldName, []) == map[]
    ensures m == map[] ==> RenderedMap(m) == map[]
  {
    var cols: seq<bytes> := [[]];
    assert Split([], TAB) == cols && Front(cols) == [];
    assert ParseColumns(Front(cols), fieldName, []) == map[];
  }

  // ---- several records in one block -----------------------------------------------------------

  ghost predicate AllValid(es: seq<Encoded>) {
    forall i :: 0 <= i < |es| ==> es[i].Valid()
  }

  ghost function EncodedLines(es: seq<Encoded>): seq<bytes>
    requires AllValid(es)
  {
    seq(|es|, i requires 0 <= i < |es| => es[i].Line())
  }

  /** A line is newline-free exactly when its keys and values are. */
  lemma {:induction false} LineFreeIff(m: Record, keys: seq<bytes>)
    requires forall i :: 0 <= i < |keys| ==> keys[i] in m
    ensures Free(EncodedLine(m, keys), LF)
            <==> forall i :: 0 <= i < |keys| ==> Free(keys[i], LF) && Free(Rendered(m[keys[i]]), LF)
  {
    hide Rendered, EncodedLine;
    if keys == [] {
      assert EncodedLine(m, keys) == [] by { NoKeys(m); }
    } else {
      var key := Last(keys);
      assert keys == Front(keys) + [key];
      EncodedSnoc(m, Front(keys), key);
      LineFreeIff(m, Front(keys));
      var head, sep, v := EncodedLine(m, Front(keys)), if Front(keys) == [] then [] else [TAB], Rendered(m[key]);
      assert EncodedLine(m, keys) == head + sep + (key + [COLON]) + v;
      assert forall b :: b in head + sep + (key + [COLON]) + v <==>
          b in head || b in sep || b in key || b == COLON || b in v;
    }
  }

  lemma NoKeys(m: Record)
    ensures EncodedLine(m, []) == []
  {
  }

  lemma UnlinesIsJoin(lines: seq<bytes>)
    requires |lines| >= 1
    ensures Unlines(lines) == Join(lines, LF) + [LF]
  {
    UnlinesJoin(lines, []);
    JoinSnoc(lines, [], LF);
    assert Unlines(lines) + [] == Unlines(lines);
  }

  /** Splitting joined lines gives at least as many parts as there were lines, and just as many only when
      no line holds a newline. */
  lemma {:induction false} JoinedParts(lines: seq<bytes>)
    requires |lines| >= 1
    ensures |Split(Join(lines, LF), LF)| >= |lines|
    ensures |Split(Join(lines, LF), LF)| == |lines| ==> AllFree(lines, LF)
  {
    hide Split;
    FreeIsOnePart(lines[0], LF);
    if |lines| > 1 {
      var tail := Join(lines[1..], LF);
      JoinedParts(lines[1..]);
      SplitConcat(lines[0], [LF] + tail, LF);
      SplitLeading(tail, LF);
      assert lines[0] + [LF] + tail == lines[0] + ([LF] + tail);
      if |Split(Join(lines, LF), LF)| == |lines| {
        assert AllFree([lines[0]] + lines[1..], LF);
        assert [lines[0]] + lines[1..] == lines;
      }
    }
  }

  /** Encoding n >= 1 records, joining the lines and building LTSV records from the block gives back the n
      records, values escaped, exactly when every key is free of colon, tab and newline and every rendered
      value free of tab and newline. */
  lemma LtsvRoundTripIff(es: seq<Encoded>, fieldName: bytes)
    requires |es| >= 1 && AllValid(es)
    ensures var encoded := Unlines(EncodedLines(es));
            && encoded != []
            && (ParseBlock(fieldName, encoded[..|encoded| - 1])
                == seq(|es|, i requires 0 <= i < |es| => RenderedMap(es[i].m))
                <==> forall i :: 0 <= i < |es| ==> Clean(es[i].m))
  {
    var lines := EncodedLines(es);
    var block := Join(lines, LF);
    UnlinesIsJoin(lines);
    assert Unlines(lines)[..|Unlines(lines)| - 1] == block;
    hide Split, Join, Unlines, ParseLine, RenderedMap, EncodedLine;
    JoinedParts(lines);
    forall i | 0 <= i < |es|
      ensures Clean(es[i].m) <==> Free(lines[i], LF) && ParseLine(fieldName, lines[i]) == RenderedMap(es[i].m)
    {
      CleanIff(es[i], fieldName);
    }
    var wanted := seq(|es|, i requires 0 <= i < |es| => RenderedMap(es[i].m));
    if AllFree(lines, LF) {
      JoinSplit(lines, LF);
      forall i | 0 <= i < |es|
        ensures ParseBlock(fieldName, block)[i] == ParseLine(fieldName, lines[i]) && wanted[i] == RenderedMap(es[i].m)
      {
      }
    } else {
      assert |ParseBlock(fieldName, block)| != |wanted|;
    }
  }

  lemma CleanIff(e: Encoded, fieldName: bytes)
    requires e.Valid()
    ensures Clean(e.m) <==> Free(e.Line(), LF) && ParseLine(fieldName, e.Line()) == RenderedMap(e.m)
  {
    hide ParseLine, RenderedMap, EncodedLine, Rendered;
    LineRoundTripIff(e, fieldName);
    LineFreeIff(e.m, e.keys);
    forall k | k in e.m
      ensures k in e.keys
    {
    }
  }

  /** A record's values come back as they were exactly when no string of it holds a tab, newline or CR. */
  lemma UnescapedIff(m: Record)
    ensures (forall k :: k in m ==> Rendered(m[k]) == RawText(m[k]))
            <==> forall k :: k in m && !m[k].Other? ==> Plain(RawText(m[k]))
  {
    forall k | k in m && !m[k].Other?
      ensures Rendered(m[k]) == RawText(m[k]) <==> Plain(RawText(m[k]))
    {
      EscapeIdentityIff(RawText(m[k]));
    }
  }

  function RawText(v: Field): bytes {
    match v
    case Str(s) => s
    case Raw(s) => s
    case Other(printed) => printed
  }
}
