/** Splitting a byte stream into lines, and the incremental splitter of
    `File.tailAndSend` seen as a function on values. */
module Lines {
  import opened Prelude

  // ---- bytes.Split and what a line is ------------------------------------

  /** `bytes.Split(s, []byte{sep})`: never empty, `Split([], sep)` is one empty part. */
  function Split(s: bytes, sep: byte): (parts: seq<bytes>)
    ensures |parts| >= 1
  {
    if s == [] then [[]]
    else
      var rest := Split(s[1..], sep);
      if s[0] == sep then [[]] + rest else [[s[0]] + rest[0]] + rest[1..]
  }

  function Join(parts: seq<bytes>, sep: byte): bytes
    requires |parts| >= 1
  {
    if |parts| == 1 then parts[0] else parts[0] + [sep] + Join(parts[1..], sep)
  }

  lemma JoinHead(parts: seq<bytes>, sep: byte)
    requires |parts| >= 1
    ensures |parts[0]| <= |Join(parts, sep)| && Join(parts, sep)[..|parts[0]|] == parts[0]
    ensures |parts| > 1 ==>
              && |parts[0]| + 1 <= |Join(parts, sep)|
              && Join(parts, sep)[|parts[0]| + 1..] == Join(parts[1..], sep)
  {
  }

  lemma {:induction false} JoinSnoc(parts: seq<bytes>, part: bytes, sep: byte)
    requires |parts| >= 1
    ensures Join(parts + [part], sep) == Join(parts, sep) + [sep] + part
  {
    assert (parts + [part])[1..] == parts[1..] + [part];
    if |parts| == 1 {
      assert parts[1..] + [part] == [part];
    } else {
      JoinSnoc(parts[1..], part, sep);
    }
  }

  /** `strings.SplitN(s, sep, 2)`: up to the first separator, and what follows it if there is one. */
  function Cut(s: bytes, sep: byte): (r: (bytes, Option<bytes>))
    ensures r.1.None? ==> r.0 == s && Free(s, sep)
    ensures r.1.Some? ==> s == r.0 + [sep] + r.1.value && Free(r.0, sep)
  {
    if s == [] then ([], None)
    else if s[0] == sep then ([], Some(s[1..]))
    else
      var rest := Cut(s[1..], sep);
      ([s[0]] + rest.0, rest.1)
  }

  lemma {:induction false} CutAt(before: bytes, after: bytes, sep: byte)
    requires Free(before, sep)
    ensures Cut(before + [sep] + after, sep) == (before, Some(after))
  {
    var s := before + [sep] + after;
    if before == [] {
      assert s[1..] == after;
    } else {
      assert s[1..] == before[1..] + [sep] + after;
      CutAt(before[1..], after, sep);
      assert [before[0]] + before[1..] == before;
    }
  }

  /** Where the joined parts stand from `at` on in `s`, the first part is a window of `s`. */
  lemma JoinWindow(s: bytes, at: nat, parts: seq<bytes>, sep: byte)
    requires |parts| >= 1 && at <= |s| && s[at..] == Join(parts, sep)
    ensures at + |parts[0]| <= |s| && s[at..at + |parts[0]|] == parts[0]
    ensures |parts| > 1 ==> at + |parts[0]| + 1 <= |s| && s[at + |parts[0]| + 1..] == Join(parts[1..], sep)
  {
    var n := |parts[0]|;
    JoinHead(parts, sep);
    assert s[at..][..n] == s[at..at + n];
    if |parts| > 1 {
      assert s[at..][n + 1..] == s[at + n + 1..];
    }
  }

  predicate Free(s: bytes, sep: byte) {
    sep !in s
  }

  predicate AllFree(parts: seq<bytes>, sep: byte) {
    forall i :: 0 <= i < |parts| ==> Free(parts[i], sep)
  }

  /** `Join` undoes `Split`, and no part holds the separator. */
  lemma {:induction false} SplitJoin(s: bytes, sep: byte)
    ensures Join(Split(s, sep), sep) == s
    ensures AllFree(Split(s, sep), sep)
  {
    if s != [] {
      SplitJoin(s[1..], sep);
      SplitStep(s, sep);
      hide Split;
      var rest := Split(s[1..], sep);
      if s[0] == sep {
        assert ([[]] + rest)[1..] == rest;
        assert [sep] + s[1..] == s;
      } else {
        assert ([[s[0]] + rest[0]] + rest[1..])[1..] == rest[1..];
        assert [s[0]] + s[1..] == s;
        assert Free(rest[0], sep);
      }
    }
  }

  /** `Split` undoes `Join` on separator-free parts: the split is the only one. */
  lemma {:induction false} JoinSplit(parts: seq<bytes>, sep: byte)
    requires |parts| >= 1 && AllFree(parts, sep)
    ensures Split(Join(parts, sep), sep) == parts
  {
    hide Split;
    SplitFree(parts[0], sep);
    if |parts| > 1 {
      assert AllFree(parts[1..], sep);
      JoinSplit(parts[1..], sep);
      SplitAfter(parts[0], Join(parts[1..], sep), sep);
      assert parts == [parts[0]] + parts[1..];
    }
  }

  lemma SplitAfter(part: bytes, rest: bytes, sep: byte)
    requires Free(part, sep)
    ensures Split(part + [sep] + rest, sep) == [part] + Split(rest, sep)
  {
    SplitLeading(rest, sep);
    hide Split;
    SplitFree(part, sep);
    SplitConcat(part, [sep] + rest, sep);
    assert part + [sep] + rest == part + ([sep] + rest);
    assert part + [] == part;
  }

  lemma SplitLeading(s: bytes, sep: byte)
    ensures Split([sep] + s, sep) == [[]] + Split(s, sep)
  {
    assert ([sep] + s)[1..] == s;
  }

  lemma {:induction false} SplitFree(s: bytes, sep: byte)
    requires Free(s, sep)
    ensures Split(s, sep) == [s]
  {
    if s != [] {
      SplitFree(s[1..], sep);
      assert [s[0]] + s[1..] == s;
    }
  }

  lemma SplitStep(s: bytes, sep: byte)
    requires s != []
    ensures var rest := Split(s[1..], sep);
            Split(s, sep) == if s[0] == sep then [[]] + rest else [[s[0]] + rest[0]] + rest[1..]
  {
  }

  /** Prefixing the first part commutes with gluing two lists of parts. */
  lemma GlueHead(x: byte, sa: seq<bytes>, sb: seq<bytes>)
    requires |sa| >= 1 && |sb| >= 1
    ensures var glued := sa[..|sa| - 1] + [sa[|sa| - 1] + sb[0]] + sb[1..];
            var sa' := [[x] + sa[0]] + sa[1..];
            [[x] + glued[0]] + glued[1..] == sa'[..|sa'| - 1] + [sa'[|sa'| - 1] + sb[0]] + sb[1..]
  {
    if |sa| == 1 {
      assert [x] + (sa[0] + sb[0]) == [x] + sa[0] + sb[0];
    }
  }

  lemma GlueEmpty(sa: seq<bytes>, sb: seq<bytes>)
    requires |sa| >= 1 && |sb| >= 1
    ensures var glued := sa[..|sa| - 1] + [sa[|sa| - 1] + sb[0]] + sb[1..];
            var sa' := [[]] + sa;
            [[]] + glued == sa'[..|sa'| - 1] + [sa'[|sa'| - 1] + sb[0]] + sb[1..]
  {
  }

  /** Splitting a concatenation glues the last part of the left to the first part of the right. */
  lemma {:induction false} SplitConcat(a: bytes, b: bytes, sep: byte)
    ensures var sa, sb := Split(a, sep), Split(b, sep);
            Split(a + b, sep) == sa[..|sa| - 1] + [sa[|sa| - 1] + sb[0]] + sb[1..]
  {
    hide Split;
    if a == [] {
      SplitFree(a, sep);
      assert a + b == b;
      var sb := Split(b, sep);
      assert [] + sb[0] == sb[0];
      assert sb == [sb[0]] + sb[1..];
    } else {
      SplitStep(a, sep);
      SplitStep(a + b, sep);
      assert (a + b)[1..] == a[1..] + b;
      SplitConcat(a[1..], b, sep);
      var rest, sb := Split(a[1..], sep), Split(b, sep);
      if a[0] == sep {
        GlueEmpty(rest, sb);
      } else {
        GlueHead(a[0], rest, sb);
      }
    }
  }

  /** The lines of `s` that are ended by a newline, without it. */
  function CompleteLines(s: bytes): seq<bytes> {
    var parts := Split(s, LF);
    parts[..|parts| - 1]
  }

  /** What follows the last newline of `s`. */
  function Fragment(s: bytes): bytes {
    var parts := Split(s, LF);
    parts[|parts| - 1]
  }

  function Unlines(lines: seq<bytes>): bytes {
    if lines == [] then [] else lines[0] + [LF] + Unlines(lines[1..])
  }

  function Newlines(s: bytes): nat {
    if s == [] then 0 else (if s[0] == LF then 1 else 0) + Newlines(s[1..])
  }

  /** The pieces of `s`: newline-free, all but the last ended by a newline. */
  ghost predicate CutsInto(s: bytes, lines: seq<bytes>, fragment: bytes) {
    s == Unlines(lines) + fragment && AllFree(lines, LF) && Free(fragment, LF)
  }

  /** Complete lines and fragment are characterised without `Split`: they are the one way
      to cut `s` into newline-free pieces, all but the last ended by a newline. */
  lemma LinesUnique(s: bytes, lines: seq<bytes>, fragment: bytes)
    ensures CutsInto(s, lines, fragment) <==> lines == CompleteLines(s) && fragment == Fragment(s)
  {
    if CutsInto(s, lines, fragment) {
      UnlinesJoin(lines, fragment);
      JoinSplit(lines + [fragment], LF);
    }
    if lines == CompleteLines(s) && fragment == Fragment(s) {
      LinesCut(s);
    }
  }

  lemma LinesCut(s: bytes)
    ensures CutsInto(s, CompleteLines(s), Fragment(s))
  {
    SplitJoin(s, LF);
    assert Split(s, LF) == CompleteLines(s) + [Fragment(s)];
    UnlinesJoin(CompleteLines(s), Fragment(s));
  }

  lemma {:induction false} UnlinesJoin(lines: seq<bytes>, fragment: bytes)
    ensures Unlines(lines) + fragment == Join(lines + [fragment], LF)
  {
    if lines != [] {
      UnlinesJoin(lines[1..], fragment);
      assert (lines + [fragment])[1..] == lines[1..] + [fragment];
    } else {
      assert lines + [fragment] == [fragment];
    }
  }

  lemma {:induction false} CountLines(s: bytes)
    ensures |CompleteLines(s)| == Newlines(s)
  {
    if s != [] {
      CountLines(s[1..]);
    }
  }

  /** Reading on from a fragment gives the same lines as reading the whole stream. */
  lemma ResumeLines(a: bytes, b: bytes)
    ensures CompleteLines(a + b) == CompleteLines(a) + CompleteLines(Fragment(a) + b)
    ensures Fragment(a + b) == Fragment(Fragment(a) + b)
  {
    hide Split;
    SplitJoin(a, LF);
    SplitConcat(a, b, LF);
    SplitFree(Fragment(a), LF);
    SplitConcat(Fragment(a), b, LF);
  }

  lemma FreeIsOnePart(s: bytes, sep: byte)
    ensures |Split(s, sep)| == 1 <==> Free(s, sep)
  {
    SplitJoin(s, sep);
    if Free(s, sep) {
      SplitFree(s, sep);
    }
  }

  /** A fragment kept across a rewind does no harm exactly when it is empty or no newline follows. */
  lemma StaleFragment(kept: bytes, next: bytes)
    requires Free(kept, LF)
    ensures CompleteLines(kept + next) == CompleteLines(next) <==> kept == [] || Free(next, LF)
    ensures !Free(next, LF) ==>
              && |CompleteLines(kept + next)| == |CompleteLines(next)| > 0
              && CompleteLines(kept + next)[0] == kept + CompleteLines(next)[0]
  {
    hide Split;
    SplitFree(kept, LF);
    SplitConcat(kept, next, LF);
    var parts := Split(next, LF);
    SplitJoin(next, LF);
    if Free(next, LF) {
      SplitFree(next, LF);
    } else {
      FreeIsOnePart(next, LF);
      if kept != [] {
        assert |(kept + parts[0])| > |parts[0]|;
        assert CompleteLines(kept + next)[0] != CompleteLines(next)[0];
      } else {
        assert kept + next == next;
      }
    }
  }

  // ---- the incremental splitter -------------------------------------------

  /** `bytes.LastIndex(s, []byte{b})`. */
  function LastIndex(s: bytes, b: byte): (i: int)
    ensures -1 <= i < |s|
    ensures i >= 0 ==> s[i] == b
    ensures forall j :: i < j < |s| ==> s[j] != b
  {
    if s == [] then -1
    else if s[|s| - 1] == b then |s| - 1
    else LastIndex(s[..|s| - 1], b)
  }

  /** The fragment carried over and the block handed to the record builder, if any. */
  datatype Consumed = Consumed(cont: bytes, block: Option<bytes>)

  /** One iteration of the read loop, after a read of `chunk`. */
  function Consume(cont: bytes, chunk: bytes): Consumed
    requires |chunk| > 0
  {
    var n := |chunk|;
    if chunk[n - 1] == LF then
      Consumed([], Some(cont + chunk[..n - 1]))
    else
      var blockLen := LastIndex(chunk, LF);
      if blockLen == -1 then Consumed(cont + chunk, None)
      else Consumed(chunk[blockLen + 1..], Some(cont + chunk[..blockLen]))
  }

  /** A read hands over a block exactly when it holds a newline. */
  lemma BlockIff(cont: bytes, chunk: bytes)
    requires |chunk| > 0
    ensures Consume(cont, chunk).block.Some? <==> LF in chunk
  {
  }

  function BlockLines(block: Option<bytes>): seq<bytes> {
    match block
    case None => []
    case Some(b) => Split(b, LF)
  }

  /** One iteration emits exactly the lines it completes and keeps exactly the rest. */
  lemma ConsumeLines(cont: bytes, chunk: bytes)
    requires |chunk| > 0 && Free(cont, LF)
    ensures var c := Consume(cont, chunk);
            BlockLines(c.block) == CompleteLines(cont + chunk) && c.cont == Fragment(cont + chunk)
    ensures Free(Consume(cont, chunk).cont, LF)
  {
    var n := |chunk|;
    var cut := if chunk[n - 1] == LF then n - 1 else LastIndex(chunk, LF);
    if cut == -1 {
      SplitFree(cont + chunk, LF);
    } else {
      var tail := chunk[cut + 1..];
      assert cont + chunk == cont + chunk[..cut] + [LF] + tail;
      SplitBeforeTail(cont + chunk[..cut], tail);
    }
  }

  lemma SplitBeforeTail(block: bytes, tail: bytes)
    requires Free(tail, LF)
    ensures Split(block + [LF] + tail, LF) == Split(block, LF) + [tail]
  {
    hide Split;
    SplitFree(tail, LF);
    SplitLeading(tail, LF);
    SplitConcat(block, [LF] + tail, LF);
    assert block + [LF] + tail == block + ([LF] + tail);
    var parts := Split(block, LF);
    assert parts[|parts| - 1] + [] == parts[|parts| - 1];
  }

  /** The same over the whole stream read so far, of which only the fragment is kept. */
  lemma ConsumeResumes(read: bytes, chunk: bytes)
    requires |chunk| > 0
    ensures var c := Consume(Fragment(read), chunk);
            && CompleteLines(read + chunk) == CompleteLines(read) + BlockLines(c.block)
            && Fragment(read + chunk) == c.cont
  {
    LinesCut(read);
    ConsumeLines(Fragment(read), chunk);
    ResumeLines(read, chunk);
  }

  datatype Tailed = Tailed(cont: bytes, blocks: seq<bytes>)

  /** The whole read loop over the chunks that the reads return. */
  function TailAll(cont: bytes, chunks: seq<bytes>): Tailed
    requires forall c <- chunks :: |c| > 0
    decreases |chunks|
  {
    if chunks == [] then Tailed(cont, [])
    else
      var c := Consume(cont, chunks[0]);
      var rest := TailAll(c.cont, chunks[1..]);
      Tailed(rest.cont, (if c.block.Some? then [c.block.value] else []) + rest.blocks)
  }

  function BlocksLines(blocks: seq<bytes>): seq<bytes> {
    if blocks == [] then [] else Split(blocks[0], LF) + BlocksLines(blocks[1..])
  }

  lemma {:induction false} BlocksLinesConcat(xs: seq<bytes>, ys: seq<bytes>)
    ensures BlocksLines(xs + ys) == BlocksLines(xs) + BlocksLines(ys)
  {
    hide Split;
    if xs == [] {
      assert xs + ys == ys;
    } else {
      BlocksLinesConcat(xs[1..], ys);
      assert (xs + ys)[1..] == xs[1..] + ys;
    }
  }

  /** For every way of cutting a stream into non-empty reads, the records emitted are the
      complete lines of the stream, one per newline, and the carry is its fragment. */
  lemma {:induction false} ChunkingIndependence(cont: bytes, chunks: seq<bytes>)
    requires Free(cont, LF)
    requires forall c <- chunks :: |c| > 0
    ensures var t, stream := TailAll(cont, chunks), cont + Flatten(chunks);
            && BlocksLines(t.blocks) == CompleteLines(stream)
            && |BlocksLines(t.blocks)| == Newlines(stream)
            && t.cont == Fragment(stream)
            && Free(t.cont, LF)
    decreases |chunks|
  {
    hide Split, CompleteLines, Fragment, Consume, BlocksLines, BlockLines, Newlines;
    CountLines(cont + Flatten(chunks));
    if chunks == [] {
      NoLines(cont);
      assert cont + Flatten(chunks) == cont;
    } else {
      var c, first, rest := Consume(cont, chunks[0]), cont + chunks[0], Flatten(chunks[1..]);
      ConsumeLines(cont, chunks[0]);
      ChunkingIndependence(c.cont, chunks[1..]);
      ResumeLines(first, rest);
      TailAllLines(cont, chunks);
      assert cont + Flatten(chunks) == first + rest;
    }
  }

  lemma NoLines(s: bytes)
    requires Free(s, LF)
    ensures CompleteLines(s) == [] == BlocksLines([]) && Fragment(s) == s
  {
    SplitFree(s, LF);
  }

  lemma TailAllLines(cont: bytes, chunks: seq<bytes>)
    requires chunks != [] && forall c <- chunks :: |c| > 0
    ensures var c := Consume(cont, chunks[0]);
            BlocksLines(TailAll(cont, chunks).blocks)
              == BlockLines(c.block) + BlocksLines(TailAll(c.cont, chunks[1..]).blocks)
  {
    var c := Consume(cont, chunks[0]);
    var rest := TailAll(c.cont, chunks[1..]);
    if c.block.Some? {
      assert ([c.block.value] + rest.blocks)[1..] == rest.blocks;
    } else {
      assert [] + rest.blocks == rest.blocks;
    }
  }

  /** Two ways of cutting one stream give the same records and the same carry. */
  lemma SameStreamSameRecords(xs: seq<bytes>, ys: seq<bytes>)
    requires (forall c <- xs :: |c| > 0) && (forall c <- ys :: |c| > 0)
    requires Flatten(xs) == Flatten(ys)
    ensures BlocksLines(TailAll([], xs).blocks) == BlocksLines(TailAll([], ys).blocks)
    ensures TailAll([], xs).cont == TailAll([], ys).cont
  {
    ChunkingIndependence([], xs);
    ChunkingIndependence([], ys);
  }
}
