/** Types and sequence facts shared by every module of the model.
    Go strings and byte slices are both sequences of bytes here. */
module Prelude {

  type byte = b: int | 0 <= b < 256
  type bytes = seq<byte>

  datatype Option<+T> = None | Some(value: T)

  datatype Result<+T> = Ok(value: T) | Err(error: string)

  const LF: byte := 10
  const CR: byte := 13
  const TAB: byte := 9
  const COLON: byte := 58
  const BACKSLASH: byte := 92

  const BILLION: int := 1_000_000_000
  const TWO32: int := 0x1_0000_0000
  const TWO63: int := 0x8000_0000_0000_0000
  const TWO64: int := 0x1_0000_0000_0000_0000

  type int64 = i: int | -TWO63 <= i < TWO63
  type nanos = n: int | 0 <= n < BILLION

  /** An instant: whole seconds since the epoch and the nanoseconds after them. */
  datatype Time = Time(sec: int64, nsec: nanos)

  /** Two's-complement wrap-around of an `int64` result. */
  function Wrap64(i: int): int64 {
    (i + TWO63) % TWO64 - TWO63
  }

  /** `time.Unix(sec, nsec)`: nanoseconds outside [0, 10^9) are carried into the seconds. */
  function Unix(sec: int64, nsec: int): Time {
    Time(Wrap64(sec + nsec / BILLION), nsec % BILLION)
  }

  lemma UnixPlain(sec: int64, nsec: nanos)
    ensures Unix(sec, nsec) == Time(sec, nsec)
  {
  }

  /** Quotient and remainder are the only ones. */
  lemma DivModUnique(v: nat, m: nat, q: nat, r: nat)
    requires m > 0 && r < m && v == m * q + r
    ensures v / m == q && v % m == r
  {
    var k := v / m - q;
    assert m * (v / m) == m * q + m * k;
    Multiple(m, k);
  }

  lemma Multiple(m: int, k: int)
    requires m >= 0
    ensures (k >= 1 ==> m * k >= m) && (k <= -1 ==> m * k <= -m)
  {
  }

  function Last<T>(xs: seq<T>): T
    requires xs != []
  {
    xs[|xs| - 1]
  }

  function Front<T>(xs: seq<T>): seq<T>
    requires xs != []
  {
    xs[..|xs| - 1]
  }

  function Flatten<T>(xs: seq<seq<T>>): seq<T> {
    if xs == [] then [] else xs[0] + Flatten(xs[1..])
  }

  lemma {:induction false} FlattenConcat<T>(xs: seq<seq<T>>, ys: seq<seq<T>>)
    ensures Flatten(xs + ys) == Flatten(xs) + Flatten(ys)
  {
    if xs == [] {
      assert xs + ys == ys;
    } else {
      assert (xs + ys)[1..] == xs[1..] + ys;
      FlattenConcat(xs[1..], ys);
    }
  }

  lemma FlattenSnoc<T>(xs: seq<seq<T>>, x: seq<T>)
    ensures Flatten(xs + [x]) == Flatten(xs) + x
  {
    FlattenConcat(xs, [x]);
    assert Flatten([x]) == x + Flatten([x][1..]);
  }
}
