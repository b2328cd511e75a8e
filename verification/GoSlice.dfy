/** Go slices: a window on a shared array, and `append`, which writes in place
    while the capacity lasts and copies to a new array when it does not. */
module GoSlice {

  datatype Slice<T> = Slice(arr: array<T>, off: nat, len: nat, cap: nat) {
    ghost predicate Valid() {
      len <= cap && off + cap <= arr.Length
    }

    ghost function Contents(): seq<T>
      requires Valid()
      reads arr
    {
      arr[off..off + len]
    }

    /** `s[lo:hi]`: a window that keeps the capacity behind it. */
    function Sub(lo: nat, hi: nat): Slice<T>
      requires lo <= hi <= len <= cap
    {
      Slice(arr, off + lo, hi - lo, cap - lo)
    }

    lemma SubContents(lo: nat, hi: nat)
      requires Valid() && lo <= hi <= len
      ensures Sub(lo, hi).Valid() && Sub(lo, hi).Contents() == Contents()[lo..hi] == arr[off + lo..off + hi]
    {
      SliceOfSlice(arr[..], off, off + len, lo, hi);
    }

    /** `s[lo:lo+n]` with its capacity cut to its length, as `bytes.Split` returns every part but the last. */
    function Window(lo: nat, n: nat): Slice<T>
      requires lo + n <= len
    {
      Slice(arr, off + lo, n, n)
    }

    lemma WindowContents(lo: nat, n: nat)
      requires Valid() && lo + n <= len
      ensures Window(lo, n).Valid() && Window(lo, n).Contents() == Contents()[lo..lo + n]
    {
      SliceOfSlice(arr[..], off, off + len, lo, lo + n);
    }
  }

  lemma SliceOfSlice<T>(s: seq<T>, from: nat, to: nat, lo: nat, hi: nat)
    requires from <= to <= |s| && lo <= hi <= to - from
    ensures s[from..to][lo..hi] == s[from + lo..from + hi]
  {
    var inner, direct := s[from..to][lo..hi], s[from + lo..from + hi];
    assert |inner| == |direct|;
    forall i | 0 <= i < |inner|
      ensures inner[i] == direct[i]
    {
      assert inner[i] == s[from..to][lo + i] == s[from + lo + i];
    }
  }

  /** `make([]T, n)`. */
  method Make<T(0)>(n: nat) returns (s: Slice<T>)
    ensures s.Valid() && fresh(s.arr) && s.off == 0 && s.len == s.cap == s.arr.Length == n
  {
    var arr := new T[n];
    s := Slice(arr, 0, n, n);
  }

  /** `copy(dst, xs)` onto a whole slice of the same length. */
  method Copy<T>(dst: Slice<T>, xs: seq<T>)
    requires dst.Valid() && |xs| == dst.len
    modifies dst.arr
    ensures dst.Contents() == xs
  {
    forall i | 0 <= i < |xs| {
      dst.arr[dst.off + i] := xs[i];
    }
  }

  /** `append(s, xs...)`: the array of `s` is written only when `xs` fits the spare capacity. */
  method Append<T(0)>(s: Slice<T>, xs: seq<T>) returns (r: Slice<T>)
    requires s.Valid()
    modifies s.arr
    ensures r.Valid() && r.Contents() == old(s.Contents()) + xs
    ensures s.len + |xs| <= s.cap ==> r == s.(len := s.len + |xs|)
    ensures s.len + |xs| > s.cap ==> fresh(r.arr)
    ensures s.len + |xs| > s.cap || xs == [] ==> s.arr[..] == old(s.arr[..])
  {
    var n := s.len + |xs|;
    if n <= s.cap {
      var base := s.off + s.len;
      forall i | 0 <= i < |xs| {
        s.arr[base + i] := xs[i];
      }
      r := s.(len := n);
      assert r.Contents() == old(s.Contents()) + xs;
    } else {
      var capacity: nat :| n <= capacity;  // growth is up to the runtime
      var arr := new T[capacity];
      forall i | 0 <= i < s.len {
        arr[i] := s.arr[s.off + i];
      }
      forall i | 0 <= i < |xs| {
        arr[s.len + i] := xs[i];
      }
      r := Slice(arr, 0, n, capacity);
      assert r.Contents() == old(s.Contents()) + xs;
    }
  }
}
