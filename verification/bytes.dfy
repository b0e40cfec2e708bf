/** Byte sequences and the two slicing idioms the header reader relies on. */
module Bytes {

  /** One octet: an element of a Python `bytes` object. */
  type byte = b: int | 0 <= b < 256

  /** Python's `s[::-1]`, defined by peeling the first element. */
  function Reverse<T>(s: seq<T>): (r: seq<T>)
    ensures |r| == |s|
    ensures forall i :: 0 <= i < |s| ==> r[i] == s[|s| - 1 - i]
  {
    if |s| == 0 then [] else Reverse(s[1..]) + [s[0]]
  }

  /** Reversing twice gives back the original sequence. */
  lemma ReverseReverse<T>(s: seq<T>)
    ensures Reverse(Reverse(s)) == s
  {
    var r := Reverse(Reverse(s));
    assert |r| == |s|;
    forall i | 0 <= i < |s|
      ensures r[i] == s[i]
    {
      assert r[i] == Reverse(s)[|s| - 1 - i];
    }
  }

  /** Python's prefix slice `s[:n]` for a non-negative `n`: it never fails,
      and yields the whole of `s` when `s` is shorter than `n`. */
  function Take<T>(s: seq<T>, n: nat): (r: seq<T>)
    ensures |r| == if |s| < n then |s| else n
  {
    if |s| < n then s else s[..n]
  }

  /** Python's suffix slice `s[n:]` for a non-negative `n`: empty when `s`
      is shorter than `n`. */
  function Drop<T>(s: seq<T>, n: nat): (r: seq<T>)
    ensures |r| == if |s| < n then 0 else |s| - n
  {
    if |s| < n then [] else s[n..]
  }

  /** Python's slice `s[a:b]` for `0 <= a <= b`: the part of `a..b` that
      lies inside `s`, so it is shorter than `b - a` (possibly empty) when
      `s` ends before `b`. */
  function Slice<T>(s: seq<T>, a: nat, b: nat): (r: seq<T>)
    requires a <= b
    ensures b <= |s| ==> r == s[a..b]
    ensures |r| == if |s| <= a then 0 else if |s| < b then |s| - a else b - a
    ensures a <= |s| < b ==> r == s[a..]
  {
    Take(Drop(s, a), b - a)
  }

  /** Slicing what is left after dropping `n` elements is slicing further
      on in the whole. */
  lemma SliceOfDrop<T>(s: seq<T>, n: nat, a: nat, b: nat)
    requires a <= b
    ensures Slice(Drop(s, n), a, b) == Slice(s, n + a, n + b)
  {
    if |s| >= n {
      assert Drop(s, n) == s[n..];
      assert Drop(s[n..], a) == Drop(s, n + a);
    }
  }

  /** The prefix and suffix slices at the same point split `s` in two. */
  lemma TakeDrop<T>(s: seq<T>, n: nat)
    ensures Take(s, n) + Drop(s, n) == s
  {
    if |s| >= n {
      assert s[..n] + s[n..] == s;
    }
  }

  /** The concatenation of a sequence of sequences. */
  function Flatten<T>(ss: seq<seq<T>>): seq<T>
  {
    if |ss| == 0 then [] else ss[0] + Flatten(ss[1..])
  }

  /** A slice of a slice is a slice of the whole. */
  lemma SliceOfSlice<T>(s: seq<T>, a: nat, b: nat, i: nat, j: nat)
    requires a <= b <= |s| && i <= j <= b - a
    ensures s[a..b][i..j] == s[a + i .. a + j]
  {
    var u, v := s[a..b][i..j], s[a + i .. a + j];
    assert |u| == |v|;
    forall k | 0 <= k < |u|
      ensures u[k] == v[k]
    {
    }
  }

  /** The four pieces of a concatenation of four equally long pieces. */
  lemma FourPieces<T>(w: seq<T>, p: seq<T>, q: seq<T>, r: seq<T>, t: seq<T>, n: nat)
    requires |p| == |q| == |r| == |t| == n
    requires w == p + q + r + t
    ensures w[0..n] == p && w[n..2 * n] == q && w[2 * n..3 * n] == r && w[3 * n..4 * n] == t
  {
  }

  /** A slice lying wholly after a prefix is a slice of what follows it. */
  lemma SliceAfterPrefix<T>(p: seq<T>, t: seq<T>, i: nat, j: nat)
    requires |p| <= i <= j <= |p| + |t|
    ensures (p + t)[i..j] == t[i - |p| .. j - |p|]
  {
  }
}
