/** Python string helpers used by the report and the dump: `c * n`,
    `sep.join(parts)` and `s.split(c)`. */
module Text {

  /** `[x] * n`, and for characters `c * n`. */
  function Repeat<T>(x: T, n: nat): (r: seq<T>)
    ensures |r| == n
    ensures forall i :: 0 <= i < n ==> r[i] == x
  {
    if n == 0 then [] else [x] + Repeat(x, n - 1)
  }

  /** Python's `" " * n`: a negative count yields the empty string. */
  function Spaces(n: int): (r: string)
    ensures |r| == if n < 0 then 0 else n
    ensures forall i :: 0 <= i < |r| ==> r[i] == ' '
  {
    Repeat(' ', if n < 0 then 0 else n)
  }

  /** `sep.join(parts)`. */
  function Join(parts: seq<string>, sep: string): string
  {
    if |parts| == 0 then ""
    else if |parts| == 1 then parts[0]
    else parts[0] + sep + Join(parts[1..], sep)
  }

  /** `s.split(c)` for a one-character separator: the pieces between the
      occurrences of `c`; the empty string splits into one empty piece. */
  function Split(s: string, c: char): (r: seq<string>)
    ensures |r| >= 1
  {
    if |s| == 0 then [""]
    else
      var rest := Split(s[1..], c);
      if s[0] == c then [""] + rest
      else [[s[0]] + rest[0]] + rest[1..]
  }

  /** A string that does not contain `c` is one piece when split on `c`. */
  lemma {:induction false} SplitNoSeparator(s: string, c: char)
    requires c !in s
    ensures Split(s, c) == [s]
  {
    if |s| > 0 {
      SplitNoSeparator(s[1..], c);
      assert [s[0]] + s[1..] == s;
    }
  }

  /** Splitting `a + [c] + b` on `c`, where `a` has no `c`, yields `a` first. */
  lemma {:induction false} SplitAtFirst(a: string, c: char, b: string)
    requires c !in a
    ensures Split(a + [c] + b, c) == [a] + Split(b, c)
  {
    if |a| == 0 {
      assert a + [c] + b == [c] + b;
      assert ([c] + b)[1..] == b;
    } else {
      SplitAtFirst(a[1..], c, b);
      assert (a + [c] + b)[1..] == a[1..] + [c] + b;
      assert [a[0]] + a[1..] == a;
    }
  }

  /** `split` undoes `join` when no part contains the separator and there is
      at least one part (`"".join([])` and `"".join([""])` coincide). */
  lemma {:induction false} SplitJoin(parts: seq<string>, c: char)
    requires |parts| >= 1
    requires forall i :: 0 <= i < |parts| ==> c !in parts[i]
    ensures Split(Join(parts, [c]), c) == parts
  {
    if |parts| == 1 {
      SplitNoSeparator(parts[0], c);
    } else {
      SplitJoin(parts[1..], c);
      SplitAtFirst(parts[0], c, Join(parts[1..], [c]));
      assert [parts[0]] + parts[1..] == parts;
    }
  }

  /** Joining a joined tail in as the last part is the same as joining the
      parts flat; this is how a multi-line last part reads as several lines. */
  lemma {:induction false} JoinFlatten(a: seq<string>, b: seq<string>, sep: string)
    requires |b| >= 1
    ensures Join(a + [Join(b, sep)], sep) == Join(a + b, sep)
  {
    if |a| == 0 {
      assert a + [Join(b, sep)] == [Join(b, sep)];
      assert a + b == b;
    } else {
      JoinFlatten(a[1..], b, sep);
      assert (a + [Join(b, sep)])[1..] == a[1..] + [Join(b, sep)];
      assert (a + b)[1..] == a[1..] + b;
      if |a| == 1 {
        assert |b| == 1 ==> Join(b, sep) == b[0];
      }
    }
  }

  /** Splitting `head` joined with the joined `tail` gives the lines of
      both, when no line holds the separator. */
  lemma SplitJoinAppend(head: seq<string>, tail: seq<string>, c: char)
    requires |tail| >= 1
    requires forall i :: 0 <= i < |head| ==> c !in head[i]
    requires forall i :: 0 <= i < |tail| ==> c !in tail[i]
    ensures Split(Join(head + [Join(tail, [c])], [c]), c) == head + tail
  {
    JoinFlatten(head, tail, [c]);
    var all := head + tail;
    forall i | 0 <= i < |all|
      ensures c !in all[i]
    {
      if i >= |head| {
        assert all[i] == tail[i - |head|];
      }
    }
    SplitJoin(all, c);
  }
}
