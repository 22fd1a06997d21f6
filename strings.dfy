/** Joining strings, and the slicing facts about concatenations that the
    proofs about joined and reassembled text rely on. */
module Strings {

  /** `sep.join(parts)`: the parts in order, `sep` between neighbours. */
  function Join(sep: string, parts: seq<string>): string
    decreases |parts|
  {
    if |parts| == 0 then []
    else if |parts| == 1 then parts[0]
    else Join(sep, parts[..|parts| - 1]) + sep + parts[|parts| - 1]
  }

  /** Where `parts[i]` begins in `Join(sep, parts)`: after every earlier part
      and one separator per earlier part. */
  function Offset(sep: string, parts: seq<string>, i: nat): nat
    requires i <= |parts|
  {
    if i == 0 then 0 else Offset(sep, parts, i - 1) + |parts[i - 1]| + |sep|
  }

  lemma {:induction false} OffsetPrefix(sep: string, parts: seq<string>, k: nat, i: nat)
    requires i <= k <= |parts|
    ensures Offset(sep, parts[..k], i) == Offset(sep, parts, i)
  {
    if i > 0 {
      OffsetPrefix(sep, parts, k, i - 1);
      assert parts[..k][i - 1] == parts[i - 1];
    }
  }

  /** The joined string is exactly as long as the parts and separators. */
  lemma {:induction false} JoinLength(sep: string, parts: seq<string>)
    requires |parts| > 0
    ensures |Join(sep, parts)| == Offset(sep, parts, |parts| - 1) + |parts[|parts| - 1]|
    decreases |parts|
  {
    var n := |parts|;
    if n > 1 {
      var init := parts[..n - 1];
      JoinLength(sep, init);
      OffsetPrefix(sep, parts, n - 1, n - 2);
    }
  }

  /** Each part sits, unchanged, at its offset in the joined string. */
  lemma {:induction false} JoinPart(sep: string, parts: seq<string>, i: nat)
    requires i < |parts|
    ensures Offset(sep, parts, i) + |parts[i]| <= |Join(sep, parts)|
    ensures Join(sep, parts)[Offset(sep, parts, i)..Offset(sep, parts, i) + |parts[i]|] == parts[i]
    decreases |parts|
  {
    var n := |parts|;
    if n > 1 {
      var init := parts[..n - 1];
      var j := Join(sep, init);
      JoinLength(sep, init);
      OffsetPrefix(sep, parts, n - 1, n - 2);
      assert Join(sep, parts) == j + sep + parts[n - 1];
      if i == n - 1 {
        assert Offset(sep, parts, i) == |j| + |sep|;
        SliceRight(j + sep, parts[n - 1], |j| + |sep|, |j| + |sep| + |parts[i]|);
      } else {
        JoinPart(sep, init, i);
        OffsetPrefix(sep, parts, n - 1, i);
        var o := Offset(sep, parts, i);
        assert init[i] == parts[i];
        SliceLeft(j + sep, parts[n - 1], o, o + |parts[i]|);
        SliceLeft(j, sep, o, o + |parts[i]|);
      }
    } else {
      assert Join(sep, parts) == parts[0] == parts[0][0..|parts[0]|];
    }
  }

  /** Between two neighbouring parts there is exactly one separator. */
  lemma {:induction false} JoinSeparator(sep: string, parts: seq<string>, i: nat)
    requires i + 1 < |parts|
    ensures Offset(sep, parts, i + 1) <= |Join(sep, parts)|
    ensures Join(sep, parts)[Offset(sep, parts, i) + |parts[i]|..Offset(sep, parts, i + 1)] == sep
    decreases |parts|
  {
    var n := |parts|;
    var init := parts[..n - 1];
    var j := Join(sep, init);
    JoinLength(sep, init);
    JoinPart(sep, parts, i + 1);
    assert Join(sep, parts) == j + sep + parts[n - 1];
    if i + 1 == n - 1 {
      OffsetPrefix(sep, parts, n - 1, n - 2);
      var a := Offset(sep, parts, i) + |parts[i]|;
      assert a == |j| && Offset(sep, parts, i + 1) == |j| + |sep|;
      SliceLeft(j + sep, parts[n - 1], |j|, |j| + |sep|);
      SliceRight(j, sep, |j|, |j| + |sep|);
      assert (j + sep)[a..a + |sep|] == sep;
    } else {
      JoinSeparator(sep, init, i);
      OffsetPrefix(sep, parts, n - 1, i);
      OffsetPrefix(sep, parts, n - 1, i + 1);
      assert init[i] == parts[i];
      var a, b := Offset(sep, parts, i) + |parts[i]|, Offset(sep, parts, i + 1);
      assert j[a..b] == sep;
      SliceLeft(j + sep, parts[n - 1], a, b);
      SliceLeft(j, sep, a, b);
      assert (j + sep)[a..b] == sep;
    }
  }

  /** A slice that lies within the left operand of a concatenation. */
  lemma SliceLeft(x: string, y: string, a: nat, b: nat)
    requires a <= b <= |x|
    ensures (x + y)[a..b] == x[a..b]
  {
  }

  /** A slice that lies within the right operand of a concatenation. */
  lemma SliceRight(x: string, y: string, a: nat, b: nat)
    requires |x| <= a <= b <= |x| + |y|
    ensures (x + y)[a..b] == y[a - |x|..b - |x|]
  {
  }

  /** Dropping a prefix of a slice is a later slice. */
  lemma SliceOfSlice(s: string, a: nat, b: nat, k: nat)
    requires a <= k <= b <= |s|
    ensures s[a..b][k - a..] == s[k..b]
  {
  }

  /** A prefix followed by the slice that continues it is a longer prefix. */
  lemma PrefixThenSlice(s: string, a: nat, b: nat)
    requires a <= b <= |s|
    ensures s[..a] + s[a..b] == s[..b]
  {
  }
}
