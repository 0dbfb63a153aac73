/** Go's `bytes.Contains`, the substring test main.go applies to its read
    buffer, with the facts about it the rest of the model uses. */
module Bytes {
  import opened Prelude

  /** `t` occurs in `s` starting at index `i`. */
  predicate OccursAt(s: seq<byte>, t: seq<byte>, i: int)
  {
    0 <= i && i + |t| <= |s| && s[i..i + |t|] == t
  }

  /** `bytes.Contains(s, t)`: whether `t` is a contiguous part of `s`; the
      empty `t` is part of every `s`. */
  predicate Contains(s: seq<byte>, t: seq<byte>)
  {
    exists i | 0 <= i <= |s| - |t| :: OccursAt(s, t, i)
  }

  /** The empty `t` is contained in every `s` (at index 0), a prefix of
      `s` is contained in it, and a contained `t` is no longer than `s`. */
  lemma ContainsSpec(s: seq<byte>, t: seq<byte>)
    ensures |t| == 0 ==> Contains(s, t)
    ensures |t| <= |s| && s[..|t|] == t ==> Contains(s, t)
    ensures Contains(s, t) ==> |t| <= |s|
  {
    if |t| <= |s| && s[..|t|] == t {
      assert OccursAt(s, t, 0);
    }
  }

  /** A match inside a prefix is a match of the whole. */
  lemma ContainsInPrefix(p: seq<byte>, rest: seq<byte>, t: seq<byte>)
    requires Contains(p, t)
    ensures Contains(p + rest, t)
  {
    var i :| 0 <= i <= |p| - |t| && OccursAt(p, t, i);
    assert (p + rest)[i..i + |t|] == p[i..i + |t|];
    assert OccursAt(p + rest, t, i);
  }

  /** A `t` with a byte that `s` lacks is not contained in `s`. */
  lemma MissingByteNotContained(s: seq<byte>, t: seq<byte>, j: int)
    requires 0 <= j < |t| && t[j] !in s
    ensures !Contains(s, t)
  {
    forall i | 0 <= i <= |s| - |t| ensures !OccursAt(s, t, i) {
      assert s[i..i + |t|][j] == s[i + j];
      assert s[i + j] in s;
    }
  }
}
