/** Sequence helpers shared by the descramblers and the grid conversion:
    Python's `s[::-1]` and `min`. */
module Sequences {

  function Min(a: int, b: int): int
  {
    if a <= b then a else b
  }

  /** `s[::-1]`. */
  function Reversed<T>(s: seq<T>): (r: seq<T>)
    ensures |r| == |s|
  {
    if s == [] then [] else [s[|s| - 1]] + Reversed(s[..|s| - 1])
  }

  /** Position `i` of the reversal holds position `|s| - 1 - i` of `s`. */
  lemma {:induction false} ReversedAt<T>(s: seq<T>, i: nat)
    requires i < |s|
    ensures Reversed(s)[i] == s[|s| - 1 - i]
  {
    if i > 0 {
      ReversedAt(s[..|s| - 1], i - 1);
    }
  }

  lemma {:induction false} ReversedTwice<T>(s: seq<T>)
    ensures Reversed(Reversed(s)) == s
  {
    forall i | 0 <= i < |s| ensures Reversed(Reversed(s))[i] == s[i] {
      ReversedAt(Reversed(s), i);
      ReversedAt(s, |s| - 1 - i);
    }
  }

  lemma {:induction false} ReversedMultiset<T>(s: seq<T>)
    ensures multiset(Reversed(s)) == multiset(s)
  {
    if s != [] {
      ReversedMultiset(s[..|s| - 1]);
      assert s == s[..|s| - 1] + [s[|s| - 1]];
    }
  }

  /** `s` with the window `s[lo..hi]` reversed in place and everything else kept. */
  function ReversedSpan<T>(s: seq<T>, lo: nat, hi: nat): (r: seq<T>)
    requires lo <= hi <= |s|
    ensures |r| == |s|
  {
    seq(|s|, k requires 0 <= k < |s| => if lo <= k < hi then s[lo + hi - 1 - k] else s[k])
  }

  /** Reversing a window splits the sequence into the untouched prefix, the
      reversed window and the untouched suffix. */
  lemma {:induction false} ReversedSpanParts<T>(s: seq<T>, lo: nat, hi: nat)
    requires lo <= hi <= |s|
    ensures ReversedSpan(s, lo, hi) == s[..lo] + Reversed(s[lo..hi]) + s[hi..]
  {
    forall k | 0 <= k < hi - lo ensures Reversed(s[lo..hi])[k] == s[hi - 1 - k] {
      ReversedAt(s[lo..hi], k);
    }
  }
}
