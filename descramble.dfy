/** The two chunk-reversal descramblers of `fetch_puzzle_data` (download_crossword.py):
    the reversal pass inside `load_rawc` and `amuse_b64`. Both walk a character
    buffer from the left, reverse a chunk whose length is the next key entry
    (taken cyclically, capped by what is left), and stop when at most one
    character remains. `ChunkReversed` is the specification both are proved against. */
module Descramble {
  import opened Wrappers
  import opened Sequences

  /** A descramble key: the chunk lengths, used cyclically. */
  type Key = seq<nat>

  predicate HasPositive(key: Key)
  {
    exists i :: 0 <= i < |key| && key[i] > 0
  }

  /** A chunk of length 0 leaves the cursor where it is and moves on to the next
      key entry, so the loops only run forever on a non-empty key that is all
      zeros, applied to at least two characters. */
  predicate Stalls(n: int, key: Key)
  {
    n >= 2 && |key| > 0 && !HasPositive(key)
  }

  /** The key index after `g`, wrapping at `k`. */
  function NextIndex(g: nat, k: nat): nat
    requires g < k
  {
    if g + 1 == k then 0 else g + 1
  }

  ghost function FirstPositive(key: Key): (p: nat)
    requires HasPositive(key)
    ensures p < |key| && key[p] > 0
  {
    if key[0] > 0 then 0
    else
      assert HasPositive(key[1..]) by {
        var i :| 0 <= i < |key| && key[i] > 0;
        assert key[1..][i - 1] == key[i];
      }
      1 + FirstPositive(key[1..])
  }

  /** How many key steps lie between index `g` and the first positive entry,
      going round cyclically: an upper bound on the zero-length chunks ahead. */
  ghost function StepsToPositive(key: Key, g: nat): nat
    requires HasPositive(key) && g < |key|
  {
    var p := FirstPositive(key);
    if g <= p then p - g else p + |key| - g
  }

  lemma {:induction false} StepsShrink(key: Key, g: nat)
    requires HasPositive(key) && g < |key|
    ensures key[g] == 0 ==> StepsToPositive(key, NextIndex(g, |key|)) < StepsToPositive(key, g)
  {
  }

  /** The chunk-reversal permutation, started at key index `g`. */
  function ChunkReversedFrom(s: string, key: Key, g: nat): (r: string)
    requires HasPositive(key) && g < |key|
    ensures |r| == |s|
    decreases |s|, StepsToPositive(key, g)
  {
    if |s| <= 1 then s
    else
      var c := Min(key[g], |s|);
      StepsShrink(key, g);
      Reversed(s[..c]) + ChunkReversedFrom(s[c..], key, NextIndex(g, |key|))
  }

  /** The descramblers' result. Fewer than two characters are left alone
      whatever the key; longer input needs a key with a positive entry. */
  function ChunkReversed(s: string, key: Key): (r: string)
    requires |s| <= 1 || HasPositive(key)
  {
    if |s| <= 1 then s else ChunkReversedFrom(s, key, 0)
  }

  /** Where output position `i` of the chunk reversal of any string of length
      `n` takes its character from. It depends on `n` and the key only. */
  function SourcePosition(n: nat, key: Key, g: nat, i: nat): (j: nat)
    requires HasPositive(key) && g < |key| && i < n
    ensures j < n
    decreases n, StepsToPositive(key, g)
  {
    if n <= 1 then i
    else
      var c := Min(key[g], n);
      StepsShrink(key, g);
      if i < c then c - 1 - i else c + SourcePosition(n - c, key, NextIndex(g, |key|), i - c)
  }

  /** The first chunk of the reversal, as the definition unfolds it. */
  lemma {:induction false} ChunkHead(u: string, key: Key, g: nat)
    requires HasPositive(key) && g < |key| && |u| >= 2
    ensures ChunkReversedFrom(u, key, g)
         == Reversed(u[..Min(key[g], |u|)]) + ChunkReversedFrom(u[Min(key[g], |u|)..], key, NextIndex(g, |key|))
  {
  }

  lemma {:induction false} SliceOfSuffix(s: string, b: nat, c: nat)
    requires b + c <= |s|
    ensures s[b..][..c] == s[b..b + c] && s[b..][c..] == s[b + c..]
  {
  }

  /** Output position `i` inside the first chunk, of length `c`, comes from
      position `c - 1 - i`; one beyond it comes from the rest. */
  lemma {:induction false} ChunkIndex(s: string, key: Key, g: nat, i: nat)
    requires HasPositive(key) && g < |key| && |s| >= 2 && i < |s|
    ensures var c := Min(key[g], |s|);
            ChunkReversedFrom(s, key, g)[i]
            == if i < c then s[c - 1 - i] else ChunkReversedFrom(s[c..], key, NextIndex(g, |key|))[i - c]
  {
    ChunkHead(s, key, g);
    var c := Min(key[g], |s|);
    if i < c {
      ReversedAt(s[..c], i);
    }
  }

  lemma {:induction false} SourceIndex(n: nat, key: Key, g: nat, i: nat)
    requires HasPositive(key) && g < |key| && 2 <= n && i < n
    ensures var c := Min(key[g], n);
            SourcePosition(n, key, g, i)
            == if i < c then c - 1 - i else c + SourcePosition(n - c, key, NextIndex(g, |key|), i - c)
  {
  }

  lemma {:induction false} ChunkReversedFromAt(s: string, key: Key, g: nat, i: nat)
    requires HasPositive(key) && g < |key| && i < |s|
    ensures ChunkReversedFrom(s, key, g)[i] == s[SourcePosition(|s|, key, g, i)]
    decreases |s|, StepsToPositive(key, g)
  {
    if |s| > 1 {
      var c := Min(key[g], |s|);
      var next := NextIndex(g, |key|);
      ChunkIndex(s, key, g, i);
      SourceIndex(|s|, key, g, i);
      if i >= c {
        StepsShrink(key, g);
        ChunkReversedFromAt(s[c..], key, next, i - c);
        assert s[c..][SourcePosition(|s| - c, key, next, i - c)] == s[c + SourcePosition(|s| - c, key, next, i - c)];
      }
    }
  }

  /** The chunk boundaries depend only on the length and the key: every output
      character is the input character at a position computed from those two. */
  lemma {:induction false} ChunkReversedAt(s: string, key: Key, i: nat)
    requires HasPositive(key) && i < |s|
    ensures |ChunkReversed(s, key)| == |s|
    ensures ChunkReversed(s, key)[i] == s[SourcePosition(|s|, key, 0, i)]
  {
    ChunkReversedFromAt(s, key, 0, i);
  }

  lemma {:induction false} ChunkReversedFromPermutes(s: string, key: Key, g: nat)
    requires HasPositive(key) && g < |key|
    ensures multiset(ChunkReversedFrom(s, key, g)) == multiset(s)
    decreases |s|, StepsToPositive(key, g)
  {
    if |s| > 1 {
      var c := Min(key[g], |s|);
      StepsShrink(key, g);
      ChunkReversedFromPermutes(s[c..], key, NextIndex(g, |key|));
      ReversedMultiset(s[..c]);
      assert s == s[..c] + s[c..];
    }
  }

  /** The descrambled string has the input's length and the same characters,
      each as often. */
  lemma {:induction false} ChunkReversedPermutes(s: string, key: Key)
    requires |s| <= 1 || HasPositive(key)
    ensures |ChunkReversed(s, key)| == |s|
    ensures multiset(ChunkReversed(s, key)) == multiset(s)
  {
    if |s| > 1 {
      ChunkReversedFromPermutes(s, key, 0);
    }
  }

  lemma {:induction false} ChunkReversedFromInvolutive(s: string, key: Key, g: nat)
    requires HasPositive(key) && g < |key|
    ensures ChunkReversedFrom(ChunkReversedFrom(s, key, g), key, g) == s
    decreases |s|, StepsToPositive(key, g)
  {
    if |s| > 1 {
      var c := Min(key[g], |s|);
      var next := NextIndex(g, |key|);
      StepsShrink(key, g);
      var rev := Reversed(s[..c]);
      var rest := ChunkReversedFrom(s[c..], key, next);
      var t := ChunkReversedFrom(s, key, g);
      assert t == rev + rest;
      ConcatParts(rev, rest);
      calc {
        ChunkReversedFrom(t, key, g);
        Reversed(t[..c]) + ChunkReversedFrom(t[c..], key, next);
        Reversed(rev) + ChunkReversedFrom(rest, key, next);
        { ReversedTwice(s[..c]); ChunkReversedFromInvolutive(s[c..], key, next); }
        s[..c] + s[c..];
        { assert s == s[..c] + s[c..]; }
        s;
      }
    }
  }

  lemma {:induction false} ConcatParts(x: string, y: string)
    ensures (x + y)[..|x|] == x && (x + y)[|x|..] == y
  {
  }

  /** Descrambling twice with the same key gives the input back. */
  lemma {:induction false} ChunkReversedInvolutive(s: string, key: Key)
    requires |s| <= 1 || HasPositive(key)
    ensures ChunkReversed(ChunkReversed(s, key), key) == s
  {
    if |s| > 1 {
      ChunkReversedFromInvolutive(s, key, 0);
    }
  }

  lemma {:induction false} MulAtLeast(d: int, k: int)
    requires d >= 1 && k > 0
    ensures d * k >= k
  {
    if d > 1 {
      MulAtLeast(d - 1, k);
      assert d * k == (d - 1) * k + k;
    }
  }

  lemma ModUnique(n: int, k: int, q: int, r: int)
    requires k > 0 && 0 <= r < k && n == q * k + r
    ensures n % k == r
  {
    var q', r' := n / k, n % k;
    assert n == q' * k + r';
    assert (q - q') * k == r' - r by {
      assert (q - q') * k == q * k - q' * k;
    }
    if q > q' {
      MulAtLeast(q - q', k);
    } else if q < q' {
      MulAtLeast(q' - q, k);
    }
  }

  /** `(G + 1) % k` read through `%` is the wrapped successor of `G % k`. */
  lemma ModNext(g: nat, k: nat)
    requires k > 0
    ensures g % k < k
    ensures (g + 1) % k == NextIndex(g % k, k)
  {
    var q, r := g / k, g % k;
    assert g == q * k + r;
    if r + 1 < k {
      ModUnique(g + 1, k, q, r + 1);
    } else {
      assert g + 1 == (q + 1) * k;
      ModUnique(g + 1, k, q + 1, 0);
    }
  }

  /** Both descramblers' loop, stated on the whole buffer: at cursor `b` with key
      index `g`, reverse the next chunk in place and carry on, until at most one
      character is left. */
  ghost function Pass(buf: string, key: Key, b: nat, g: nat): (r: string)
    requires HasPositive(key) && g < |key| && b <= |buf|
    ensures |r| == |buf|
    decreases |buf| - b, StepsToPositive(key, g)
  {
    if b + 1 >= |buf| then buf
    else
      var c := Min(key[g], |buf| - b);
      StepsShrink(key, g);
      Pass(ReversedSpan(buf, b, b + c), key, b + c, NextIndex(g, |key|))
  }

  /** One iteration of either loop: reversing the chunk at the cursor and moving
      on leaves the rest of the pass unchanged. */
  lemma {:induction false} PassStep(before: string, key: Key, b: nat, g: nat, c: nat)
    requires HasPositive(key) && g < |key| && b + 1 < |before| && c == Min(key[g], |before| - b)
    ensures Pass(ReversedSpan(before, b, b + c), key, b + c, NextIndex(g, |key|)) == Pass(before, key, b, g)
  {
  }

  /** Reversing chunks in place from cursor `b` keeps the prefix before `b` and
      applies the chunk reversal to the rest. */
  lemma {:induction false} PassSplits(buf: string, key: Key, b: nat, g: nat)
    requires HasPositive(key) && g < |key| && b <= |buf|
    ensures Pass(buf, key, b, g) == buf[..b] + ChunkReversedFrom(buf[b..], key, g)
    decreases |buf| - b, StepsToPositive(key, g)
  {
    if b + 1 >= |buf| {
      assert buf == buf[..b] + buf[b..];
    } else {
      var c := Min(key[g], |buf| - b);
      var next := NextIndex(g, |key|);
      StepsShrink(key, g);
      var after := ReversedSpan(buf, b, b + c);
      PassStep(buf, key, b, g, c);
      PassSplits(after, key, b + c, next);
      SpanThenRest(buf, key, b, c, next);
      ChunkJoin(buf, key, g, b);
    }
  }

  /** The buffer after reversing `[b, b + c)`, split at `b + c`. */
  lemma {:induction false} SpanThenRest(buf: string, key: Key, b: nat, c: nat, next: nat)
    requires HasPositive(key) && next < |key| && b + c <= |buf|
    ensures var after := ReversedSpan(buf, b, b + c);
            after[..b + c] + ChunkReversedFrom(after[b + c..], key, next)
            == buf[..b] + Reversed(buf[b..b + c]) + ChunkReversedFrom(buf[b + c..], key, next)
  {
    SpanAfterChunk(buf, b, c);
  }

  /** The prefix, the reversed first chunk of the suffix and the reversal of
      what follows make up the prefix and the reversal of the suffix. */
  lemma {:induction false} ChunkJoin(buf: string, key: Key, g: nat, b: nat)
    requires HasPositive(key) && g < |key| && b + 2 <= |buf|
    ensures var c := Min(key[g], |buf| - b);
            buf[..b] + Reversed(buf[b..b + c]) + ChunkReversedFrom(buf[b + c..], key, NextIndex(g, |key|))
            == buf[..b] + ChunkReversedFrom(buf[b..], key, g)
  {
    var c := Min(key[g], |buf| - b);
    var u := buf[b..];
    ChunkHead(u, key, g);
    SliceOfSuffix(buf, b, c);
    assert buf[..b] + Reversed(buf[b..b + c]) + ChunkReversedFrom(buf[b + c..], key, NextIndex(g, |key|))
        == buf[..b] + (Reversed(u[..c]) + ChunkReversedFrom(u[c..], key, NextIndex(g, |key|)));
  }

  /** Reversing the window `[b, b + c)` changes nothing outside it. */
  lemma {:induction false} SpanAfterChunk(buf: string, b: nat, c: nat)
    requires b + c <= |buf|
    ensures ReversedSpan(buf, b, b + c)[..b + c] == buf[..b] + Reversed(buf[b..b + c])
    ensures ReversedSpan(buf, b, b + c)[b + c..] == buf[b + c..]
  {
    ReversedSpanParts(buf, b, b + c);
  }

  /** The whole in-place pass is the chunk reversal. */
  lemma {:induction false} PassIsChunkReversal(s: string, key: Key)
    requires |s| >= 2 && HasPositive(key)
    ensures Pass(s, key, 0, 0) == ChunkReversed(s, key)
  {
    PassSplits(s, key, 0, 0);
    assert s[0..] == s;
  }

  /** `(G + 1) % len(E)` for an index already below `len(E)`. */
  lemma ModWrap(g: nat, k: nat)
    requires g < k
    ensures (g + 1) % k == NextIndex(g, k)
  {
    if g + 1 < k {
      ModUnique(g + 1, k, 0, g + 1);
    } else {
      ModUnique(g + 1, k, 1, 0);
    }
  }

  /** The swap loop of `load_rawc`: `for D in range(C // 2)` exchanges
      `A[B + D]` and `A[B + C - D - 1]`, reversing `A[B..B + C]` in place. */
  method SwapChunk(a: array<char>, b: nat, c: nat)
    requires b + c <= a.Length
    modifies a
    ensures a[..] == ReversedSpan(old(a[..]), b, b + c)
  {
    for d := 0 to c / 2
      invariant forall k :: 0 <= k < a.Length ==>
        a[k] == if b <= k < b + d || b + c - d <= k < b + c then old(a[2 * b + c - 1 - k]) else old(a[k])
    {
      a[b + d], a[b + c - d - 1] := a[b + c - d - 1], a[b + d];
    }
  }

  /** The two-pointer loop of `amuse_b64`: `C` runs up from `lo`, `D` down from
      `hi - 1`, swapping `e[C]` and `e[D]` while `C < D`. */
  method ReverseWindow(e: array<char>, lo: nat, hi: nat)
    requires lo <= hi <= e.Length
    modifies e
    ensures e[..] == ReversedSpan(old(e[..]), lo, hi)
  {
    var c: int, d: int := lo, hi - 1;
    while c < d
      invariant lo <= c <= d + 1 && c + d == lo + hi - 1
      invariant forall k :: 0 <= k < e.Length ==>
        e[k] == if lo <= k < c || d < k < hi then old(e[lo + hi - 1 - k]) else old(e[k])
    {
      var m := e[d];
      e[d] := e[c];
      e[c] := m;
      d := d - 1;
      c := c + 1;
    }
  }

  /** The reversal pass of `load_rawc` over `A = list(E[0])` with chunk lengths
      `F`. With fewer than two characters the loop body never runs; otherwise
      an empty `F` makes the first `G % len(F)` raise ZeroDivisionError (None
      here). */
  method ReversalPass(s: string, f: Key) returns (r: Option<string>)
    requires !Stalls(|s|, f)
    ensures r == if |s| >= 2 && |f| == 0 then None else Some(ChunkReversed(s, f))
  {
    var a := new char[|s|](i requires 0 <= i < |s| => s[i]);
    assert a[..] == s;
    if a.Length <= 1 {
      return Some(a[..]);
    }
    if |f| == 0 {
      return None;
    }
    var b: nat, g: nat := 0, 0;
    ghost var gi: nat := 0;
    ghost var buf := s;
    PassIsChunkReversal(s, f);
    while b < a.Length - 1
      invariant b <= a.Length == |buf| == |s| && a[..] == buf
      invariant HasPositive(f) && gi < |f| && g % |f| == gi
      invariant Pass(buf, f, b, gi) == ChunkReversed(s, f)
      decreases a.Length - b, StepsToPositive(f, gi)
    {
      ModNext(g, |f|);
      var c := Min(f[g % |f|], a.Length - b);
      SwapChunk(a, b, c);
      PassStep(buf, f, b, gi, c);
      StepsShrink(f, gi);
      buf := a[..];
      b, g, gi := b + c, g + 1, NextIndex(gi, |f|);
    }
    r := Some(a[..]);
  }

  /** The first loop of `amuse_b64`: `E` receives the entries of `H` one by one. */
  method CopyKey(h: Key) returns (e: Key)
    ensures e == h
  {
    e := [];
    var f := 0;
    while f < |h|
      invariant 0 <= f <= |h| && e == h[..f]
    {
      var j := h[f];
      e := e + [j];
      f := f + 1;
    }
  }

  /** `amuse_b64(e, amuseKey)`: copies the key entry by entry into `E`, then
      reverses windows of `min(E[G], I - A + 1)` characters. With fewer than
      two characters the loop body never runs; otherwise an empty key makes
      the first `E[G]` raise IndexError (None here). */
  method AmuseB64(s: string, amuseKey: Key) returns (r: Option<string>)
    requires !Stalls(|s|, amuseKey)
    ensures r == if |s| >= 2 && |amuseKey| == 0 then None else Some(ChunkReversed(s, amuseKey))
  {
    var e := new char[|s|](i requires 0 <= i < |s| => s[i]);
    assert e[..] == s;
    var keyCopy := CopyKey(amuseKey);
    var a: nat, g: nat, last := 0, 0, e.Length - 1;
    if last <= 0 {
      return Some(e[..]);
    }
    if |keyCopy| == 0 {
      return None;
    }
    ghost var buf := s;
    PassIsChunkReversal(s, keyCopy);
    while a < last
      invariant a <= e.Length == |buf| == |s| && last == |s| - 1 && e[..] == buf
      invariant HasPositive(keyCopy) && g < |keyCopy|
      invariant Pass(buf, keyCopy, a, g) == ChunkReversed(s, keyCopy)
      decreases e.Length - a, StepsToPositive(keyCopy, g)
    {
      var b := keyCopy[g];
      var l := last - a + 1;
      b := Min(b, l);
      ReverseWindow(e, a, a + b);
      PassStep(buf, keyCopy, a, g, b);
      StepsShrink(keyCopy, g);
      ModWrap(g, |keyCopy|);
      buf := e[..];
      a, g := a + b, (g + 1) % |keyCopy|;
    }
    r := Some(e[..]);
  }
}
