/** The Python string built-ins the core relies on, on `seq<char>`:
    `str.isspace`, `str.strip`, `str.split(sep)`, `str.replace` and
    `str.endswith`, plus the filter that repeated single-character removal
    amounts to. */
module Text {

  /** `c.isspace()`: the characters Python treats as whitespace. */
  predicate IsSpace(c: char)
  {
    var n := c as int;
    (9 <= n <= 13) || (28 <= n <= 32) || n == 0x85 || n == 0xA0 || n == 0x1680
    || (0x2000 <= n <= 0x200A) || n == 0x2028 || n == 0x2029 || n == 0x202F
    || n == 0x205F || n == 0x3000
  }

  /** The number of whitespace characters `s` starts with. */
  function LeadingSpaces(s: string): (n: nat)
    ensures n <= |s|
    ensures forall k :: 0 <= k < n ==> IsSpace(s[k])
    ensures n < |s| ==> !IsSpace(s[n])
  {
    if s != [] && IsSpace(s[0]) then 1 + LeadingSpaces(s[1..]) else 0
  }

  /** Where the trailing whitespace of `s[lo..hi]` begins. */
  function TrailingStart(s: string, lo: nat, hi: nat): (j: nat)
    requires lo <= hi <= |s|
    ensures lo <= j <= hi
    ensures forall k :: j <= k < hi ==> IsSpace(s[k])
    ensures j > lo ==> !IsSpace(s[j - 1])
    decreases hi
  {
    if hi > lo && IsSpace(s[hi - 1]) then TrailingStart(s, lo, hi - 1) else hi
  }

  /** `s.strip()`: the slice `s[i..j]` left after whitespace is removed from
      both ends; it neither starts nor ends with whitespace. */
  function Strip(s: string): (r: string)
    ensures |r| > 0 ==> !IsSpace(r[0]) && !IsSpace(r[|r| - 1])
    ensures exists i, j ::
              && 0 <= i <= j <= |s| && r == s[i..j]
              && (forall k :: 0 <= k < i ==> IsSpace(s[k]))
              && (forall k :: j <= k < |s| ==> IsSpace(s[k]))
  {
    var i := LeadingSpaces(s);
    s[i..TrailingStart(s, i, |s|)]
  }

  /** The index of the first `c` in `s`. */
  function IndexOf(s: string, c: char): (i: nat)
    requires c in s
    ensures i < |s| && s[i] == c && c !in s[..i]
  {
    if s[0] == c then 0 else 1 + IndexOf(s[1..], c)
  }

  /** `s.split(sep)` for a one-character separator. */
  function Split(s: string, sep: char): (parts: seq<string>)
    ensures |parts| >= 1
    ensures forall i :: 0 <= i < |parts| ==> sep !in parts[i]
    decreases |s|
  {
    if sep !in s then [s]
    else
      var i := IndexOf(s, sep);
      [s[..i]] + Split(s[i + 1..], sep)
  }

  /** `sep.join(parts)`. */
  function Join(parts: seq<string>, sep: char): string
    requires |parts| >= 1
  {
    if |parts| == 1 then parts[0] else parts[0] + [sep] + Join(parts[1..], sep)
  }

  /** Splitting and joining on the same separator are inverse to each other. */
  lemma {:induction false} SplitJoin(s: string, sep: char)
    ensures Join(Split(s, sep), sep) == s
    decreases |s|
  {
    if sep in s {
      var i := IndexOf(s, sep);
      SplitJoin(s[i + 1..], sep);
      assert s == s[..i] + [sep] + s[i + 1..];
    }
  }

  lemma {:induction false} JoinSplit(parts: seq<string>, sep: char)
    requires |parts| >= 1
    requires forall i :: 0 <= i < |parts| ==> sep !in parts[i]
    ensures Split(Join(parts, sep), sep) == parts
    decreases |parts|
  {
    if |parts| > 1 {
      var s := Join(parts, sep);
      var p := parts[0];
      assert s == p + [sep] + Join(parts[1..], sep);
      assert s[|p|] == sep;
      assert s[..|p|] == p;
      assert IndexOf(s, sep) == |p|;
      assert s[|p| + 1..] == Join(parts[1..], sep);
      JoinSplit(parts[1..], sep);
    } else {
      assert Join(parts, sep) == parts[0];
    }
  }

  /** `s.endswith(suffix)`. */
  predicate EndsWith(s: string, suffix: string)
  {
    |suffix| <= |s| && s[|s| - |suffix|..] == suffix
  }

  /** `s.replace(pat, rep)` for a non-empty pattern: non-overlapping
      occurrences, found from the left, are replaced. */
  function Replace(s: string, pat: string, rep: string): string
    requires |pat| > 0
    decreases |s|
  {
    if |s| < |pat| then s
    else if s[..|pat|] == pat then rep + Replace(s[|pat|..], pat, rep)
    else [s[0]] + Replace(s[1..], pat, rep)
  }

  /** A pattern whose first character does not occur is never replaced. */
  lemma {:induction false} ReplaceAbsent(s: string, pat: string, rep: string)
    requires |pat| > 0 && pat[0] !in s
    ensures Replace(s, pat, rep) == s
    decreases |s|
  {
    if |s| >= |pat| {
      assert s[0] != pat[0];
      ReplaceAbsent(s[1..], pat, rep);
      assert s == [s[0]] + s[1..];
    }
  }

  /** The characters of `s` outside `bad`, in their order. */
  function Without(s: string, bad: string): (r: string)
    ensures forall i :: 0 <= i < |r| ==> r[i] !in bad
    ensures forall c :: c !in bad ==> multiset(r)[c] == multiset(s)[c]
  {
    if s == [] then []
    else
      assert s == [s[0]] + s[1..];
      (if s[0] in bad then [] else [s[0]]) + Without(s[1..], bad)
  }

  /** Removing every occurrence of one character is what
      `s.replace(c, '')` does. */
  lemma {:induction false} ReplaceCharByNothing(s: string, c: char)
    ensures Replace(s, [c], "") == Without(s, [c])
  {
    if s != [] {
      ReplaceCharByNothing(s[1..], c);
      assert s[..1] == [s[0]];
    }
  }

  /** Removing the characters of `a`, then those of `b`, removes those of `a + b`. */
  lemma {:induction false} WithoutThenWithout(s: string, a: string, b: string)
    ensures Without(Without(s, a), b) == Without(s, a + b)
  {
    if s != [] {
      WithoutThenWithout(s[1..], a, b);
      var head := if s[0] in a then [] else [s[0]];
      assert Without(s, a) == head + Without(s[1..], a);
      if s[0] !in a {
        assert Without(s, a)[0] == s[0];
        assert Without(s, a)[1..] == Without(s[1..], a);
      } else {
        assert Without(s, a) == Without(s[1..], a);
      }
    }
  }

  /** Filtering leaves a string with no bad character unchanged, so it is
      idempotent. */
  lemma {:induction false} WithoutClean(s: string, bad: string)
    requires forall i :: 0 <= i < |s| ==> s[i] !in bad
    ensures Without(s, bad) == s
  {
    if s != [] {
      WithoutClean(s[1..], bad);
      assert s == [s[0]] + s[1..];
    }
  }
}
