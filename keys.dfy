/** Key post-processing in `fetch_puzzle_data` (download_crossword.py): the
    hex literal turned into "digit + 2" chunk lengths (scheme A, and the tail of
    a dotted payload), the pushed numbers (scheme B), and the scheme-C key
    sorted by its order values. The regular-expression matches themselves are
    inputs here. */
module Keys {
  import opened Wrappers
  import opened Sequences
  import Descramble
  import Sorting

  /** `int(c, 16)` for a one-character string `c`; None where Python raises
      ValueError. */
  function HexValue(c: char): (v: Option<nat>)
    ensures v.Some? ==> v.value < 16
  {
    if '0' <= c <= '9' then Some(c as int - '0' as int)
    else if 'a' <= c <= 'f' then Some(c as int - 'a' as int + 10)
    else if 'A' <= c <= 'F' then Some(c as int - 'A' as int + 10)
    else None
  }

  /** What `[0-9a-f]` matches: the digits the scheme-A pattern accepts. */
  predicate IsLowerHex(c: char)
  {
    '0' <= c <= '9' || 'a' <= c <= 'f'
  }

  /** `[int(c, 16) + 2 for c in h]`; None when some character is not a hex digit. */
  function HexKey(h: string): (key: Option<seq<nat>>)
    ensures key.Some? <==> forall i :: 0 <= i < |h| ==> HexValue(h[i]).Some?
    ensures key.Some? ==> |key.value| == |h|
    ensures key.Some? ==> forall i :: 0 <= i < |h| ==>
      key.value[i] == HexValue(h[i]).value + 2 && 2 <= key.value[i] <= 17
  {
    if h == [] then Some([])
    else
      var head, rest := HexValue(h[0]), HexKey(h[1..]);
      if head.None? then None
      else if rest.None? then
        var i :| 0 <= i < |h| - 1 && HexValue(h[1..][i]).None?;
        assert HexValue(h[i + 1]).None?;
        None
      else
        Some([head.value + 2] + rest.value)
  }

  /** The lower-case hex digit of value `v`. */
  function LowerHexDigit(v: nat): char
    requires v < 16
  {
    if v < 10 then ('0' as int + v) as char else ('a' as int + v - 10) as char
  }

  /** The hex literal a key of entries in 2..17 came from. */
  function KeyToHex(key: seq<nat>): string
    requires forall i :: 0 <= i < |key| ==> 2 <= key[i] <= 17
  {
    seq(|key|, i requires 0 <= i < |key| => LowerHexDigit(key[i] - 2))
  }

  lemma LowerHexDigitValue(v: nat)
    requires v < 16
    ensures HexValue(LowerHexDigit(v)) == Some(v)
  {
  }

  lemma LowerHexOfValue(c: char)
    requires IsLowerHex(c)
    ensures HexValue(c).Some? && LowerHexDigit(HexValue(c).value) == c
  {
  }

  /** A lower-case hex literal is recovered from its "digit + 2" key. */
  lemma {:induction false} HexKeyRecoversLiteral(h: string)
    requires forall i :: 0 <= i < |h| ==> IsLowerHex(h[i])
    ensures HexKey(h).Some? && KeyToHex(HexKey(h).value) == h
  {
    forall i | 0 <= i < |h|
      ensures HexValue(h[i]).Some? && LowerHexDigit(HexValue(h[i]).value) == h[i]
    {
      LowerHexOfValue(h[i]);
    }
    var k := HexKey(h).value;
    forall i | 0 <= i < |h|
      ensures KeyToHex(k)[i] == h[i]
    {
      assert k[i] - 2 == HexValue(h[i]).value;
    }
  }

  /** Every key of entries in 2..17 is the "digit + 2" key of a hex literal. */
  lemma {:induction false} KeyToHexRecoversKey(key: seq<nat>)
    requires forall i :: 0 <= i < |key| ==> 2 <= key[i] <= 17
    ensures HexKey(KeyToHex(key)) == Some(key)
  {
    var t := KeyToHex(key);
    forall i | 0 <= i < |t|
      ensures HexValue(t[i]) == Some(key[i] - 2)
    {
      LowerHexDigitValue(key[i] - 2);
    }
    assert HexKey(t).Some?;
    var k := HexKey(t).value;
    assert |k| == |key|;
    assert forall i :: 0 <= i < |k| ==> k[i] == key[i];
    assert k == key;
  }

  /** What the scheme-A pattern `="([0-9a-f]{7})"` captures. */
  predicate IsSchemeALiteral(h: string)
  {
    |h| == 7 && forall i :: 0 <= i < |h| ==> IsLowerHex(h[i])
  }

  /** `amuseKey`: the scheme-A literal's "digit + 2" list when the literal was
      found, otherwise the numbers captured by the scheme-B `push(...)` pattern,
      in the order found. */
  function PrimaryKey(literal: Option<string>, pushArgs: seq<nat>): (key: seq<nat>)
    requires literal.Some? ==> IsSchemeALiteral(literal.value)
    ensures literal.Some? ==> |key| == 7 && Descramble.HasPositive(key)
    ensures literal.Some? ==> forall i :: 0 <= i < 7 ==>
      key[i] == HexValue(literal.value[i]).value + 2 && 2 <= key[i] <= 17
    ensures literal.None? ==> key == pushArgs
  {
    match literal
    case Some(h) =>
      var key := HexKey(h).value;
      assert key[0] > 0;
      key
    case None => pushArgs
  }

  /** `zip(xs, ys)`: pairs up to the shorter length. */
  function Zip<A, B>(xs: seq<A>, ys: seq<B>): (z: seq<(A, B)>)
    ensures |z| == Min(|xs|, |ys|)
    ensures forall i :: 0 <= i < |z| ==> z[i] == (xs[i], ys[i])
  {
    if xs == [] || ys == [] then [] else [(xs[0], ys[0])] + Zip(xs[1..], ys[1..])
  }

  /** The sort key `lambda pair: pair[1]`. */
  function OrderOf(pair: (nat, nat)): int
  {
    pair.1
  }

  /** `sorted(zip(key_digits, key_orders), key=lambda pair: pair[1])`. */
  function SortedPairs(digits: seq<nat>, orders: seq<nat>): seq<(nat, nat)>
  {
    Sorting.SortBy(Zip(digits, orders), OrderOf)
  }

  /** `amuseKey2`: the digits of the sorted pairs. */
  function SchemeCKey(digits: seq<nat>, orders: seq<nat>): (key: seq<nat>)
    ensures |key| == |SortedPairs(digits, orders)| == Min(|digits|, |orders|)
    ensures forall i :: 0 <= i < |key| ==> key[i] == SortedPairs(digits, orders)[i].0
  {
    var pairs := SortedPairs(digits, orders);
    Sorting.SortByCorrect(Zip(digits, orders), OrderOf);
    seq(|pairs|, i requires 0 <= i < |pairs| => pairs[i].0)
  }

  /** The scheme-C key is read off a stable sort of the paired digits: same
      pairs, order values non-decreasing, and pairs with equal order values in
      their original relative order. */
  lemma SchemeCKeyIsStableSort(digits: seq<nat>, orders: seq<nat>)
    ensures Sorting.SortedBy(SortedPairs(digits, orders), OrderOf)
    ensures multiset(SortedPairs(digits, orders)) == multiset(Zip(digits, orders))
    ensures forall v :: Sorting.WithKey(SortedPairs(digits, orders), OrderOf, v)
                     == Sorting.WithKey(Zip(digits, orders), OrderOf, v)
  {
    Sorting.SortByCorrect(Zip(digits, orders), OrderOf);
  }
}
