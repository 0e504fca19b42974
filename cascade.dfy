/** The decode cascade of `fetch_puzzle_data`: `load_rawc` tries a plain
    decode, then the '.'-separated reversal scheme, then the `amuse_b64`
    descramble with the given key, and `fetch_puzzle_data` retries the whole
    of `load_rawc` with the second key when the first run fails with a base64
    or UTF-8 error.  Base64-decoding, UTF-8-decoding and JSON-parsing are one
    opaque parameter `decode`, which reports which kind of error it raised. */
module Cascade {
  import opened Wrappers
  import opened Sequences
  import opened Descramble
  import Keys
  import Text

  /** What `base64.b64decode(...).decode("utf-8")` followed by `json.loads`
      may raise: `binascii.Error`, `UnicodeDecodeError`, or anything else. */
  datatype DecodeError = Base64Error | UnicodeError | OtherError

  /** The decoder: the parsed puzzle data, or the error it raised. */
  type Decoder<D> = string -> Result<D, DecodeError>

  /** How a decode attempt ends: parsed data, an escaping exception, or a
      descramble loop that never ends (an all-zero key). */
  datatype Outcome<D> = Parsed(data: D) | Raised(error: DecodeError) | Diverges

  function Lift<D>(res: Result<D, DecodeError>): (o: Outcome<D>)
    ensures o.Parsed? <==> res.Ok?
    ensures res.Ok? ==> o.data == res.value
    ensures res.Err? ==> o == Raised(res.error)
  {
    match res
    case Ok(d) => Parsed(d)
    case Err(e) => Raised(e)
  }

  /** The string the second attempt decodes: the field before the first '.',
      descrambled by chunk reversal with the key read, as hex digits plus 2,
      from the reversed second field.  None when that attempt raises before
      decoding: no second field, a non-hex character in it, or an empty key
      on a first field of two or more characters. */
  function ReversalCandidate(rawc: string): (t: Option<string>)
    ensures t.Some? ==> |t.value| == |Text.Split(rawc, '.')[0]|
    ensures t.Some? ==> multiset(t.value) == multiset(Text.Split(rawc, '.')[0])
  {
    var parts := Text.Split(rawc, '.');
    if |parts| < 2 then None
    else
      match Keys.HexKey(Reversed(parts[1]))
      case None => None
      case Some(f) =>
        if |parts[0]| >= 2 && |f| == 0 then None
        else
          assert |f| > 0 ==> f[0] >= 2;
          ChunkReversedPermutes(parts[0], f);
          Some(ChunkReversed(parts[0], f))
  }

  /** The second attempt: any failure of it is swallowed by the caller. */
  function ReversalOutcome<D>(rawc: string, decode: Decoder<D>): (o: Outcome<D>)
    ensures o.Parsed? ==> ReversalCandidate(rawc).Some?
    ensures o.Diverges? == false
  {
    match ReversalCandidate(rawc)
    case None => Raised(OtherError)
    case Some(t) => Lift(decode(t))
  }

  /** The third attempt, `amuse_b64` followed by a decode.  An empty key on
      two or more characters raises an index error, an all-zero key loops
      forever. */
  function AmuseOutcome<D>(rawc: string, key: Key, decode: Decoder<D>): (o: Outcome<D>)
    ensures o.Diverges? <==> Stalls(|rawc|, key)
    ensures |rawc| >= 2 && |key| == 0 ==> o == Raised(OtherError)
    ensures !Stalls(|rawc|, key) && (|rawc| <= 1 || |key| > 0) ==>
              o == Lift(decode(ChunkReversed(rawc, key)))
  {
    if Stalls(|rawc|, key) then Diverges
    else if |rawc| >= 2 && |key| == 0 then Raised(OtherError)
    else Lift(decode(ChunkReversed(rawc, key)))
  }

  /** The three attempts of `load_rawc`, in the order they are tried. */
  function Attempts<D>(rawc: string, key: Key, decode: Decoder<D>): (os: seq<Outcome<D>>)
    ensures |os| == 3
  {
    [Lift(decode(rawc)), ReversalOutcome(rawc, decode), AmuseOutcome(rawc, key, decode)]
  }

  /** A chain of attempts: the first that parses wins; when none does, the
      last one's way of failing is what the caller sees. */
  function FirstSuccess<D>(os: seq<Outcome<D>>): (o: Outcome<D>)
    requires |os| > 0
    ensures o.Parsed? <==> exists i :: 0 <= i < |os| && os[i].Parsed?
    ensures o.Parsed? ==> exists i :: 0 <= i < |os| && os[i] == o
                                      && forall j :: 0 <= j < i ==> !os[j].Parsed?
    ensures !o.Parsed? ==> o == os[|os| - 1]
  {
    if os[0].Parsed? || |os| == 1 then os[0]
    else
      var rest := FirstSuccess(os[1..]);
      assert forall i :: 1 <= i < |os| ==> os[i] == os[1..][i - 1];
      rest
  }

  /** `load_rawc`: nested handlers, each attempt run only when the previous
      one failed; it is the chain of its three attempts. */
  function LoadRawc<D>(rawc: string, key: Key, decode: Decoder<D>): (r: Outcome<D>)
    ensures r == FirstSuccess(Attempts(rawc, key, decode))
  {
    var os := Attempts(rawc, key, decode);
    assert os[1..][1..] == [os[2]];
    match decode(rawc)
    case Ok(d) => Parsed(d)
    case Err(_) =>
      match ReversalOutcome(rawc, decode)
      case Parsed(d) => Parsed(d)
      case _ => AmuseOutcome(rawc, key, decode)
  }

  /** The exceptions `fetch_puzzle_data` answers with a second run. */
  predicate Retried<D>(o: Outcome<D>)
  {
    o.Raised? && (o.error == Base64Error || o.error == UnicodeError)
  }

  /** `fetch_puzzle_data`'s decode: `load_rawc` with the first key, run again
      with the second key only on a base64 or UTF-8 error.  Since the first two
      attempts do not depend on the key, the second run amounts to the third
      attempt with the second key. */
  function FetchPuzzleData<D>(rawc: string, amuseKey: Key, amuseKey2: Key, decode: Decoder<D>): (r: Outcome<D>)
    ensures Retried(LoadRawc(rawc, amuseKey, decode)) ==> r == AmuseOutcome(rawc, amuseKey2, decode)
    ensures !Retried(LoadRawc(rawc, amuseKey, decode)) ==> r == LoadRawc(rawc, amuseKey, decode)
  {
    var first := LoadRawc(rawc, amuseKey, decode);
    if Retried(first) then LoadRawc(rawc, amuseKey2, decode) else first
  }

  /** A payload scrambled by `amuse_b64` with the first key is recovered,
      unless the scrambled text itself happens to decode. */
  lemma ScrambledPayloadRecovered<D>(t: string, key: Key, amuseKey2: Key, decode: Decoder<D>, d: D)
    requires HasPositive(key)
    requires decode(t) == Ok(d)
    requires '.' !in t
    requires decode(ChunkReversed(t, key)).Err?
    ensures FetchPuzzleData(ChunkReversed(t, key), key, amuseKey2, decode) == Parsed(d)
  {
    ScrambledHasNoDot(t, key);
    NoDotFailsReversal(ChunkReversed(t, key), decode);
    ChunkReversedInvolutive(t, key);
  }

  /** A payload scrambled with the second key is recovered when the first key
      yields undecodable base64 or UTF-8. */
  lemma FallbackKeyRecovers<D>(t: string, amuseKey: Key, amuseKey2: Key, decode: Decoder<D>, d: D)
    requires HasPositive(amuseKey2)
    requires decode(t) == Ok(d)
    requires '.' !in t
    requires decode(ChunkReversed(t, amuseKey2)).Err?
    requires Retried(AmuseOutcome(ChunkReversed(t, amuseKey2), amuseKey, decode))
    ensures FetchPuzzleData(ChunkReversed(t, amuseKey2), amuseKey, amuseKey2, decode) == Parsed(d)
  {
    ScrambledHasNoDot(t, amuseKey2);
    NoDotFailsReversal(ChunkReversed(t, amuseKey2), decode);
    ChunkReversedInvolutive(t, amuseKey2);
  }

  /** Chunk reversal only moves characters, so it brings in no '.'. */
  lemma ScrambledHasNoDot(t: string, key: Key)
    requires HasPositive(key)
    requires '.' !in t
    ensures '.' !in ChunkReversed(t, key)
  {
    ChunkReversedPermutes(t, key);
    assert '.' !in multiset(t);
  }

  /** Without a '.', `rawc.split('.')` has no second field, so the second
      attempt raises an index error. */
  lemma NoDotFailsReversal<D>(rawc: string, decode: Decoder<D>)
    requires '.' !in rawc
    ensures ReversalOutcome(rawc, decode) == Raised(OtherError)
  {
    assert Text.Split(rawc, '.') == [rawc];
  }

  /** A key written out as the hex digits of its entries minus 2. */
  lemma KeyToHexHasNoDot(f: Key)
    requires forall i :: 0 <= i < |f| ==> 2 <= f[i] <= 17
    ensures '.' !in Reversed(Keys.KeyToHex(f))
  {
    var h := Keys.KeyToHex(f);
    forall i | 0 <= i < |h| ensures h[i] != '.' {
      assert h[i] == Keys.LowerHexDigit(f[i] - 2);
    }
    forall i | 0 <= i < |h| ensures Reversed(h)[i] != '.' {
      ReversedAt(h, i);
    }
  }

  /** A payload in the reversal scheme, `ChunkReversed(t, f) + "." + h` with
      `h` the key's digits written backwards, is recovered by the second
      attempt, whatever the amuse keys are. */
  lemma ReversalPayloadRecovered<D>(t: string, f: Key, amuseKey: Key, amuseKey2: Key, decode: Decoder<D>, d: D)
    requires '.' !in t
    requires forall i :: 0 <= i < |f| ==> 2 <= f[i] <= 17
    requires HasPositive(f)
    requires decode(t) == Ok(d)
    requires decode(ChunkReversed(t, f) + "." + Reversed(Keys.KeyToHex(f))).Err?
    ensures FetchPuzzleData(ChunkReversed(t, f) + "." + Reversed(Keys.KeyToHex(f)), amuseKey, amuseKey2, decode)
            == Parsed(d)
  {
    var scrambled := ChunkReversed(t, f);
    var h := Reversed(Keys.KeyToHex(f));
    var rawc := scrambled + "." + h;
    ScrambledHasNoDot(t, f);
    KeyToHexHasNoDot(f);
    Text.JoinSplit([scrambled, h], '.');
    assert Text.Join([scrambled, h], '.') == rawc;
    ReversedTwice(Keys.KeyToHex(f));
    Keys.KeyToHexRecoversKey(f);
    assert Keys.HexKey(Reversed(h)) == Some(f);
    ChunkReversedInvolutive(t, f);
    assert ReversalCandidate(rawc) == Some(t);
  }
}
