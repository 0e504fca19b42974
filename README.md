# Asharq Al-Awsat crossword downloader, modelled in Dafny

`download_crossword.py` fetches the latest Asharq Al-Awsat crossword from the
AmuseLabs platform. It recovers the obfuscated puzzle payload (`rawc`),
converts the platform record into an ipuz record with right-to-left grids, and
picks a file name for it. This project models the logic between the network
and the file system:

- **Descramblers** (`descramble.dfy`). The chunk-reversal pass inside
  `load_rawc` and `amuse_b64` are imperative methods on a character array.
  Both are proved equal to one reference function, `ChunkReversed`.
  Lemmas about that function show that the result is a permutation of the
  input, that each output position depends only on the length and the key,
  and that descrambling twice with the same key gives back the input.
- **Keys** (`keys.dfy`). These are the "hex digit + 2" keys of the scheme-A
  literal and of the reversal scheme, the scheme-B numbers, and the scheme-C
  key. The scheme-C key is read off a stable sort of (digit, order) pairs
  (`sorting.dfy`).
- **Decode cascade** (`cascade.dfy`). `load_rawc` tries a plain decode, then
  the reversal scheme, then `amuse_b64`. `fetch_puzzle_data` reruns all of
  `load_rawc` with the second key on a base64 or UTF-8 error. Base64 and
  UTF-8 decoding plus JSON parsing are one opaque `decode` parameter, which
  reports the kind of error it raised.
- **`parse_to_ipuz`** (`ipuz.dfy`). This covers the mirrored position → clue
  number map, the row-reversed puzzle and solution grids, the Across and Down
  clue lists, and the circle decoration.
- **File names** (`filename.dfy`). This covers
  `remove_invalid_chars_from_filename` and `pick_filename`.
- **String built-ins** (`text.dfy`). These are the Python string operations
  the core uses: `isspace`, `strip`, `split('.')`, `replace` and `endswith`.

All source references below are to `download_crossword.py`.

Behaviours of the code that the model keeps, and that are easy to miss:

- **Retry.** `fetch_puzzle_data` reruns the whole of `load_rawc` with the
  second key on a base64 or UTF-8 error (:153-156).
  `Cascade.FetchPuzzleData` shows that this amounts to rerunning only the
  `amuse_b64` attempt, because the first two attempts do not depend on the
  key.
- **Exceptions that escape.** An exception from the `amuse_b64` attempt that is
  neither a base64 nor a UTF-8 error is not retried and escapes
  `fetch_puzzle_data`. An empty first key is an example (`E[G]` raises an
  index error).
- **Zero key entries.** Scheme-B and scheme-C key entries may be 0. A zero
  entry gives an empty chunk and the loop moves on to the next entry. Only an
  all-zero key makes the loop run forever.
- **Clue list order.** `sorted()` is stable (:227-228), so duplicate clue
  numbers stay in the lists, in word order.
- **Unresolved clue numbers.** When a word's number resolves neither directly
  nor through the position map, `int(None)` raises a `TypeError` (:223, :225).
  The model reports `UnresolvedClueNumber`.
- **Mirrored columns.** The number of a word starting in platform column 0
  lands in the last canonical column. A three-cell row with word 1 in column 0
  is `[0, 0, 1]` (`Ipuz.ThreeLetterRow`).
- **File name tokens.** The token loop replaces only the literal words
  `prefix`, `title` and `author` in the template (:24-25). The raw values put
  into the f-string are not sanitised (see Findings).

## Model

| member | source | states |
|---|---|---|
| Descramble.ChunkReversedAt | download_crossword.py:117-123 | character `i` of the descrambled text is the input character at `SourcePosition(n, key, 0, i)` for length `n`, a position that depends only on the length and the key, never on the content |
| Descramble.ChunkReversedPermutes | download_crossword.py:117-123 | descrambling keeps the length and the multiset of characters |
| Descramble.ChunkReversedInvolutive | download_crossword.py:117-123 | descrambling twice with the same key returns the input |
| Descramble.PassSplits | download_crossword.py:117-123 | running the in-place chunk loop from cursor `B` with key index `G` keeps `A[:B]` and turns the rest into its chunk reversal from key index `G`; so the loop and `ChunkReversed` agree |
| Descramble.SwapChunk | download_crossword.py:120-121 | the `for D in range(C // 2)` swaps reverse `A[B..B+C]` in place and leave the rest unchanged |
| Descramble.ReverseWindow | download_crossword.py:140-148 | the two-pointer loop reverses `e[C..D]` in place and leaves the rest unchanged |
| Descramble.ReversalPass | download_crossword.py:114-124 | the reversal pass returns `ChunkReversed(s, F)`; an empty `F` on two or more characters fails (`G % len(F)`) |
| Descramble.CopyKey | download_crossword.py:129-135 | the copy loop leaves `E` equal to the key |
| Descramble.AmuseB64 | download_crossword.py:127-151 | `amuse_b64` returns `ChunkReversed(s, key)`; an empty key on two or more characters fails (`E[G]`) |
| Keys.HexKey | download_crossword.py:115-116 | defined exactly when every character is a hex digit; same length; entry `i` is the digit's value + 2, so it lies in 2..17 |
| Keys.HexKeyRecoversLiteral | download_crossword.py:98 | a lowercase hex literal is recovered by writing its key back as digits |
| Keys.KeyToHexRecoversKey | download_crossword.py:115-116 | every key with entries in 2..17 is read back from its hex digits |
| Keys.PrimaryKey | download_crossword.py:96-100 | with a scheme-A literal: 7 entries, each its digit + 2 and in 2..17, at least one positive; without one: the scheme-B numbers unchanged |
| Keys.Zip | download_crossword.py:106 | `zip` pairs element `i` of both lists, up to the shorter length |
| Keys.SchemeCKey | download_crossword.py:104-106 | `amuseKey2` has length `min(len(key_digits), len(key_orders))` and holds the digits of the sorted pairs in order |
| Keys.SchemeCKeyIsStableSort | download_crossword.py:106 | the sorted pairs are the zipped pairs, non-decreasing by order value, with equal order values in their original relative order |
| Sorting.SortByCorrect | download_crossword.py:227-228 | `sorted(..., key=...)` keeps the length and multiset, orders by key, and keeps the relative order of equal keys |
| Text.Strip | download_crossword.py:166-168 | `strip()` is the slice of the input left after removing whitespace from both ends, and it neither starts nor ends with whitespace |
| Text.Split | download_crossword.py:113 | `split('.')` gives at least one part, and no part contains the separator |
| Text.SplitJoin | download_crossword.py:113 | joining the parts of a split with the separator restores the string |
| Text.JoinSplit | download_crossword.py:113 | splitting a join of separator-free parts restores the parts |
| Text.ReplaceAbsent | download_crossword.py:24-25 | `replace` leaves a string unchanged when the pattern's first character does not occur in it |
| Text.Without | download_crossword.py:13-14 | the filter leaves none of the removed characters and keeps the count of every other character |
| Text.ReplaceCharByNothing | download_crossword.py:14 | `replace(c, '')` removes every `c` and nothing else |
| Text.WithoutThenWithout | download_crossword.py:13-14 | removing one set of characters, then another, removes their union |
| Text.WithoutClean | download_crossword.py:11-15 | a string without removed characters is left unchanged |
| Cascade.ReversalCandidate | download_crossword.py:113-124 | the text the second attempt decodes is a permutation of the part before the first '.' |
| Cascade.ReversalOutcome | download_crossword.py:112-125 | defined as the decode of `ReversalCandidate`, or a raised error when there is none; its contract adds that it parses only when a candidate exists and never loops |
| Cascade.AmuseOutcome | download_crossword.py:127-152 | defined as the third attempt: it loops exactly on an all-zero key, raises on an empty key over two or more characters, and otherwise decodes `ChunkReversed(rawc, key)` |
| Cascade.FirstSuccess | download_crossword.py:108-152 | a chain of attempts parses exactly when one attempt parses, and then gives the first such attempt; otherwise it gives the last attempt's failure |
| Cascade.LoadRawc | download_crossword.py:108-152 | the nested handlers equal the chain of plain, reversal and `amuse_b64` attempts, in that order |
| Cascade.FetchPuzzleData | download_crossword.py:154-157 | a base64 or UTF-8 error from the first run is answered by the third attempt with the second key; any other outcome is returned as is |
| Cascade.ScrambledPayloadRecovered | download_crossword.py:108-157 | for a key with a positive entry, a payload `t` without `.` and scrambled by `amuse_b64` with the first key is decoded, unless the scrambled text itself decodes; the second attempt is proved to raise, because the scrambled text has no `.` |
| Cascade.FallbackKeyRecovers | download_crossword.py:154-157 | for a second key with a positive entry, a payload `t` without `.` and scrambled with the second key is decoded after the first key fails with a base64 or UTF-8 error |
| Cascade.ReversalPayloadRecovered | download_crossword.py:113-125 | a reversal-scheme payload (scrambled text, '.', key digits reversed) is decoded by the second attempt, whatever the keys |
| Ipuz.ClueNumber | download_crossword.py:182-187 | `get_clue_number` takes the first truthy value of `clue.num`, `clueNum` and `number`, else None; a result is never 0 |
| Ipuz.Mirror | download_crossword.py:194 | defined as the word's canonical position: its column mirrored against `w`, its row made 1-based; `NumberMap` and `ResolvedNumber` are built from it |
| Ipuz.NumberMap | download_crossword.py:189-195 | every number stored in `number_map` is non-zero |
| Ipuz.BuildNumberMap | download_crossword.py:189-195 | the loop builds `NumberMap(words, w)` |
| Ipuz.NumberMapDomain | download_crossword.py:189-195 | a position is in the map exactly when some numbered word starts there |
| Ipuz.NumberMapLast | download_crossword.py:189-195 | a position holds the number of the last numbered word starting there |
| Ipuz.CanonicalCell | download_crossword.py:201-208 | canonical cell `(r, i)` is `"#"` exactly when `box[w-1-i][r]` is NUL; otherwise it shows `number_map[(i+1, r+1)]`, or 0 |
| Ipuz.CanonicalSolution | download_crossword.py:201-209 | the solution entry is None exactly for a block; otherwise it is `box[w-1-i][r]` |
| Ipuz.ReversedRowIsCanonical | download_crossword.py:197-212 | reversing a row built over platform columns puts platform column `w-1-i` at canonical column `i` |
| Ipuz.BuildGrids | download_crossword.py:197-212 | the grid loops fail exactly when the box is too small; otherwise they give `h` rows of `w` entries equal to `CanonicalCell` and `CanonicalSolution` |
| Ipuz.CellNumberIsLastWordAtStart | download_crossword.py:189-208 | a non-block cell shows the number of the last numbered word starting in platform column `w-1-i` and the same row |
| Ipuz.CellNumberZeroWithoutWord | download_crossword.py:202-208 | a non-block cell where no numbered word starts shows 0 |
| Ipuz.ThreeLetterRow | download_crossword.py:189-212 | box `[["A"],["B"],["C"]]` with word 1 starting in column 0 gives the row `[0, 0, 1]` and the solution `["C", "B", "A"]` |
| Ipuz.ResolvedNumber | download_crossword.py:217-220 | defined as the word's own number, else the number at its mirrored start position, else unresolved; `CollectClues` fails exactly when it is unresolved for some word |
| Ipuz.EntryOf | download_crossword.py:221-225 | defined as the clue entry of a word: the resolved number and the clue text; `Entries`, the reference `CollectClues` is proved against, is built from it |
| Ipuz.Entries | download_crossword.py:214-225 | a list never holds more entries than there are words |
| Ipuz.CollectClues | download_crossword.py:214-225 | the clue loop fails exactly when some number is unresolved; otherwise it gives the Across and Down entries in word order |
| Ipuz.EachWordInExactlyOneList | download_crossword.py:222-225 | the Across and Down lists together hold each word's entry exactly once |
| Ipuz.WordListed | download_crossword.py:222-225 | a word's entry is in the Across list if `acrossNotDown`, and in the Down list otherwise |
| Ipuz.ClueListSorted | download_crossword.py:227-228 | each clue list is sorted non-decreasing by number, is a permutation, and keeps word order among equal numbers |
| Ipuz.CircledPositions | download_crossword.py:231-232 | defined as the set of mirrored positions of the circled cell infos, stated both ways (every circled info's position is in it, and every position in it comes from one); `ParseToIpuz` hands it to `DecorateCircled` |
| Ipuz.Decorated | download_crossword.py:236-237 | a block is never decorated; an uncircled cell is unchanged; a circled non-block cell is wrapped with the circle style |
| Ipuz.DecorateCircled | download_crossword.py:233-237 | the circle pass keeps the grid's shape and turns cell `(r, i)` into `Decorated(cell, (i+1, r+1) in circled)` |
| Ipuz.ParseToIpuz | download_crossword.py:161-239 | a too-small box fails first, then an unresolved clue number; otherwise the result has the fixed ipuz fields, stripped metadata, decorated canonical grids and sorted clue lists |
| Filename.RemoveInvalidChars | download_crossword.py:11-15 | the loop of `replace(c, '')` calls is the filter of the nine invalid characters |
| Filename.RemoveInvalidCharsSound | download_crossword.py:11-15 | the result has no invalid character, keeps every other one, and a second pass changes nothing |
| Filename.PadDigitsValue | download_crossword.py:23 | a zero-padded number that fits its width reads back as itself |
| Filename.DateStamp | download_crossword.py:23 | `%Y%m%d` is eight digits that read back as year, month and day |
| Filename.Words | download_crossword.py:26 | `split()` gives non-empty runs free of whitespace |
| Filename.NormalizeKeepsVisible | download_crossword.py:26 | `' '.join(s.split())` keeps every non-whitespace character, in order |
| Filename.JoinSpacedTidy | download_crossword.py:26 | words joined by single spaces have no leading, trailing or repeated whitespace |
| Filename.Finish | download_crossword.py:26-28 | the name ends with `.ipuz`, is tidy, and keeps the visible characters of the template, plus `.ipuz` when it was added |
| Filename.ApplyTokensAbsent | download_crossword.py:24-25 | the token loop leaves the template unchanged when no token name starts with a character of it |
| Filename.PickFilename | download_crossword.py:17-29 | `pick_filename` returns `FilenameAsWritten`, which ends with `.ipuz` and has no leading, trailing or repeated whitespace |
| Filename.InvalidCharSurvivesInTitle | download_crossword.py:23-25 | with title `"/"` and date 2024-01-05, the name still contains `/` |
| Filename.SanitisedFilename | download_crossword.py:17-29 | with the values sanitised before insertion, the name has no invalid character, ends with `.ipuz` and is tidy |

## Findings

| source | as written | input that shows it | evidently intended | confidence | as-written member | corrected member |
|---|---|---|---|---|---|---|
| download_crossword.py:23-25 | the raw prefix, date and title go into the f-string; the token loop then replaces only the literal words `prefix`, `title` and `author` with sanitised values | prefix None, title `"/"`, author None, date 2024-01-05 gives `- 20240105 - /.ipuz`, which contains `/` | the prefix and title sanitised by `remove_invalid_chars_from_filename` before they go into the name | high; not executed | Filename.InvalidCharSurvivesInTitle | Filename.SanitisedFilename |

## Left out

- The HTTP session and requests, the BeautifulSoup scraping of the date picker and the solver page, and the search for `rawc` in the page are left out. They are network I/O and HTML parsing by a library. `rawc` is an input.
- The regular-expression searches over the script text are left out. The scheme-A literal, the scheme-B numbers and the scheme-C digits and orders are inputs, as the captured strings or integers.
- `base64.b64decode`, `.decode("utf-8")` and `json.loads` are one uninterpreted `decode` parameter. Only the kind of error it raises is modelled: base64, UTF-8, or other.
- `ipuz.write`, the fallback `json.dump`, the `os.path` checks and the prints are left out. They are file I/O and console output.
- `datetime.today()` is left out. The date is a parameter, given as year, month and day.
- `Filename.DateStamp`: requires a year of four digits, 1000 to 9999. `strftime('%Y')` on an earlier year is platform-dependent.
- `Descramble.ReversalPass`: requires that the key is not all zeros on two or more characters. In the source that loop never ends.
- `Descramble.AmuseB64`: the same requirement. `Cascade.AmuseOutcome` reports this case as `Diverges` instead.
- `Keys.HexKey`: only ASCII hex digits are accepted. Python's `int(c, 16)` also accepts other Unicode decimal digits.
- `Ipuz.ParseToIpuz`: the platform record is typed. These source behaviours are not modelled:
  - the `KeyError` of a missing `box`, `placedWords` or `x`/`y` field;
  - `AttributeError` on a null `clue`;
  - negative `w` or `h`;
  - non-integer clue numbers.
  Missing `title`, `author` and `copyright` fields are the empty string.
- Python truthiness of the clue number fields is modelled for integers only, where only 0 is falsy.
- The top-level driver `download_latest_asharq_al_awsat_crossword` only wires the steps together and does I/O, so it is not modelled.
