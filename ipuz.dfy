/** `parse_to_ipuz`: the AmuseLabs record (a column-major letter grid, the
    placed words and the cell decorations) becomes an ipuz record whose grids
    read right to left.  A word starting at column `x`, row `y` is looked up
    at the mirrored, 1-based position `(w - x, y + 1)`. */
module Ipuz {
  import opened Wrappers
  import opened Sequences
  import Sorting
  import Text

  /** The `clue` object of a placed word: its `num` and `clue` fields, None
      when absent. */
  datatype ClueRecord = ClueRecord(num: Option<int>, text: Option<string>)

  datatype PlacedWord = PlacedWord(
    x: int, y: int, acrossNotDown: bool,
    clue: Option<ClueRecord>, clueNum: Option<int>, number: Option<int>)

  datatype CellInfo = CellInfo(x: int, y: int, isCircled: bool)

  /** The decoded AmuseLabs record; `box[x][y]` is the letter in column `x`,
      row `y`, and the NUL string marks a block. */
  datatype PlatformPuzzle = PlatformPuzzle(
    title: string, author: string, copyright: string,
    w: nat, h: nat, box: seq<seq<string>>,
    placedWords: seq<PlacedWord>, cellInfos: seq<CellInfo>)

  /** An entry of the ipuz `puzzle` grid: `"#"`, a clue number (0 for none),
      or a cell wrapped with the circle style. */
  datatype PuzzleCell = Block | Numbered(n: int) | Circled(cell: PuzzleCell)

  datatype ClueEntry = ClueEntry(number: int, text: string)

  datatype Grids = Grids(puzzle: seq<seq<PuzzleCell>>, solution: seq<seq<Option<string>>>)

  datatype IpuzPuzzle = IpuzPuzzle(
    version: string, kind: seq<string>,
    title: string, author: string, copyright: string,
    block: string, empty: string, width: nat, height: nat,
    puzzle: seq<seq<PuzzleCell>>, across: seq<ClueEntry>, down: seq<ClueEntry>,
    solution: seq<seq<Option<string>>>, showEnumerations: bool)

  /** `box` too small for `w` and `h` raises an index error; a word whose
      number cannot be resolved makes `int(None)` raise. */
  datatype ParseError = BoxIndexOutOfRange | UnresolvedClueNumber

  const Nul: string := [0 as char]

  /** Python truthiness of an optional integer. */
  predicate Truthy(v: Option<int>)
  {
    v.Some? && v.value != 0
  }

  function RecordNum(word: PlacedWord): Option<int>
  {
    if word.clue.Some? then word.clue.value.num else None
  }

  /** `get_clue_number`: the first truthy one of the clue record's `num`,
      `clueNum` and `number`, or None. */
  function ClueNumber(word: PlacedWord): (n: Option<int>)
    ensures n.Some? <==> Truthy(RecordNum(word)) || Truthy(word.clueNum) || Truthy(word.number)
    ensures n.Some? ==> n.value != 0
    ensures Truthy(RecordNum(word)) ==> n == RecordNum(word)
    ensures !Truthy(RecordNum(word)) && Truthy(word.clueNum) ==> n == word.clueNum
    ensures !Truthy(RecordNum(word)) && !Truthy(word.clueNum) ==> n == (if Truthy(word.number) then word.number else None)
  {
    if Truthy(RecordNum(word)) then RecordNum(word)
    else if Truthy(word.clueNum) then word.clueNum
    else if Truthy(word.number) then word.number
    else None
  }

  /** The canonical position of a word's start: mirrored column, 1-based row. */
  function Mirror(width: int, word: PlacedWord): (pos: (int, int))
    ensures pos.1 == word.y + 1
    ensures pos.0 + word.x == width
  {
    (width - word.x, word.y + 1)
  }

  /** `number_map`: each numbered word writes its number at its canonical
      position, later words over earlier ones. */
  function NumberMap(words: seq<PlacedWord>, width: int): (m: map<(int, int), int>)
    ensures forall pos :: pos in m ==> m[pos] != 0
    decreases |words|
  {
    if |words| == 0 then map[]
    else
      var m := NumberMap(words[..|words| - 1], width);
      var last := words[|words| - 1];
      match ClueNumber(last)
      case None => m
      case Some(n) => m[Mirror(width, last) := n]
  }

  /** The loop filling `number_map`. */
  method BuildNumberMap(words: seq<PlacedWord>, width: int) returns (m: map<(int, int), int>)
    ensures m == NumberMap(words, width)
  {
    m := map[];
    var k := 0;
    while k < |words|
      invariant 0 <= k <= |words|
      invariant m == NumberMap(words[..k], width)
    {
      assert words[..k + 1][..k] == words[..k];
      var num := ClueNumber(words[k]);
      if num.Some? {
        m := m[Mirror(width, words[k]) := num.value];
      }
      k := k + 1;
    }
    assert words[..k] == words;
  }

  /** A position is in the map exactly when some numbered word starts there. */
  lemma {:induction false} NumberMapDomain(words: seq<PlacedWord>, width: int, pos: (int, int))
    ensures pos in NumberMap(words, width) <==>
            exists j :: 0 <= j < |words| && ClueNumber(words[j]).Some? && Mirror(width, words[j]) == pos
    decreases |words|
  {
    if |words| > 0 {
      var prefix := words[..|words| - 1];
      NumberMapDomain(prefix, width, pos);
      assert forall j :: 0 <= j < |prefix| ==> prefix[j] == words[j];
    }
  }

  /** The number stored at a word's position is that of the last numbered
      word starting there. */
  lemma {:induction false} NumberMapLast(words: seq<PlacedWord>, width: int, j: nat)
    requires j < |words| && ClueNumber(words[j]).Some?
    requires forall k :: j < k < |words| && ClueNumber(words[k]).Some? ==>
               Mirror(width, words[k]) != Mirror(width, words[j])
    ensures Mirror(width, words[j]) in NumberMap(words, width)
    ensures NumberMap(words, width)[Mirror(width, words[j])] == ClueNumber(words[j]).value
    decreases |words|
  {
    if j < |words| - 1 {
      var prefix := words[..|words| - 1];
      assert forall k :: 0 <= k < |prefix| ==> prefix[k] == words[k];
      NumberMapLast(prefix, width, j);
    }
  }

  /** Every column of the box is tall enough and there are enough columns for
      the `w` by `h` grid, so no index raises. */
  predicate BoxFits(p: PlatformPuzzle)
  {
    p.h == 0 || (p.w <= |p.box| && forall x :: 0 <= x < p.w ==> p.h <= |p.box[x]|)
  }

  /** Canonical cell `(r, i)` (row `r`, column `i` from the left of the
      right-to-left grid) exists in the box. */
  predicate InBox(p: PlatformPuzzle, r: int, i: int)
  {
    0 <= r < p.h && 0 <= i < p.w && p.w - 1 - i < |p.box| && r < |p.box[p.w - 1 - i]|
  }

  /** Canonical cell `(r, i)` is platform column `w - 1 - i`; a non-block
      cell shows the number at position `(i + 1, r + 1)`, or 0. */
  function CanonicalCell(p: PlatformPuzzle, m: map<(int, int), int>, r: int, i: int): (c: PuzzleCell)
    requires InBox(p, r, i)
    ensures c == Block <==> p.box[p.w - 1 - i][r] == Nul
    ensures c != Block ==> c == Numbered(if (i + 1, r + 1) in m then m[(i + 1, r + 1)] else 0)
  {
    if p.box[p.w - 1 - i][r] == Nul then Block
    else Numbered(if (i + 1, r + 1) in m then m[(i + 1, r + 1)] else 0)
  }

  /** The solution entry: None for a block, the letter otherwise. */
  function CanonicalSolution(p: PlatformPuzzle, r: int, i: int): (s: Option<string>)
    requires InBox(p, r, i)
    ensures s.None? <==> p.box[p.w - 1 - i][r] == Nul
    ensures s.Some? ==> s.value == p.box[p.w - 1 - i][r]
  {
    if p.box[p.w - 1 - i][r] == Nul then None else Some(p.box[p.w - 1 - i][r])
  }

  /** What the grid loops compute for platform column `x`, row `y`, before
      the row is reversed: the cell at the mirrored position `(w - x, y + 1)`. */
  function PlatformCell(p: PlatformPuzzle, m: map<(int, int), int>, x: int, y: int): PuzzleCell
    requires 0 <= x < |p.box| && 0 <= y < |p.box[x]|
  {
    if p.box[x][y] == Nul then Block
    else Numbered(if (p.w - x, y + 1) in m then m[(p.w - x, y + 1)] else 0)
  }

  function PlatformSolution(p: PlatformPuzzle, x: int, y: int): Option<string>
    requires 0 <= x < |p.box| && 0 <= y < |p.box[x]|
  {
    if p.box[x][y] == Nul then None else Some(p.box[x][y])
  }

  /** Reversing a row of platform cells gives the canonical row. */
  lemma {:induction false} ReversedRowIsCanonical(p: PlatformPuzzle, m: map<(int, int), int>, y: int,
                               row: seq<PuzzleCell>, solRow: seq<Option<string>>)
    requires 0 <= y < p.h && p.w <= |p.box| && |row| == p.w && |solRow| == p.w
    requires forall x :: 0 <= x < p.w ==> y < |p.box[x]|
    requires forall x :: 0 <= x < p.w ==> row[x] == PlatformCell(p, m, x, y) && solRow[x] == PlatformSolution(p, x, y)
    ensures forall i :: 0 <= i < p.w ==>
              InBox(p, y, i)
              && Reversed(row)[i] == CanonicalCell(p, m, y, i)
              && Reversed(solRow)[i] == CanonicalSolution(p, y, i)
  {
    forall i | 0 <= i < p.w
      ensures InBox(p, y, i)
      ensures Reversed(row)[i] == CanonicalCell(p, m, y, i)
      ensures Reversed(solRow)[i] == CanonicalSolution(p, y, i)
    {
      var x := p.w - 1 - i;
      ReversedAt(row, i);
      ReversedAt(solRow, i);
      assert (p.w - x, y + 1) == (i + 1, y + 1);
    }
  }

  /** The two grid loops: each row is built left to right over the platform
      columns and then reversed. */
  method BuildGrids(p: PlatformPuzzle, m: map<(int, int), int>) returns (res: Result<Grids, ParseError>)
    ensures res.Err? <==> !BoxFits(p)
    ensures res.Err? ==> res.error == BoxIndexOutOfRange
    ensures res.Ok? ==> |res.value.puzzle| == p.h && |res.value.solution| == p.h
    ensures res.Ok? ==> forall r :: 0 <= r < p.h ==>
              |res.value.puzzle[r]| == p.w && |res.value.solution[r]| == p.w
    ensures res.Ok? ==> forall r, i :: 0 <= r < p.h && 0 <= i < p.w ==>
              InBox(p, r, i)
              && res.value.puzzle[r][i] == CanonicalCell(p, m, r, i)
              && res.value.solution[r][i] == CanonicalSolution(p, r, i)
  {
    var puzzle: seq<seq<PuzzleCell>> := [];
    var solution: seq<seq<Option<string>>> := [];
    var y := 0;
    while y < p.h
      invariant 0 <= y <= p.h
      invariant |puzzle| == y && |solution| == y
      invariant y > 0 ==> p.w <= |p.box| && forall x :: 0 <= x < p.w ==> y <= |p.box[x]|
      invariant forall r :: 0 <= r < y ==> |puzzle[r]| == p.w && |solution[r]| == p.w
      invariant forall r, i :: 0 <= r < y && 0 <= i < p.w ==>
                  InBox(p, r, i)
                  && puzzle[r][i] == CanonicalCell(p, m, r, i)
                  && solution[r][i] == CanonicalSolution(p, r, i)
    {
      var row: seq<PuzzleCell> := [];
      var solRow: seq<Option<string>> := [];
      var x := 0;
      while x < p.w
        invariant 0 <= x <= p.w
        invariant |row| == x && |solRow| == x
        invariant x <= |p.box|
        invariant forall xx :: 0 <= xx < x ==>
                    y < |p.box[xx]|
                    && row[xx] == PlatformCell(p, m, xx, y)
                    && solRow[xx] == PlatformSolution(p, xx, y)
      {
        if x >= |p.box| || y >= |p.box[x]| {
          assert !BoxFits(p);
          return Err(BoxIndexOutOfRange);
        }
        var cell := p.box[x][y];
        var pos := (p.w - x, y + 1);
        if cell == Nul {
          row := row + [Block];
          solRow := solRow + [None];
        } else {
          var num := if pos in m then m[pos] else 0;
          row := row + [Numbered(num)];
          solRow := solRow + [Some(cell)];
        }
        x := x + 1;
      }
      ReversedRowIsCanonical(p, m, y, row, solRow);
      puzzle := puzzle + [Reversed(row)];
      solution := solution + [Reversed(solRow)];
      y := y + 1;
    }
    return Ok(Grids(puzzle, solution));
  }

  /** The number a clue is listed under: its own number, else the number at
      its start position. */
  function ResolvedNumber(word: PlacedWord, m: map<(int, int), int>, width: int): (n: Option<int>)
    ensures ClueNumber(word).Some? ==> n == ClueNumber(word)
    ensures ClueNumber(word).None? && Mirror(width, word) in m ==> n == Some(m[Mirror(width, word)])
    ensures n.None? <==> ClueNumber(word).None? && Mirror(width, word) !in m
  {
    match ClueNumber(word)
    case Some(k) => Some(k)
    case None => if Mirror(width, word) in m then Some(m[Mirror(width, word)]) else None
  }

  predicate AllResolved(words: seq<PlacedWord>, m: map<(int, int), int>, width: int)
  {
    forall k :: 0 <= k < |words| ==> ResolvedNumber(words[k], m, width).Some?
  }

  /** The clue text, `""` when the clue record or its text is missing. */
  function ClueText(word: PlacedWord): string
  {
    if word.clue.Some? && word.clue.value.text.Some? then word.clue.value.text.value else ""
  }

  function EntryOf(word: PlacedWord, m: map<(int, int), int>, width: int): (e: ClueEntry)
    requires ResolvedNumber(word, m, width).Some?
    ensures e.number == ResolvedNumber(word, m, width).value && e.text == ClueText(word)
  {
    ClueEntry(ResolvedNumber(word, m, width).value, ClueText(word))
  }

  /** The entries of the words running across (or down), in word order. */
  function Entries(words: seq<PlacedWord>, m: map<(int, int), int>, width: int, across: bool): (es: seq<ClueEntry>)
    requires AllResolved(words, m, width)
    ensures |es| <= |words|
    decreases |words|
  {
    if |words| == 0 then []
    else
      var prefix := words[..|words| - 1];
      var last := words[|words| - 1];
      assert forall k :: 0 <= k < |prefix| ==> prefix[k] == words[k];
      Entries(prefix, m, width, across)
        + (if last.acrossNotDown == across then [EntryOf(last, m, width)] else [])
  }

  /** The clue loop: appends to the Across or the Down list, raising on a
      number that resolves neither way. */
  method CollectClues(words: seq<PlacedWord>, m: map<(int, int), int>, width: int)
    returns (res: Result<(seq<ClueEntry>, seq<ClueEntry>), ParseError>)
    ensures res.Err? <==> !AllResolved(words, m, width)
    ensures res.Err? ==> res.error == UnresolvedClueNumber
    ensures res.Ok? ==> res.value == (Entries(words, m, width, true), Entries(words, m, width, false))
  {
    var across: seq<ClueEntry> := [];
    var down: seq<ClueEntry> := [];
    var k := 0;
    while k < |words|
      invariant 0 <= k <= |words|
      invariant AllResolved(words[..k], m, width)
      invariant across == Entries(words[..k], m, width, true)
      invariant down == Entries(words[..k], m, width, false)
    {
      var word := words[k];
      var num := ClueNumber(word);
      if num.None? {
        var pos := Mirror(width, word);
        num := if pos in m then Some(m[pos]) else None;
      }
      if num.None? {
        return Err(UnresolvedClueNumber);
      }
      var entry := ClueEntry(num.value, ClueText(word));
      assert words[..k + 1][..k] == words[..k];
      if word.acrossNotDown {
        across := across + [entry];
      } else {
        down := down + [entry];
      }
      k := k + 1;
    }
    assert words[..k] == words;
    return Ok((across, down));
  }

  /** The entries of all the words, in word order. */
  function AllEntries(words: seq<PlacedWord>, m: map<(int, int), int>, width: int): (es: seq<ClueEntry>)
    requires AllResolved(words, m, width)
    ensures |es| == |words|
    decreases |words|
  {
    if |words| == 0 then []
    else
      var prefix := words[..|words| - 1];
      assert forall k :: 0 <= k < |prefix| ==> prefix[k] == words[k];
      AllEntries(prefix, m, width) + [EntryOf(words[|words| - 1], m, width)]
  }

  /** The three lists of a non-empty word sequence, from those of its prefix. */
  lemma EntriesSnoc(words: seq<PlacedWord>, m: map<(int, int), int>, width: int)
    requires AllResolved(words, m, width) && |words| > 0
    ensures AllResolved(words[..|words| - 1], m, width)
    ensures var prefix, e := words[..|words| - 1], EntryOf(words[|words| - 1], m, width);
            && AllEntries(words, m, width) == AllEntries(prefix, m, width) + [e]
            && Entries(words, m, width, true)
               == Entries(prefix, m, width, true) + (if words[|words| - 1].acrossNotDown then [e] else [])
            && Entries(words, m, width, false)
               == Entries(prefix, m, width, false) + (if words[|words| - 1].acrossNotDown then [] else [e])
  {
    var prefix := words[..|words| - 1];
    assert forall k :: 0 <= k < |prefix| ==> prefix[k] == words[k];
  }

  /** The partition of the entries extends from a prefix to one more word. */
  lemma EachWordStep(words: seq<PlacedWord>, m: map<(int, int), int>, width: int)
    requires AllResolved(words, m, width) && |words| > 0
    requires AllResolved(words[..|words| - 1], m, width)
    requires var prefix := words[..|words| - 1];
             multiset(Entries(prefix, m, width, true)) + multiset(Entries(prefix, m, width, false))
             == multiset(AllEntries(prefix, m, width))
    ensures multiset(Entries(words, m, width, true)) + multiset(Entries(words, m, width, false))
            == multiset(AllEntries(words, m, width))
  {
    var n := |words| - 1;
    var prefix := words[..n];
    EntriesSnoc(words, m, width);
    var e := EntryOf(words[n], m, width);
    var a, d := Entries(prefix, m, width, true), Entries(prefix, m, width, false);
    var all := AllEntries(prefix, m, width);
    assert multiset(all + [e]) == multiset(a) + multiset(d) + multiset{e};
    var a', d' := Entries(words, m, width, true), Entries(words, m, width, false);
    if words[n].acrossNotDown {
      assert a' == a + [e] && d' == d;
      assert multiset(a') == multiset(a) + multiset{e};
    } else {
      assert a' == a && d' == d + [e];
      assert multiset(d') == multiset(d) + multiset{e};
    }
  }

  /** Each word contributes one entry, to exactly one of the two lists. */
  lemma {:induction false} EachWordInExactlyOneList(words: seq<PlacedWord>, m: map<(int, int), int>, width: int)
    requires AllResolved(words, m, width)
    ensures multiset(Entries(words, m, width, true)) + multiset(Entries(words, m, width, false))
            == multiset(AllEntries(words, m, width))
    decreases |words|
  {
    if |words| > 0 {
      EntriesSnoc(words, m, width);
      EachWordInExactlyOneList(words[..|words| - 1], m, width);
      EachWordStep(words, m, width);
    }
  }

  /** A word's entry is in the list its direction names. */
  lemma {:induction false} WordListed(words: seq<PlacedWord>, m: map<(int, int), int>, width: int, k: nat)
    requires AllResolved(words, m, width) && k < |words|
    ensures EntryOf(words[k], m, width) in Entries(words, m, width, words[k].acrossNotDown)
    decreases |words|
  {
    var n := |words| - 1;
    var prefix := words[..n];
    assert forall j :: 0 <= j < |prefix| ==> prefix[j] == words[j];
    if k < n {
      WordListed(prefix, m, width, k);
    }
  }

  function EntryNumber(e: ClueEntry): int
  {
    e.number
  }

  /** The `circled` list: the canonical positions of the circled cell infos. */
  function CircledPositions(infos: seq<CellInfo>, width: int): (ps: set<(int, int)>)
    ensures forall k :: 0 <= k < |infos| && infos[k].isCircled ==> (width - infos[k].x, infos[k].y + 1) in ps
    ensures forall pos :: pos in ps ==> exists k :: 0 <= k < |infos| && infos[k].isCircled
                                              && pos == (width - infos[k].x, infos[k].y + 1)
  {
    set k | 0 <= k < |infos| && infos[k].isCircled :: (width - infos[k].x, infos[k].y + 1)
  }

  /** A cell after the circle pass: a non-block cell at a circled position
      gets the circle style; any other cell is left as it was. */
  function Decorated(c: PuzzleCell, circled: bool): (d: PuzzleCell)
    ensures c == Block ==> d == Block
    ensures !circled ==> d == c
    ensures circled && c != Block ==> d.Circled? && d.cell == c
  {
    if circled && c != Block then Circled(c) else c
  }

  /** The circle pass over the 1-based rows and columns of the grid, which
      overwrites the circled non-block cells in place. */
  method DecorateCircled(grid: seq<seq<PuzzleCell>>, circled: set<(int, int)>)
    returns (out: seq<seq<PuzzleCell>>)
    ensures |out| == |grid|
    ensures forall r :: 0 <= r < |grid| ==> |out[r]| == |grid[r]|
    ensures forall r, i :: 0 <= r < |grid| && 0 <= i < |grid[r]| ==>
              out[r][i] == Decorated(grid[r][i], (i + 1, r + 1) in circled)
  {
    out := grid;
    if circled == {} {
      return;
    }
    var y := 1;
    while y <= |grid|
      invariant 1 <= y <= |grid| + 1
      invariant |out| == |grid|
      invariant forall r :: 0 <= r < |grid| ==> |out[r]| == |grid[r]|
      invariant forall r, i :: 0 <= r < y - 1 && 0 <= i < |grid[r]| ==>
                  out[r][i] == Decorated(grid[r][i], (i + 1, r + 1) in circled)
      invariant forall r :: y - 1 <= r < |grid| ==> out[r] == grid[r]
    {
      ghost var r0 := y - 1;
      var x := 1;
      while x <= |grid[y - 1]|
        invariant 1 <= x <= |grid[y - 1]| + 1
        invariant |out| == |grid|
        invariant forall r :: 0 <= r < |grid| ==> |out[r]| == |grid[r]|
        invariant forall r, i :: 0 <= r < y - 1 && 0 <= i < |grid[r]| ==>
                    out[r][i] == Decorated(grid[r][i], (i + 1, r + 1) in circled)
        invariant forall r :: y - 1 < r < |grid| ==> out[r] == grid[r]
        invariant forall i :: 0 <= i < x - 1 ==>
                    out[r0][i] == Decorated(grid[r0][i], (i + 1, y) in circled)
        invariant forall i :: x - 1 <= i < |grid[r0]| ==> out[r0][i] == grid[r0][i]
      {
        var cell := out[y - 1][x - 1];
        if (x, y) in circled && cell != Block {
          out := out[y - 1 := out[y - 1][x - 1 := Circled(cell)]];
        }
        x := x + 1;
      }
      y := y + 1;
    }
  }

  /** A non-block cell shows the number of the last numbered word that starts
      in its platform column `w - 1 - i` and row. */
  lemma CellNumberIsLastWordAtStart(p: PlatformPuzzle, r: int, i: int, j: nat)
    requires InBox(p, r, i) && p.box[p.w - 1 - i][r] != Nul
    requires j < |p.placedWords| && ClueNumber(p.placedWords[j]).Some?
    requires p.placedWords[j].x == p.w - 1 - i && p.placedWords[j].y == r
    requires forall k :: j < k < |p.placedWords| && p.placedWords[k].x == p.w - 1 - i && p.placedWords[k].y == r
               ==> ClueNumber(p.placedWords[k]).None?
    ensures CanonicalCell(p, NumberMap(p.placedWords, p.w), r, i) == Numbered(ClueNumber(p.placedWords[j]).value)
  {
    var words := p.placedWords;
    assert Mirror(p.w, words[j]) == (i + 1, r + 1);
    NumberMapLast(words, p.w, j);
  }

  /** A non-block cell where no numbered word starts shows 0. */
  lemma CellNumberZeroWithoutWord(p: PlatformPuzzle, r: int, i: int)
    requires InBox(p, r, i) && p.box[p.w - 1 - i][r] != Nul
    requires forall k :: 0 <= k < |p.placedWords| && p.placedWords[k].x == p.w - 1 - i && p.placedWords[k].y == r
               ==> ClueNumber(p.placedWords[k]).None?
    ensures CanonicalCell(p, NumberMap(p.placedWords, p.w), r, i) == Numbered(0)
  {
    NumberMapDomain(p.placedWords, p.w, (i + 1, r + 1));
  }

  /** Each clue list is sorted by number, holds the same entries, and keeps
      the word order among entries with equal numbers. */
  lemma ClueListSorted(words: seq<PlacedWord>, m: map<(int, int), int>, width: int, across: bool)
    requires AllResolved(words, m, width)
    ensures var es := Entries(words, m, width, across);
            var sorted := Sorting.SortBy(es, EntryNumber);
            && Sorting.SortedBy(sorted, EntryNumber)
            && multiset(sorted) == multiset(es)
            && forall v :: Sorting.WithKey(sorted, EntryNumber, v) == Sorting.WithKey(es, EntryNumber, v)
  {
    Sorting.SortByCorrect(Entries(words, m, width, across), EntryNumber);
  }

  /** The ipuz record `parse_to_ipuz` builds from `p`. */
  ghost predicate Describes(q: IpuzPuzzle, p: PlatformPuzzle)
    requires BoxFits(p) && AllResolved(p.placedWords, NumberMap(p.placedWords, p.w), p.w)
  {
    var m := NumberMap(p.placedWords, p.w);
    var circled := CircledPositions(p.cellInfos, p.w);
    && q.version == "http://ipuz.org/v2" && q.kind == ["http://ipuz.org/crossword#1"]
    && q.title == Text.Strip(p.title) && q.author == Text.Strip(p.author)
    && q.copyright == Text.Strip(p.copyright)
    && q.block == "#" && q.empty == "0" && q.width == p.w && q.height == p.h
    && !q.showEnumerations
    && |q.puzzle| == p.h && |q.solution| == p.h
    && (forall r :: 0 <= r < p.h ==> |q.puzzle[r]| == p.w && |q.solution[r]| == p.w)
    && (forall r, i :: 0 <= r < p.h && 0 <= i < p.w ==>
          InBox(p, r, i)
          && q.puzzle[r][i] == Decorated(CanonicalCell(p, m, r, i), (i + 1, r + 1) in circled)
          && q.solution[r][i] == CanonicalSolution(p, r, i))
    && q.across == Sorting.SortBy(Entries(p.placedWords, m, p.w, true), EntryNumber)
    && q.down == Sorting.SortBy(Entries(p.placedWords, m, p.w, false), EntryNumber)
  }

  /** `parse_to_ipuz`: the box error comes first, then an unresolved clue
      number; otherwise the record described above. */
  method ParseToIpuz(p: PlatformPuzzle) returns (res: Result<IpuzPuzzle, ParseError>)
    ensures !BoxFits(p) ==> res == Err(BoxIndexOutOfRange)
    ensures BoxFits(p) && !AllResolved(p.placedWords, NumberMap(p.placedWords, p.w), p.w) ==>
              res == Err(UnresolvedClueNumber)
    ensures res.Ok? <==> BoxFits(p) && AllResolved(p.placedWords, NumberMap(p.placedWords, p.w), p.w)
    ensures res.Ok? ==> Describes(res.value, p)
  {
    var title, author, copyright := Text.Strip(p.title), Text.Strip(p.author), Text.Strip(p.copyright);
    var m := BuildNumberMap(p.placedWords, p.w);
    var grids := BuildGrids(p, m);
    if grids.Err? {
      return Err(grids.error);
    }
    var clues := CollectClues(p.placedWords, m, p.w);
    if clues.Err? {
      return Err(clues.error);
    }
    var across := Sorting.SortBy(clues.value.0, EntryNumber);
    var down := Sorting.SortBy(clues.value.1, EntryNumber);
    var circled := CircledPositions(p.cellInfos, p.w);
    var puzzle := DecorateCircled(grids.value.puzzle, circled);
    res := Ok(IpuzPuzzle("http://ipuz.org/v2", ["http://ipuz.org/crossword#1"],
                         title, author, copyright, "#", "0", p.w, p.h,
                         puzzle, across, down, grids.value.solution, false));
  }

  /** Three letters in one row and a word numbered 1 starting in platform
      column 0: the number lands in the last canonical column and the
      letters read backwards. */
  lemma ThreeLetterRow()
    ensures var word := PlacedWord(0, 0, true, Some(ClueRecord(Some(1), Some("clue"))), None, None);
            var p := PlatformPuzzle("", "", "", 3, 1, [["A"], ["B"], ["C"]], [word], []);
            var m := NumberMap(p.placedWords, p.w);
            && BoxFits(p)
            && [CanonicalCell(p, m, 0, 0), CanonicalCell(p, m, 0, 1), CanonicalCell(p, m, 0, 2)]
               == [Numbered(0), Numbered(0), Numbered(1)]
            && [CanonicalSolution(p, 0, 0), CanonicalSolution(p, 0, 1), CanonicalSolution(p, 0, 2)]
               == [Some("C"), Some("B"), Some("A")]
  {
    var word := PlacedWord(0, 0, true, Some(ClueRecord(Some(1), Some("clue"))), None, None);
    assert [word][..0] == [];
    assert NumberMap([word], 3) == map[(3, 1) := 1];
  }
}
