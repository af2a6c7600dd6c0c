/**
 * The two character state machines of parser.c, run over the file's bytes
 * as a sequence: the puzzle description becomes board cells, and the word
 * list becomes a map from three-letter prefixes to the list of words that
 * start with them.
 */
module Parser {
  import opened Wrappers
  import HashMaps
  import Puzzles
  import LinkedLists

  /** `isalpha` in the C locale. */
  predicate IsAlpha(c: char)
  {
    ('a' <= c <= 'z') || ('A' <= c <= 'Z')
  }

  /**
   * The byte 0xFF: `fgetc` returns it as 255, the assignment to a (signed)
   * `char` makes it -1, and the comparison with EOF then ends the loop.
   */
  predicate IsEofByte(c: char)
  {
    (c as int) % 256 == 255
  }

  /**
   * What parse_dictionary_from_file leaves under each key: words of three or
   * more letters, each starting with its key.
   */
  ghost predicate Grouped(w: map<string, seq<string>>)
  {
    forall k, i :: k in w && 0 <= i < |w[k]| ==>
      |w[k][i]| >= 3 && w[k][i][..3] == k && forall j :: 0 <= j < |w[k][i]| ==> IsAlpha(w[k][i][j])
  }

  // ---------------------------------------------------------------------------
  // parse_puzzle_from_file

  /**
   * The loop state of parse_puzzle_from_file: the id of the cell being read,
   * how many letters it still expects, and the cell itself.
   */
  datatype PuzzleScan = PuzzleScan(id: int, expecting: int, cell: Puzzles.Cell)

  /** Before the first character: cell 0, of type 0 and without letters, expecting one letter. */
  const PuzzleStart := PuzzleScan(0, 1, Puzzles.Cell(0, 0, '\0', '\0'))

  /** '(' opens a paired cell (type 1) and '/' an alternative cell (type 2); either makes the cell expect two letters. */
  predicate IsMarker(ch: char)
  {
    ch == '(' || ch == '/'
  }

  /**
   * One turn of the loop, without its final size test: the next state, and
   * the cell handed to pz_add_cell when the current one got its last letter.
   * A letter goes to c1 while c1 is unset and to c2 after that.
   */
  function PuzzleStep(s: PuzzleScan, ch: char): (PuzzleScan, Option<Puzzles.Cell>)
  {
    if IsMarker(ch) then
      (s.(expecting := 2, cell := s.cell.(kind := if ch == '(' then 1 else 2)), None)
    else
      var s1 :=
        if s.expecting != 0 && IsAlpha(ch) then
          s.(expecting := s.expecting - 1,
             cell := if s.cell.c1 == '\0' then s.cell.(c1 := ch) else s.cell.(c2 := ch))
        else s;
      if s1.expecting == 0 then
        (PuzzleScan(s1.id + 1, 1, Puzzles.Cell(s1.id + 1, 0, '\0', '\0')), Some(s1.cell))
      else (s1, None)
  }

  /** pz_add_cell on the board's cells: a completed cell goes to the slot of its id, when there is one. */
  function Place(cells: seq<Puzzles.Cell>, added: Option<Puzzles.Cell>): seq<Puzzles.Cell>
  {
    if added.Some? && 0 <= added.value.id < |cells| then cells[added.value.id := added.value] else cells
  }

  /**
   * The board after the rest of the text is read from state s, and the final
   * state: the loop stops at the end of the text or at a 0xFF byte (EOF once
   * stored in a char), and after any character other than '(' and '/' once
   * the next id is off the board.
   */
  function ScanPuzzle(cells: seq<Puzzles.Cell>, s: PuzzleScan, text: seq<char>): (seq<Puzzles.Cell>, PuzzleScan)
    decreases |text|
  {
    if text == [] || IsEofByte(text[0]) then (cells, s)
    else
      var (next, added) := PuzzleStep(s, text[0]);
      var placed := Place(cells, added);
      if !IsMarker(text[0]) && next.id >= |cells| then (placed, next)
      else ScanPuzzle(placed, next, text[1..])
  }

  /**
   * parse_puzzle_from_file, on the file's characters: fill the board's cells
   * from left to right and top to bottom.
   */
  method ParsePuzzle(text: seq<char>, puzzle: Puzzles.Puzzle)
    requires puzzle.Valid()
    modifies puzzle.cells
    ensures puzzle.Valid()
    ensures puzzle.cells[..] == ScanPuzzle(old(puzzle.cells[..]), PuzzleStart, text).0
  {
    var id := 0;
    var expecting := 1;
    var cell := Puzzles.Cell(id, 0, '\0', '\0');
    var i := 0;
    while i < |text| && !IsEofByte(text[i])
      invariant 0 <= i <= |text| && puzzle.Valid()
      invariant ScanPuzzle(puzzle.cells[..], PuzzleScan(id, expecting, cell), text[i..]) ==
        ScanPuzzle(old(puzzle.cells[..]), PuzzleStart, text)
    {
      var ch := text[i];
      if ch == '(' || ch == '/' {
        expecting := 2;
        cell := cell.(kind := if ch == '(' then 1 else 2);
        i := i + 1;
        continue;
      }
      if expecting != 0 && IsAlpha(ch) {
        if cell.c1 == '\0' {
          cell := cell.(c1 := ch);
        } else {
          cell := cell.(c2 := ch);
        }
        expecting := expecting - 1;
      }
      if expecting == 0 {
        puzzle.AddCell(cell);
        expecting := 1;
        id := id + 1;
        cell := Puzzles.Cell(id, 0, '\0', '\0');
      }
      if id >= puzzle.size * puzzle.size {
        break;
      }
      i := i + 1;
    }
  }

  /** A cell the parser completed: a letter in c1, and a second letter in c2 exactly when its type is 1 or 2. */
  predicate Filled(c: Puzzles.Cell)
  {
    && IsAlpha(c.c1) && (c.kind == 0 || c.kind == 1 || c.kind == 2)
    && (c.kind == 0 ==> c.c2 == '\0') && (c.kind != 0 ==> IsAlpha(c.c2))
  }

  /**
   * What holds of the loop state between characters: the cell carries the
   * current id; a type-0 cell has no letter yet and expects one; a cell that
   * expects one more letter after a marker already has its first.
   */
  predicate ScanOk(s: PuzzleScan)
  {
    && s.id >= 0 && s.cell.id == s.id && (s.expecting == 1 || s.expecting == 2)
    && (s.cell.kind == 0 || s.cell.kind == 1 || s.cell.kind == 2)
    && (s.cell.c1 == '\0' || IsAlpha(s.cell.c1)) && (s.cell.c2 == '\0' || IsAlpha(s.cell.c2))
    && (s.cell.kind == 0 ==> s.expecting == 1 && s.cell.c1 == '\0' && s.cell.c2 == '\0')
    && (s.expecting == 1 && s.cell.kind != 0 ==> s.cell.c1 != '\0')
  }

  /** One turn keeps the state well formed; the cell it completes is filled and carries the current id, and the id moves on by one. */
  lemma PuzzleStepOk(s: PuzzleScan, ch: char)
    requires ScanOk(s)
    ensures var (next, added) := PuzzleStep(s, ch);
      && ScanOk(next)
      && (added.Some? ==> Filled(added.value) && added.value.id == s.id && next.id == s.id + 1)
      && (added.None? ==> next.id == s.id)
  {
  }

  /**
   * Scanning the rest of the text completes cells s.id, s.id + 1, ... in
   * turn: afterwards every slot below the final id holds a filled cell with
   * that id, every other slot is as it was, and the final id does not pass
   * the board's size.
   */
  lemma {:induction false} ScanPuzzleFills(cells: seq<Puzzles.Cell>, s: PuzzleScan, text: seq<char>)
    requires ScanOk(s)
    requires forall j :: 0 <= j < |cells| ==> cells[j].id == j && (j < s.id ==> Filled(cells[j]))
    ensures var (r, e) := ScanPuzzle(cells, s, text);
      && |r| == |cells| && ScanOk(e) && e.id >= s.id
      && (s.id < |cells| ==> e.id <= |cells|)
      && forall j :: 0 <= j < |r| ==> r[j].id == j && (j < e.id ==> Filled(r[j])) && (j >= e.id ==> r[j] == cells[j])
    decreases |text|
  {
    if text != [] && !IsEofByte(text[0]) {
      var (next, added) := PuzzleStep(s, text[0]);
      PuzzleStepOk(s, text[0]);
      var placed := Place(cells, added);
      if IsMarker(text[0]) || next.id < |cells| {
        ScanPuzzleFills(placed, next, text[1..]);
      }
    }
  }

  /** The cells of a board of n cells as pz_create leaves them: cell j with id j, type 0 and no letters. */
  function Blank(n: nat): (cells: seq<Puzzles.Cell>)
    ensures |cells| == n && forall j :: 0 <= j < n ==> cells[j] == Puzzles.Cell(j, 0, '\0', '\0')
  {
    seq(n, j => Puzzles.Cell(j, 0, '\0', '\0'))
  }

  /**
   * On a fresh board parse_puzzle_from_file fills cells 0 .. k-1 for some k
   * no larger than the board, each with a letter (two for types 1 and 2),
   * and leaves the others as pz_create made them.
   */
  lemma ParsedBoard(n: nat, text: seq<char>)
    requires n > 0
    ensures var r := ScanPuzzle(Blank(n), PuzzleStart, text);
      && |r.0| == n && 0 <= r.1.id <= n
      && forall j :: 0 <= j < n ==>
        if j < r.1.id then r.0[j].id == j && Filled(r.0[j]) else r.0[j] == Puzzles.Cell(j, 0, '\0', '\0')
  {
    ScanPuzzleFills(Blank(n), PuzzleStart, text);
  }

  /** A single letter, a "(qu" pair and an "/ie" alternative fill the first three cells of a 2 x 2 board in order. */
  lemma ParseExample()
    ensures ScanPuzzle(Empty4, PuzzleStart, "a(qu/ie").0 ==
      [Puzzles.Cell(0, 0, 'a', Nul), Puzzles.Cell(1, 1, 'q', 'u'), Puzzles.Cell(2, 2, 'i', 'e'), Puzzles.Cell(3, 0, Nul, Nul)]
  {
    ParseExampleHead();
    ParseExampleTail();
  }

  /** The first two cells of the example: a plain letter, then a two-letter cell. */
  lemma ParseExampleHead()
    ensures ScanPuzzle(Empty4, PuzzleStart, "a(qu/ie") ==
      ScanPuzzle(Empty4[0 := Puzzles.Cell(0, 0, 'a', Nul)][1 := Puzzles.Cell(1, 1, 'q', 'u')], PuzzleScan(2, 1, Puzzles.Cell(2, 0, Nul, Nul)), "/ie")
  {
    var c1 := Empty4[0 := Puzzles.Cell(0, 0, 'a', Nul)];
    calc {
      ScanPuzzle(Empty4, PuzzleStart, "a(qu/ie");
      ScanPuzzle(c1, PuzzleScan(1, 1, Puzzles.Cell(1, 0, Nul, Nul)), "(qu/ie");
      ScanPuzzle(c1, PuzzleScan(1, 2, Puzzles.Cell(1, 1, Nul, Nul)), "qu/ie");
      ScanPuzzle(c1, PuzzleScan(1, 1, Puzzles.Cell(1, 1, 'q', Nul)), "u/ie");
    }
  }

  /** The third cell of the example, written with the either-or marker. */
  lemma ParseExampleTail()
    ensures ScanPuzzle(Empty4[0 := Puzzles.Cell(0, 0, 'a', Nul)][1 := Puzzles.Cell(1, 1, 'q', 'u')], PuzzleScan(2, 1, Puzzles.Cell(2, 0, Nul, Nul)), "/ie").0 ==
      [Puzzles.Cell(0, 0, 'a', Nul), Puzzles.Cell(1, 1, 'q', 'u'), Puzzles.Cell(2, 2, 'i', 'e'), Puzzles.Cell(3, 0, Nul, Nul)]
  {
    var c2 := Empty4[0 := Puzzles.Cell(0, 0, 'a', Nul)][1 := Puzzles.Cell(1, 1, 'q', 'u')];
    var c3 := c2[2 := Puzzles.Cell(2, 2, 'i', 'e')];
    calc {
      ScanPuzzle(c2, PuzzleScan(2, 1, Puzzles.Cell(2, 0, Nul, Nul)), "/ie");
      ScanPuzzle(c2, PuzzleScan(2, 2, Puzzles.Cell(2, 2, Nul, Nul)), "ie");
      ScanPuzzle(c2, PuzzleScan(2, 1, Puzzles.Cell(2, 2, 'i', Nul)), "e");
      ScanPuzzle(c3, PuzzleScan(3, 1, Puzzles.Cell(3, 0, Nul, Nul)), "");
    }
  }

  const Nul: char := '\0'
  const Empty4 := [Puzzles.Cell(0, 0, Nul, Nul), Puzzles.Cell(1, 0, Nul, Nul), Puzzles.Cell(2, 0, Nul, Nul), Puzzles.Cell(3, 0, Nul, Nul)]

  // ---------------------------------------------------------------------------
  // parse_dictionary_from_file

  /** The list under a word's first three letters grows by the word at its tail; a new key starts a list. */
  function AddWord(w: map<string, seq<string>>, word: string): (r: map<string, seq<string>>)
    requires |word| >= 3
  {
    var key := word[..3];
    w[key := (if key in w then w[key] else []) + [word]]
  }

  /**
   * The dictionary after the rest of the text is read, given the letters
   * collected so far on the current line and whether that line is still
   * being read: letters are collected until the first other character of the
   * line, and a '\n' files the collected word when it has three letters or
   * more. The loop stops at the end of the text or at a 0xFF byte, so a last
   * line without a '\n' is not filed.
   */
  function ScanDictionary(w: map<string, seq<string>>, word: seq<char>, reading: bool, text: seq<char>, i: nat): map<string, seq<string>>
    decreases |text| - i
  {
    if i >= |text| || IsEofByte(text[i]) then w
    else
      var ch := text[i];
      var collected := if IsAlpha(ch) && reading then word + [ch] else word;
      if ch == '\n' then
        ScanDictionary(if |collected| >= 3 then AddWord(w, collected) else w, [], true, text, i + 1)
      else ScanDictionary(w, collected, IsAlpha(ch) && reading, text, i + 1)
  }

  /** The resolver that makes insert_data store the new list: the in-place ll_enqueue on the list held in the map. */
  function KeepNew(old_words: seq<string>, new_words: seq<string>): seq<string>
  {
    new_words
  }

  /**
   * The end of a line of at least three letters: create an empty list under
   * the prefix when there is none, then append the word to the list there.
   */
  method FileWord(hm: HashMaps.HashMap<seq<string>>, key: string, word: string)
    requires hm.Valid() && |word| >= 3 && key == word[..3] && hm.hashFunction.requires(key)
    modifies hm, hm.buckets
    ensures hm.Valid() && hm.buckets == old(hm.buckets) && hm.hashFunction == old(hm.hashFunction)
    ensures hm.contents == AddWord(old(hm.contents), word)
  {
    ghost var w0 := hm.contents;
    ghost var listed := if key in w0 then w0[key] else [];
    var bucket := hm.GetBucket(key);
    if bucket.None? {
      hm.InsertData(key, [], None);
    }
    assert key in hm.contents && hm.contents[key] == listed;
    assert hm.contents[key := listed + [word]] == AddWord(w0, word);
    var words := hm.GetData(key);
    hm.InsertData(key, words.value + [word], Some(KeepNew));
  }

  /** The prefix buffer holds the first letters of the word collected so far, at most three of them. */
  ghost predicate Buffered(prefix: array<char>, pos: int, word: LinkedLists.LinkedList<char>)
    reads prefix, word
  {
    prefix.Length == 4 && pos == (if |word.elements| < 3 then |word.elements| else 3)
    && prefix[..pos] == word.elements[..pos]
  }

  /** The '\n' branch of parse_dictionary_from_file: file the line's word when it has three letters or more, then clear it. */
  method EndLine(hm: HashMaps.HashMap<seq<string>>, prefix: array<char>, pos: int, word: LinkedLists.LinkedList<char>)
    requires hm.Valid() && forall k: string :: |k| == 3 ==> hm.hashFunction.requires(k)
    requires Buffered(prefix, pos, word)
    modifies hm, hm.buckets, word
    ensures hm.Valid() && hm.buckets == old(hm.buckets) && hm.hashFunction == old(hm.hashFunction)
    ensures word.elements == []
    ensures hm.contents == if |old(word.elements)| >= 3 then AddWord(old(hm.contents), old(word.elements)) else old(hm.contents)
  {
    if pos > 2 {
      FileWord(hm, prefix[..3], word.elements);
    }
    word.Clear(true);
  }

  /** One character of the dictionary text: the body of parse_dictionary_from_file's loop. */
  method ReadChar(hm: HashMaps.HashMap<seq<string>>, prefix: array<char>, pos: int, word: LinkedLists.LinkedList<char>,
                  reading: bool, text: seq<char>, i: nat) returns (pos': int, reading': bool)
    requires hm.Valid() && forall k: string :: |k| == 3 ==> hm.hashFunction.requires(k)
    requires Buffered(prefix, pos, word)
    requires i < |text| && !IsEofByte(text[i])
    modifies hm, hm.buckets, word, prefix
    ensures hm.Valid() && hm.buckets == old(hm.buckets) && hm.hashFunction == old(hm.hashFunction)
    ensures Buffered(prefix, pos', word)
    ensures ScanDictionary(hm.contents, word.elements, reading', text, i + 1) == ScanDictionary(old(hm.contents), old(word.elements), reading, text, i)
  {
    var ch := text[i];
    pos', reading' := pos, reading;
    if IsAlpha(ch) && reading {
      if pos <= 2 {
        prefix[pos] := ch;
        pos' := pos + 1;
      }
      word.Enqueue(ch);
      assert word.elements[..pos'] == old(word.elements)[..pos] + [ch] || pos' == pos;
    } else {
      reading' := false;
    }
    if ch == '\n' {
      EndLine(hm, prefix, pos', word);
      reading' := true;
      pos' := 0;
    }
  }

  /**
   * parse_dictionary_from_file, on the file's characters: collect each line's
   * leading letters (the first three also into the prefix buffer) and, at the
   * line's '\n', append the word to the list under its prefix, creating the
   * list when the prefix is new.
   */
  method ParseDictionary(text: seq<char>, hm: HashMaps.HashMap<seq<string>>)
    requires hm.Valid() && forall k: string :: |k| == 3 ==> hm.hashFunction.requires(k)
    modifies hm, hm.buckets
    ensures hm.Valid() && hm.hashFunction == old(hm.hashFunction)
    ensures hm.contents == ScanDictionary(old(hm.contents), [], true, text, 0)
  {
    var prefix := new char[4](_ => '\0');
    var word := new LinkedLists.LinkedList<char>();
    var pos := 0;
    var reading := true;
    var i := 0;
    while i < |text| && !IsEofByte(text[i])
      invariant 0 <= i <= |text|
      invariant hm.Valid() && hm.buckets == old(hm.buckets) && hm.hashFunction == old(hm.hashFunction)
      invariant Buffered(prefix, pos, word)
      invariant ScanDictionary(hm.contents, word.elements, reading, text, i) == ScanDictionary(old(hm.contents), [], true, text, 0)
    {
      pos, reading := ReadChar(hm, prefix, pos, word, reading, text, i);
      i := i + 1;
    }
  }

  // ---------------------------------------------------------------------------
  // The dictionary file, read line by line

  /**
   * Where the line starting at position i ends: at its '\n', or where the
   * reader stops (the end of the text or a 0xFF byte).
   */
  function LineEnd(text: seq<char>, i: nat): (e: nat)
    requires i <= |text|
    ensures i <= e <= |text|
    ensures forall k :: i <= k < e ==> text[k] != '\n' && !IsEofByte(text[k])
    ensures e < |text| ==> text[e] == '\n' || IsEofByte(text[e])
    decreases |text| - i
  {
    if i == |text| || text[i] == '\n' || IsEofByte(text[i]) then i else LineEnd(text, i + 1)
  }

  /** The letters a line starts with, up to its first character that is not a letter. */
  function Leading(line: seq<char>): (r: seq<char>)
    ensures forall j :: 0 <= j < |r| ==> IsAlpha(r[j])
  {
    if line == [] || !IsAlpha(line[0]) then [] else [line[0]] + Leading(line[1..])
  }

  /**
   * The words the text holds from position i on: the leading letters of each
   * line that ends in '\n', when there are three or more of them; a last line
   * the reader stops in is not among them.
   */
  function Entries(text: seq<char>, i: nat): seq<string>
    requires i <= |text|
    decreases |text| - i
  {
    var e := LineEnd(text, i);
    if e < |text| && text[e] == '\n' then
      var x := Leading(text[i..e]);
      (if |x| >= 3 then [x] else []) + Entries(text, e + 1)
    else []
  }

  /** A dictionary word: three letters or more. */
  predicate Word(x: string)
  {
    |x| >= 3 && forall j :: 0 <= j < |x| ==> IsAlpha(x[j])
  }

  /** Every entry is a word of three letters or more. */
  lemma {:induction false} EntriesWords(text: seq<char>, i: nat)
    requires i <= |text|
    ensures forall k :: 0 <= k < |Entries(text, i)| ==> Word(Entries(text, i)[k])
    decreases |text| - i
  {
    var e := LineEnd(text, i);
    if e < |text| && text[e] == '\n' {
      EntriesWords(text, e + 1);
      var x, rest := Leading(text[i..e]), Entries(text, e + 1);
      var head := if |x| >= 3 then [x] else [];
      assert Entries(text, i) == head + rest;
      forall k | 0 <= k < |head + rest|
        ensures Word((head + rest)[k])
      {
        if k < |head| {
          assert (head + rest)[k] == x;
        } else {
          assert (head + rest)[k] == rest[k - |head|];
        }
      }
    }
  }

  /** The dictionary after filing the words ws in order. */
  function Group(w: map<string, seq<string>>, ws: seq<string>): map<string, seq<string>>
    decreases |ws|
  {
    if ws == [] then w else Group(File(w, ws[0]), ws[1..])
  }

  /** The words of ws that start with key, in order. */
  function Filter(ws: seq<string>, key: string): seq<string>
  {
    if ws == [] then []
    else (if |ws[0]| >= 3 && ws[0][..3] == key then [ws[0]] else []) + Filter(ws[1..], key)
  }

  /** Filter keeps exactly the words that start with the key. */
  lemma {:induction false} FilterMembers(ws: seq<string>, key: string, x: string)
    ensures x in Filter(ws, key) <==> x in ws && |x| >= 3 && x[..3] == key
  {
    if ws != [] {
      FilterMembers(ws[1..], key, x);
      assert ws == [ws[0]] + ws[1..];
    }
  }

  /** The dictionary after the word collected on a line is filed at its '\n'. */
  function File(w: map<string, seq<string>>, word: string): map<string, seq<string>>
  {
    if |word| >= 3 then AddWord(w, word) else w
  }

  /**
   * Reading from position i to the end of the current line: when the line
   * ends in '\n', the collected letters plus the line's leading letters
   * (while still reading) are filed and reading resumes after it; when the
   * reader stops first, the dictionary is unchanged.
   */
  lemma {:induction false} ScanLine(w: map<string, seq<string>>, word: seq<char>, reading: bool, text: seq<char>, i: nat)
    requires i <= |text|
    ensures var e := LineEnd(text, i);
      if e < |text| && text[e] == '\n' then
        ScanDictionary(w, word, reading, text, i)
        == ScanDictionary(File(w, word + (if reading then Leading(text[i..e]) else [])), [], true, text, e + 1)
      else ScanDictionary(w, word, reading, text, i) == w
    decreases |text| - i
  {
    var e := LineEnd(text, i);
    if e == i {
      assert text[i..e] == [] && Leading([]) == [];
      assert word + [] == word;
      if e < |text| && text[e] == '\n' {
        assert !IsAlpha(text[i]) && !IsEofByte(text[i]);
        assert ScanDictionary(w, word, reading, text, i) == ScanDictionary(File(w, word), [], true, text, i + 1);
      }
    } else {
      var ch := text[i];
      var reading' := IsAlpha(ch) && reading;
      var word' := if reading' then word + [ch] else word;
      ScanLine(w, word', reading', text, i + 1);
      ScanChar(w, word, reading, text, i);
      if e < |text| && text[e] == '\n' {
        LeadingStep(text, i, e);
        if reading' {
          assert word' + Leading(text[i + 1..e]) == word + Leading(text[i..e]);
        } else if reading {
          assert Leading(text[i..e]) == [];
        }
      }
    }
  }

  /** One character of a line, before its end, in the dictionary scan. */
  lemma ScanChar(w: map<string, seq<string>>, word: seq<char>, reading: bool, text: seq<char>, i: nat)
    requires i < |text| && text[i] != '\n' && !IsEofByte(text[i])
    ensures var reading' := IsAlpha(text[i]) && reading;
      ScanDictionary(w, word, reading, text, i) == ScanDictionary(w, if reading' then word + [text[i]] else word, reading', text, i + 1)
  {
  }

  /** A line's leading letters, one position on. */
  lemma LeadingStep(text: seq<char>, i: nat, e: nat)
    requires i < e <= |text|
    ensures Leading(text[i..e]) == if IsAlpha(text[i]) then [text[i]] + Leading(text[i + 1..e]) else []
  {
    assert text[i..e][1..] == text[i + 1..e];
  }

  /** The dictionary scan files exactly the entries of the text's complete lines, in order. */
  lemma {:induction false} ScanIsGroup(w: map<string, seq<string>>, text: seq<char>, i: nat)
    requires i <= |text|
    ensures ScanDictionary(w, [], true, text, i) == Group(w, Entries(text, i))
    decreases |text| - i
  {
    var e := LineEnd(text, i);
    if e < |text| && text[e] == '\n' {
      var x := Leading(text[i..e]);
      ScanLine(w, [], true, text, i);
      assert [] + x == x;
      ScanIsGroup(File(w, x), text, e + 1);
      GroupStep(w, text, i);
    } else {
      ScanLine(w, [], true, text, i);
      assert Entries(text, i) == [];
    }
  }

  /** Filing the entries from a line that ends in '\n': its word, when long enough, then those after it. */
  lemma GroupStep(w: map<string, seq<string>>, text: seq<char>, i: nat)
    requires i <= |text| && LineEnd(text, i) < |text| && text[LineEnd(text, i)] == '\n'
    ensures var e := LineEnd(text, i);
      Group(w, Entries(text, i)) == Group(File(w, Leading(text[i..e])), Entries(text, e + 1))
  {
    var e := LineEnd(text, i);
    EntriesStep(text, i);
    GroupFiled(w, Leading(text[i..e]), Entries(text, e + 1));
  }

  /** The entries from a line that ends in '\n': its word, when long enough, then those after it. */
  lemma EntriesStep(text: seq<char>, i: nat)
    requires i <= |text| && LineEnd(text, i) < |text| && text[LineEnd(text, i)] == '\n'
    ensures var e := LineEnd(text, i); var x := Leading(text[i..e]);
      Entries(text, i) == (if |x| >= 3 then [x] else []) + Entries(text, e + 1)
  {
  }

  /** Filing one line's word, when long enough, and then the rest. */
  lemma GroupFiled(w: map<string, seq<string>>, x: string, rest: seq<string>)
    ensures Group(w, (if |x| >= 3 then [x] else []) + rest) == Group(File(w, x), rest)
  {
    if |x| >= 3 {
      assert ([x] + rest)[1..] == rest;
    } else {
      assert [] + rest == rest;
    }
  }

  /** Under key k the filed words follow the old list, in their order; a key no word starts with is not added. */
  lemma {:induction false} GroupLookup(w: map<string, seq<string>>, ws: seq<string>, k: string)
    ensures k in Group(w, ws) <==> k in w || Filter(ws, k) != []
    ensures k in Group(w, ws) ==> Group(w, ws)[k] == (if k in w then w[k] else []) + Filter(ws, k)
    decreases |ws|
  {
    if ws != [] {
      var x, rest := ws[0], ws[1..];
      var a := File(w, x);
      GroupLookup(a, rest, k);
      var base := if k in w then w[k] else [];
      if |x| >= 3 && x[..3] == k {
        assert Filter(ws, k) == [x] + Filter(rest, k);
        assert a[k] == base + [x];
        assert (base + [x]) + Filter(rest, k) == base + ([x] + Filter(rest, k));
      } else {
        assert Filter(ws, k) == [] + Filter(rest, k);
        assert (k in a <==> k in w) && (k in a ==> a[k] == base);
      }
    }
  }

  /** Filing alphabetic words keeps the dictionary grouped (words shorter than three letters are not filed). */
  lemma {:induction false} GroupGrouped(w: map<string, seq<string>>, ws: seq<string>)
    requires Grouped(w)
    requires forall k :: 0 <= k < |ws| ==> forall j :: 0 <= j < |ws[k]| ==> IsAlpha(ws[k][j])
    ensures Grouped(Group(w, ws))
    decreases |ws|
  {
    if ws != [] {
      var a := File(w, ws[0]);
      forall k, i | k in a && 0 <= i < |a[k]|
        ensures |a[k][i]| >= 3 && a[k][i][..3] == k && forall j :: 0 <= j < |a[k][i]| ==> IsAlpha(a[k][i][j])
      {
        if |ws[0]| >= 3 && k == ws[0][..3] && i == |a[k]| - 1 {
          assert a[k][i] == ws[0];
        } else {
          assert k in w && a[k][i] == w[k][i];
        }
      }
      GroupGrouped(a, ws[1..]);
    }
  }

  /**
   * The dictionary parse_dictionary_from_file builds from an empty map: under
   * each three-letter key, the entries of the text's complete lines that start
   * with it, in the order of the file; every entry is a word of three letters
   * or more that starts with its key.
   */
  lemma ParsedDictionary(text: seq<char>)
    ensures var d := ScanDictionary(map[], [], true, text, 0);
      var ws := Entries(text, 0);
      && Grouped(d)
      && (forall k :: k in d <==> Filter(ws, k) != [])
      && (forall k :: k in d ==> d[k] == Filter(ws, k))
      && (forall k, x :: k in d ==> (x in d[k] <==> x in ws && |x| >= 3 && x[..3] == k))
  {
    ScanIsGroup(map[], text, 0);
    var ws := Entries(text, 0);
    forall k {
      GroupLookup(map[], ws, k);
    }
    forall k, x {
      FilterMembers(ws, k, x);
    }
    EntriesWords(text, 0);
    GroupGrouped(map[], ws);
  }

  /** A last line without '\n' is never filed: of "cat\ndog" only "cat" is read. */
  lemma UnterminatedLastLine(text: seq<char>)
    requires text == "cat\ndog"
    ensures ScanDictionary(map[], [], true, text, 0) == map["cat" := ["cat"]]
  {
    var m := map["cat" := ["cat"]];
    assert |text| == 7 && text[3] == '\n';
    assert text[0] == 'c' && text[1] == 'a' && text[2] == 't';
    assert text[4] == 'd' && text[5] == 'o' && text[6] == 'g';
    assert "cat"[..3] == "cat" && [] + ["cat"] == ["cat"];
    assert AddWord(map[], "cat") == m;
    assert [] + "c" == "c" && "c" + "a" == "ca" && "ca" + "t" == "cat";
    assert [] + "d" == "d" && "d" + "o" == "do" && "do" + "g" == "dog";
    calc {
      ScanDictionary(map[], [], true, text, 0);
      { ScanChar(map[], [], true, text, 0); }
      ScanDictionary(map[], "c", true, text, 1);
      { ScanChar(map[], "c", true, text, 1); }
      ScanDictionary(map[], "ca", true, text, 2);
      { ScanChar(map[], "ca", true, text, 2); }
      ScanDictionary(map[], "cat", true, text, 3);
      ScanDictionary(m, [], true, text, 4);
      { ScanChar(m, [], true, text, 4); }
      ScanDictionary(m, "d", true, text, 5);
      { ScanChar(m, "d", true, text, 5); }
      ScanDictionary(m, "do", true, text, 6);
      { ScanChar(m, "do", true, text, 6); }
      ScanDictionary(m, "dog", true, text, 7);
      m;
    }
  }

}
