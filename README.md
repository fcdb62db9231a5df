# wordgo, modelled in Dafny

wordgo solves letter grids: it loads a dictionary of words into a trie and reads a letter
matrix whose upper-case cells are "specials". It then scans every start cell in eight
directions for dictionary words, deduplicating what it finds. `RemoveLetters` deletes
cells and lets each column fall down. `main.go` is an older snapshot that grows
non-self-intersecting paths over a board. A Python script fetches and normalises the word
list the dictionary is built from.

The model has one module per source file:

- `Directions` (`directions.dfy`, directions.go): the tag constants and `NewDirections`, over a
  class that holds the package variable.
- `Coords` (`coord.dfy`, coord.go): `Coord.next`, a pure step function.
- `Trie` (`dictionary.dfy`, dictionary.go): the dictionary as a class.
  - Its trie is an arena of nodes: a node index plays the part of a `*TrieNode`, and 0 is the root.
  - `InsertIntoTrie`, `IsPrefix` and `IsWord` are the source's loops. They are proved against
    the lookup function `Find` and against the set of inserted words.
- `Matrix` (`matrix.dfy`, matrix.go): the letter matrix as a class over a fixed-size 2-D array.
  - The constructor pads the rows and records specials.
  - `RemoveLetters` marks and settles the cells in place. It is proved against a column-wise
    function, `Collapse`.
- `SimpleSearch` (`search.dfy`, simple_search.go): the searcher as a class.
  - It holds the ray scan and the deduplicating `addResult`.
  - `SearchAllWords` queues the jobs and then drains them one at a time.
- `Walker` (`walker.dfy`, main.go): the board-global step, `hasVisitedCell`, `canWalk` and the
  validator stubs.
- `WordList` (`wordlist.dfy`, scripts/fetch_wordlist.py): `build_pattern`, `normalize_words`,
  the sorted output of `write_output`, and the `--max-length` mapping.
- `Wrappers` and `Text` (`text.dfy`): `Option`/`Result`, plus the library string functions the
  sources call.
  - Go: `strings.ToUpper`, `strings.TrimSpace`, `strings.Split`, `len` in bytes, `%d`.
  - Python: `str.strip`, `str.lower`, code-point string order.

Two behaviours of the code differ from what its names suggest, and the model follows the code:

- `Coord.next` names its errors after the wrong bounds. A row below 0 gives
  `ErrOutOfBoundariesLeft`, a row past the end gives `Right`, a column below 0 gives `Top`, and
  a column past the end gives `Bottom`.
- The tag list is not fixed data. `NewDirections` rebuilds the package variable and returns 16
  entries, not 8 (see Findings).

## Model

| member | source | states |
|---|---|---|
| Directions.CompassTags | directions.go:3-12 | the eight tags are pairwise distinct, and each diagonal tag is its vertical letter followed by its horizontal letter |
| Directions.Registry.constructor | directions.go:15 | the package variable starts as an empty (nil) slice |
| Directions.Registry.NewDirections | directions.go:17-30 | the result is the package variable; it has 16 entries, the first 8 empty, then L, TL, T, TR, R, BR, B, BL; each call replaces the slice rather than adding to it |
| Directions.Registry.NewDirectionsIntended | directions.go:17-30 | the corrected constructor: exactly the eight tags in that order, none of them empty |
| Coords.Next | coord.go:20-51 | a success is the input displaced by the tag; from an in-bounds cell a success stays in bounds; `Left` is returned exactly when the tag has T and the row is 0 or less; each other error needs its letter (B, L, R), and `Top` also needs the column to be 0 or less |
| Coords.NextWellFormed | coord.go:20-51 | from an in-bounds cell with a well-formed tag, the step succeeds iff the displaced cell is in bounds; each error holds iff its letter is present and the cell sits on that bound; row errors come before column errors |
| Coords.NextMovesOneCell | coord.go:24-47 | every successful step moves at most one row and at most one column |
| Coords.NextWithoutLetters | coord.go:22-50 | a tag with none of T, B, L, R (the empty entries of NewDirections) returns the input coordinate |
| Coords.NextTopLeftFromOrigin | coord.go:24-41 | TL from (0,0) fails with the row error, because the T check runs first |
| Coords.Opposite | coord.go:24-47 | the opposite tag has the same length as the tag |
| Coords.OppositeLetters | coord.go:24-47 | the opposite tag has T iff the tag has B, B iff T, L iff R, and R iff L |
| Coords.NextThenOpposite | coord.go:24-47 | a successful step followed by the opposite tag returns to the start cell |
| Trie.FindLabel | dictionary.go:74-95 | the node a walk reaches is the one whose path label is the walked sequence |
| Trie.FindDepth | dictionary.go:52-61 | nodes are created after their parents, so the node a sequence reaches has an index of at least its length |
| Trie.FindPrefixClosed | dictionary.go:74-83 | if a sequence can be walked, so can each of its prefixes |
| Trie.FindStable | dictionary.go:52-61 | growing the trie never changes where an existing walk ends |
| Trie.TrieAnswers | dictionary.go:74-95 | on a trie built from a set of words: a sequence is a prefix iff it is empty or begins an inserted word, and it is a word iff it was inserted; a proper prefix that was not inserted is not a word, and a sequence that begins no word is neither |
| Trie.PrefixInClosed | dictionary.go:74-83 | if `s+[c]` is a prefix then `s` is a prefix |
| Trie.QueriesStable | dictionary.go:52-61 | growing the trie keeps every prefix a prefix and every word a word |
| Trie.Ins | dictionary.go:52-61 | insertion never shrinks the node arena, and child indices stay in range |
| Trie.InsKeeps | dictionary.go:52-61 | insertion keeps the trie invariant, now over the old words plus the new one; it only adds nodes and marks; re-inserting a word changes nothing |
| Trie.InsertThenQuery | dictionary.go:52-61 | after inserting `w`, IsWord(w) holds and IsPrefix(p) holds for every prefix `p` of `w`, the empty one and `w` included |
| Trie.LoadLineShape | dictionary.go:37-38 | a word the loader takes from a line is non-empty, has at least `minWordLength` bytes, is trimmed, and has no lower-case ASCII letter |
| Trie.LoadedWordsSpec | dictionary.go:36-41 | a word is loaded iff some line's upper-cased, trimmed form is that word and passes the length check |
| Trie.LoadedWordsShape | dictionary.go:36-41 | every loaded word is non-empty, long enough, trimmed and upper-folded |
| Trie.Dictionary.Empty | dictionary.go:30-33 | the new dictionary has no words and a trie that is a bare root |
| Trie.Dictionary.InsertIntoTrie | dictionary.go:52-61 | the trie afterwards is the insertion function's result; the inserted-word set gains the word; the trie only grows; `words` is unchanged; inserting a word already present changes nothing |
| Trie.InsertWalk | dictionary.go:52-61 | the walk that creates each missing child and marks the last node yields exactly the insertion function's arena |
| Trie.Dictionary.AddLine | dictionary.go:37-41 | one line of the loop: the word set gains the line's upper-cased, trimmed form exactly when it is non-empty and long enough, and the trie keeps holding the same words as the word set |
| Trie.Dictionary.IsPrefix | dictionary.go:74-83 | the answer is whether the walk succeeds, which is true iff the sequence is empty or begins an inserted word |
| Trie.Dictionary.IsWord | dictionary.go:86-95 | the answer is whether the walk ends on a marked node, which is true iff the sequence was inserted |
| Trie.Dictionary.Contains | dictionary.go:64-66 | true iff the upper-cased word is in `words`; on a loaded dictionary, iff the trie has the upper-cased word |
| Trie.Dictionary.ContainsUpped | dictionary.go:69-71 | true iff the word is in `words` as given; on a loaded dictionary, iff the trie has it |
| Trie.Dictionary.TrieAnswersFor | dictionary.go:74-95 | TrieAnswers, stated for this dictionary's trie and inserted words |
| Trie.NewDictionary | dictionary.go:23-49 | the loaded dictionary's `words` are exactly the filtered lines, and its trie holds exactly those words |
| Trie.ContainsFoldsCase | dictionary.go:64-71 | Contains(w) equals ContainsUpped(ToUpper(w)); ContainsUpped only accepts upper-folded words |
| Matrix.Padded | matrix.go:89-98 | the padded grid has one row per input row, each of the given width |
| Matrix.PaddedKeepsRows | matrix.go:89-98 | a padded row is the original row followed by spaces |
| Matrix.ConcatRowsSpec | matrix.go:89-106 | a label is in the concatenation iff some row contributes it |
| Matrix.RowSpecialsSpec | matrix.go:100-105 | a row lists a label iff it is `(i+1,j+1)` for an upper-case cell `j` |
| Matrix.SpecialsSpec | matrix.go:89-106 | a label is a special iff it names an upper-case cell; labels come in row-major order |
| Matrix.WidestIsMax | matrix.go:44-53 | maxCols is at least every row's length and is one of them, or 0 for no rows |
| Matrix.NonEmptyLinesSpec | matrix.go:44-53 | the kept lines are exactly the non-empty input lines, and none remain iff every line is empty |
| Matrix.Collapse | matrix.go:142-151 | settling keeps a column's length |
| Matrix.CollapseShape | matrix.go:142-151 | a settled column is one space per removed cell followed by the remaining cells in their original order |
| Matrix.CollapseRemovesMarks | matrix.go:142-151 | no cell holds '-' after settling |
| Matrix.CollapseUnmarked | matrix.go:142-151 | a column without '-' is left as it is |
| Matrix.CollapseIdempotent | matrix.go:142-151 | settling twice is settling once |
| Matrix.Partial | matrix.go:142-151 | the column after the settling loop has reached row `i` keeps its length |
| Matrix.PartialStep | matrix.go:142-151 | one more row of the settling loop either leaves the column or shifts its top part down one place, a space entering at the top |
| Matrix.Marked | matrix.go:138-140 | marking keeps the column length |
| Matrix.UntouchedColumn | matrix.go:137-152 | a column that no coordinate names, and that holds no '-', is unchanged by RemoveLetters |
| Matrix.MarkedIgnoresRepeats | matrix.go:138-140 | listing a coordinate twice has the effect of listing it once |
| Matrix.RemoveOneExample | matrix.go:137-152 | removing the bottom cell of column a,d,G gives space,a,d |
| Matrix.RemoveManyExample | matrix.go:137-152 | removing (2,1), (1,1) and (0,2) from the 3×3 grid a..i gives the three columns the source's example expects |
| Matrix.RemoveManyFirstColumn | matrix.go:137-152 | the untouched first column of that example is unchanged |
| Matrix.RemoveManySecondColumn | matrix.go:137-152 | the second column of that example loses two cells and keeps B at the bottom |
| Matrix.RemoveManyThirdColumn | matrix.go:137-152 | the third column of that example loses its top cell |
| Matrix.LetterMatrix.Column | matrix.go:137-152 | a column has one cell per row |
| Matrix.LetterMatrix.Grid | matrix.go:108-113 | the grid has `rows` rows of `cols` cells |
| Matrix.LetterMatrix.constructor | matrix.go:85-114 | rows is the number of lines and cols is maxCols; each cell is the line's character, or a space past its end; specials are the labels of the upper-case cells in row-major order |
| Matrix.LetterMatrix.RemoveLetters | matrix.go:137-152 | with every coordinate in bounds, each column afterwards is the settled form of the column with the listed cells marked; rows, cols and specials are unchanged |
| Matrix.LetterMatrix.MarkCells | matrix.go:138-140 | each column afterwards is the column with the listed cells set to '-' |
| Matrix.LetterMatrix.SettleRow | matrix.go:143-150 | one pass of the row loop moves every column one row further through the settling |
| Matrix.LetterMatrix.ShiftDown | matrix.go:145-148 | column `j` loses cell `i` and gains a space on top; every other column is unchanged |
| Matrix.NewLetterMatrixFromLines | matrix.go:33-64 | fails with ErrEmptyMatrix iff every line is empty; otherwise it is the matrix of the non-empty lines padded to the widest, with its specials |
| Matrix.NewLetterMatrixFromString | matrix.go:66-83 | always a matrix, with one row per newline-separated piece, empty pieces included (newlines + 1 rows), padded to the widest |
| SimpleSearch.TableFacts | simple_search.go:26-35 | the eight steps are distinct, non-zero unit steps; the tags are distinct and contain no '_'; each step is the one the tag means to Coord.next |
| SimpleSearch.AlongLinear | simple_search.go:78-79 | the k-th cell the scan visits is start + k·(deltaRow, deltaCol) |
| SimpleSearch.RayWord | simple_search.go:58-59 | the letters along n cells of the ray form a sequence of length n |
| SimpleSearch.ReachedHasNoBlank | simple_search.go:50-59 | the letters the scan has read contain no space, each is in the grid, and each is the cell start + k·delta |
| SimpleSearch.ReachedEnds | simple_search.go:50 | both ends of a read stretch lie in the grid |
| SimpleSearch.RayLength | simple_search.go:47-50 | a scan reads at most `rows` cells when it moves vertically and at most `cols` when it moves horizontally |
| SimpleSearch.KeyInjective | simple_search.go:89 | two results with the same key agree on word, start row, start column and direction |
| SimpleSearch.KeyedAdd | simple_search.go:92-95 | adding a result with a new key keeps `seen` equal to the key set of `results`, with no two results sharing a key |
| SimpleSearch.SkippedOnlyForSameResult | simple_search.go:92 | a result is turned away only when one with the same word, start and direction is already present |
| SimpleSearch.QueueJobs | simple_search.go:119-125 | the job list holds exactly the triples (row, col, dirIndex) in range, in strictly increasing row-major-then-direction order |
| SimpleSearch.AllJobsDone | simple_search.go:99-130 | once every queued job has run, every (row, col, direction) has been scanned to completion |
| SimpleSearch.WordSearcher.constructor | simple_search.go:22-39 | the searcher uses the given matrix and dictionary and the eight-entry direction table, and starts with no results and nothing seen |
| SimpleSearch.WordSearcher.AddResult | simple_search.go:84-96 | a new key appends the result and marks the key seen; a seen key changes nothing; `seen` stays the key set of `results` |
| SimpleSearch.WordSearcher.GetResults | simple_search.go:133-137 | returns the results, and no two share a key |
| SimpleSearch.WordSearcher.RecordIfWord | simple_search.go:66-75 | the sequence is passed to addResult, with Length its byte count, iff it has at least 3 bytes and the trie marks it as a word; otherwise nothing changes |
| SimpleSearch.WordSearcher.SimpleSearchFromPosition | simple_search.go:42-81 | results are only appended; each appended one is the letters along the ray from the start, read while they stay in bounds, contain no space and each begin a trie word; every such word of at least 3 bytes that is a trie word is seen afterwards |
| SimpleSearch.WordSearcher.SearchAllWords | simple_search.go:99-130 | with no workers nothing changes; results are only appended, each from some start and direction; with workers, every start cell and direction has been scanned to completion |
| SimpleSearch.ReachedSpells | simple_search.go:50-75 | on a trie holding a word set, the scan gets n letters far iff each of the first n prefixes begins a word, and it records them iff, in addition, they are a word of at least 3 bytes |
| SimpleSearch.SpellsRow | simple_search.go:50-75 | a row that begins with a dictionary word is spelt by the rightward ray from its first cell |
| SimpleSearch.RowRecorded | simple_search.go:62-75 | on a trie holding a word set, a blank-free row that begins with a word of at least 3 bytes has that word recorded by its rightward scan |
| SimpleSearch.CatDogExample | simple_search.go:42-81 | on grid CAT/DOG with dictionary {CAT, DOG, AT, GO}, the rightward scans from (0,0) and (1,0) record CAT and DOG |
| SimpleSearch.RecordedInResults | simple_search.go:82-95 | once a scan along a table direction is done, every word it records is among the results, with its start cell and direction tag |
| SimpleSearch.CatDogFound | simple_test.go:47-77 | after a complete search of the CAT/DOG grid, the results hold CAT from (0,0) and DOG from (1,0), both rightward, as the test expects |
| Walker.NextOnBoard | main.go:342-373 | a success is the input displaced by the tag (L/R on X, T/B on Y); from an on-board cell a success stays on the board; `Left` holds exactly when the tag has L and X is 0 or less; each other error needs its letter |
| Walker.NextOnBoardWellFormed | main.go:342-373 | from an on-board cell with a well-formed tag, the step succeeds iff the displaced cell is on the board; each error holds iff its letter is present and the cell sits on that bound; X errors come before Y errors |
| Walker.NextOnBoardThenOpposite | main.go:342-373 | a successful step followed by the opposite tag returns to the start cell |
| Walker.IsValidWord | main.go:245-250 | three or more characters always qualify, and an empty sequence never does |
| Walker.IsValidWordAscii | main.go:245-250 | on ASCII letters the check is exactly "at least three of them" |
| Walker.IsValidWordPrefix | main.go:253-258 | true exactly for non-empty sequences |
| Walker.PathExtends | main.go:313-318 | appending an unvisited board cell and its letter to a path gives a path |
| Walker.Word.Start | main.go:260-271 | the start is the letter at the given cell and that cell, which forms a path |
| Walker.Word.HasVisitedCell | main.go:332-340 | true iff the cell occurs in the path |
| Walker.Word.CanWalk | main.go:306-329 | an off-board step or a visited cell answers false and changes nothing; otherwise one letter and one cell are appended, the path stays duplicate-free, the word is emitted iff IsValidWord holds, and the answer is true |
| Walker.NewDictionary | main.go:98-124 | the loaded words are the dictionary.go filter with a minimum of three bytes, and each is upper-folded |
| Text.TrimIsSlice | dictionary.go:37 | trimming keeps a contiguous piece of the input with no whitespace at either end |
| Text.TrimNoop | dictionary.go:37 | trimming a string with no whitespace at its ends changes nothing |
| Text.SplitJoin | matrix.go:67 | rejoining the newline-separated pieces gives back the original string |
| Text.SplitCount | matrix.go:67 | there is one piece more than there are separators |
| Text.IntToStringInjective | simple_search.go:89 | `%d` is injective and writes no '_', so the key's fields can be told apart |
| Text.GatherSpec | dictionary.go:36-41 | a word is gathered iff some line yields it |
| WordList.CharClassSpec | scripts/fetch_wordlist.py:46-52 | the class accepts exactly `a`-`z`, plus '-' when hyphens are allowed and '\'' when apostrophes are allowed |
| WordList.NormalizeWords | scripts/fetch_wordlist.py:55-80 | the result is the set of what each input word normalises to, with the checks in the source's order |
| WordList.NormalizeShape | scripts/fetch_wordlist.py:66-78 | a kept word is `strip().lower()` of its input, matches the class outright (no trailing newline) and has an allowed length |
| WordList.BlankContributesNothing | scripts/fetch_wordlist.py:67-71 | an empty or whitespace-only input is dropped |
| WordList.NormalizedWordsSpec | scripts/fetch_wordlist.py:64-78 | a word is in the output iff some input normalises to it; each output word is `strip().lower()` of an input, matches the class and has an allowed length; inputs with the same normal form give one entry |
| WordList.NormalizeFixed | scripts/fetch_wordlist.py:66-78 | a word that matches the class and has an allowed length normalises to itself |
| WordList.NormalizeIdempotent | scripts/fetch_wordlist.py:55-80 | normalising the output again, in any order, gives the same set |
| WordList.SortWords | scripts/fetch_wordlist.py:86 | the listing holds exactly the words, in strictly increasing code-point order |
| WordList.WriteOutput | scripts/fetch_wordlist.py:83-88 | the text is the sorted words, each followed by "\n" |
| WordList.EmitSplit | scripts/fetch_wordlist.py:86-88 | splitting the written text on "\n" gives the listing followed by one empty piece |
| WordList.WrittenLines | scripts/fetch_wordlist.py:86-88 | for the normaliser's output, reading the file back by lines gives exactly the sorted words |
| WordList.MaxLengthOption | scripts/fetch_wordlist.py:130-131 | 0 becomes None, and any other value is kept |
| WordList.ZeroMaxLengthUnbounded | scripts/fetch_wordlist.py:74-77 | with `--max-length 0`, no word is too long |
| WordList.NegativeMaxLengthRejectsAll | scripts/fetch_wordlist.py:76-77 | a negative `--max-length` is kept as a bound, and no word passes it |

## Left out

- File and network I/O: opening and scanning files (dictionary.go:23-49, matrix.go:33-64, main.go:45-124) and `download_words`, `os.makedirs` and `main` in the script. Their filtering, padding and output logic is modelled over in-memory lines and text.
- Scanner errors (`ErrFileOpen`, `ErrFileRead`): these come only from I/O.
- Concurrency: the worker goroutines, the jobs channel and the WaitGroup of `SearchAllWords`. Jobs run one after another, and a positive `numWorkers` only decides that they run.
- Mutex: `addResult` and `GetResults` are plain methods.
- Results order: the order of results under the real worker pool is not modelled.
- `toWalk` and `MyMainFunc`: their goroutines, the found-words and finalize channels, and the random start cell. `Walker.Word.Start` takes the start cell as a parameter. The channel send in `canWalk` becomes the `found` out-parameter.
- Console output: `PrintMatrix`, `PrintDictionaryStats`, `PrintResults`, `PrintBreadCrumb` and `main`.
- Declarations with no behaviour: `SpecialType`, `SpecialLetter`, `special_letters`, `Cell.DoubleScore`, `RowEater`, the extra `Word` fields, `GetMatrix` and `GetDimensions`.
- main.go's duplicates:
  - `Dictionary`, `insertIntoTrie`, `IsPrefix`, `IsWord` and `Contains` are the same code as dictionary.go and are modelled once, in `Trie`. `Walker.NewDictionary` applies that filter with the minimum fixed at 3.
  - `NewWordSearcher`, `SimpleSearchFromPosition`, `addResult` and `SearchAllWords` are the same code as simple_search.go.
  - main.go's `NewLetterMatrix` (main.go:45-95) is not modelled on its own. It is matrix.go's constructor without specials: its `LetterMatrix` (main.go:26-30) has no `specials` field, it records no upper-case cells, and it pads each line to the widest one inline instead of calling `newLetterMatrixFromRuneMatrix`.
- `MIN_WORD_LENGTH`: it is not defined in the source files, so it is the parameter `minWordLength`.
- Matrix.LetterMatrix.RemoveLetters: requires every coordinate to be inside the matrix. With an out-of-range coordinate, matrix.go:139 panics after the earlier coordinates have already been overwritten with '-'. That panic and the partial marking are not modelled.
- Walker.Word.CanWalk: requires a rectangular board, through `IsPath`; so do `Walker.IsPath` and `Walker.Word.Start`. main.go:366 checks Y only against `len(board[0])`, so on a ragged board the cell read at main.go:317 can panic. That panic is not modelled.
- Directions.Registry.NewDirections: returns the slice as a value. Go returns `&Directions`, a pointer to the package variable, so every caller shares the slice that a later call replaces. That aliasing is not modelled; no code in the repository calls `NewDirections`.
- SimpleSearch.WordSearcher.Valid: the ghost `grid` and `trie` fix the matrix letters and the trie when the searcher is built. The Go searcher holds a `*LetterMatrix`, so a `RemoveLetters` after `NewWordSimpleSearcher` would be seen by later scans. The model cannot express that sequence.
- Walker.NextOnBoard: requires a non-empty board. With an empty board, main.go's `len(board[0])` panics, and the panic is not modelled.
- Unicode case mapping:
  - `strings.ToUpper`, `unicode.IsUpper` and Python's `str.lower` are modelled on ASCII letters only; other characters are left as they are.
  - So the model does not capture a non-ASCII letter that Python lower-cases into `a`-`z` (the Kelvin sign is one).
  - It also does not capture special labels for non-ASCII upper-case cells.
- Whitespace: `strings.TrimSpace` and `str.strip` use the code points of the Unicode White_Space property; Python's set adds 0x1C-0x1F.
- Byte lengths: Go's `len` on a string is the UTF-8 length of its code points. Invalid UTF-8 is not modelled, because Dafny strings hold code points.
- Regular expressions: `build_pattern` is modelled as the text of the pattern plus an interpreter of its character class. No general regular-expression engine is modelled.
- Test expectations the code does not promise, so they are not modelled:
  - DOG, GO and BAT from one rightward ray;
  - no repeated word text, while the dedup key includes the start and direction;
  - a `results` reset that leaves `seen` alone.

## Findings

| source | as written | input that shows it | evidently intended | confidence | as-written member | corrected member |
|---|---|---|---|---|---|---|
| directions.go:19 | `make([]string, 8)` creates eight empty strings, and the eight tags are appended after them | any call: the result has 16 entries, and entries 0-7 are "" (Coords.NextWithoutLetters: an empty tag does not move) | `make([]string, 0, 8)`: exactly the eight tags | not executed | Directions.Registry.NewDirections | Directions.Registry.NewDirectionsIntended |
