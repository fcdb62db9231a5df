/**
 * simple_search.go: the ray scanner. From a start cell it reads letters in one direction
 * until it meets a blank, leaves the grid or the letters read so far stop being a
 * dictionary prefix, and records every dictionary word of at least three bytes it passes.
 * Results are deduplicated on the key "word_row_col_direction".
 */
module SimpleSearch {
  import opened Text
  import opened Coords
  import Directions
  import Trie
  import Matrix

  /** A search direction: its tag, its arrow and its unit step. */
  datatype Direction = Direction(name: string, symbol: string, deltaRow: int, deltaCol: int)

  /** A found word, where it starts, the tag of its direction and its length in bytes. */
  datatype WordResult = WordResult(word: string, startRow: int, startCol: int, direction: string, length: int)

  /** The eight directions NewWordSimpleSearcher installs, in its order. */
  const Table: seq<Direction> := [
    Direction(Directions.R, "\U{2192}", 0, 1),
    Direction(Directions.L, "\U{2190}", 0, -1),
    Direction(Directions.B, "\U{2193}", 1, 0),
    Direction(Directions.T, "\U{2191}", -1, 0),
    Direction(Directions.BR, "\U{2198}", 1, 1),
    Direction(Directions.BL, "\U{2199}", 1, -1),
    Direction(Directions.TR, "\U{2197}", -1, 1),
    Direction(Directions.TL, "\U{2196}", -1, -1)
  ]

  /**
   * The table's steps are unit steps, pairwise distinct and never zero; its tags are
   * distinct, carry no '_', and each step is the one Coord.next takes for the same tag.
   */
  lemma TableFacts()
    ensures |Table| == 8
    ensures forall i :: 0 <= i < |Table| ==>
      && -1 <= Table[i].deltaRow <= 1 && -1 <= Table[i].deltaCol <= 1
      && (Table[i].deltaRow != 0 || Table[i].deltaCol != 0)
      && '_' !in Table[i].name
      && RowDelta(Table[i].name) == Table[i].deltaRow && ColDelta(Table[i].name) == Table[i].deltaCol
    ensures forall i, j :: 0 <= i < j < |Table| ==>
      Table[i].name != Table[j].name && (Table[i].deltaRow, Table[i].deltaCol) != (Table[j].deltaRow, Table[j].deltaCol)
  {
  }

  // ---------------------------------------------------------------------------
  // What one scan reads.
  // ---------------------------------------------------------------------------

  /** The cell k steps from `start` along `d`. */
  function Along(start: Coord, d: Direction, k: nat): Coord {
    if k == 0 then start
    else
      var p := Along(start, d, k - 1);
      Coord(p.x + d.deltaRow, p.y + d.deltaCol)
  }

  lemma {:induction false} AlongLinear(start: Coord, d: Direction, k: nat)
    ensures Along(start, d, k) == Coord(start.x + k * d.deltaRow, start.y + k * d.deltaCol)
  {
    if k > 0 {
      AlongLinear(start, d, k - 1);
    }
  }

  predicate InGrid(g: seq<seq<char>>, c: Coord) {
    0 <= c.x < |g| && 0 <= c.y < |g[c.x]|
  }

  function CellAt(g: seq<seq<char>>, c: Coord): char {
    if InGrid(g, c) then g[c.x][c.y] else ' '
  }

  /** The first n letters along the ray. */
  function RayWord(g: seq<seq<char>>, start: Coord, d: Direction, n: nat): (w: string)
    ensures |w| == n
  {
    if n == 0 then [] else RayWord(g, start, d, n - 1) + [CellAt(g, Along(start, d, n - 1))]
  }

  /** The scan gets as far as appending its n-th letter and finding the n letters a trie prefix. */
  predicate Reached(g: seq<seq<char>>, nodes: seq<Trie.TrieNode>, start: Coord, d: Direction, n: nat) {
    n == 0 ||
      (&& Reached(g, nodes, start, d, n - 1)
       && InGrid(g, Along(start, d, n - 1))
       && CellAt(g, Along(start, d, n - 1)) != ' '
       && Trie.PrefixIn(nodes, RayWord(g, start, d, n)))
  }

  /** The scan records its first n letters: it reached them, the trie marks them as a word, and they take at least three bytes. */
  predicate Recorded(g: seq<seq<char>>, nodes: seq<Trie.TrieNode>, start: Coord, d: Direction, n: nat) {
    Reached(g, nodes, start, d, n) && ByteLen(RayWord(g, start, d, n)) >= 3 && Trie.WordIn(nodes, RayWord(g, start, d, n))
  }

  /** The result the scan from `start` along `d` records for the word `w`. */
  function RecordOf(start: Coord, d: Direction, w: string): WordResult {
    WordResult(w, start.x, start.y, d.name, ByteLen(w))
  }

  /** A result some scan from `start` along `d` records. */
  predicate FromRay(res: WordResult, g: seq<seq<char>>, nodes: seq<Trie.TrieNode>, start: Coord, d: Direction) {
    Recorded(g, nodes, start, d, |res.word|) && res == RecordOf(start, d, RayWord(g, start, d, |res.word|))
  }

  lemma {:induction false} ReachedPrefix(g: seq<seq<char>>, nodes: seq<Trie.TrieNode>, start: Coord, d: Direction, k: nat, n: nat)
    requires k <= n && Reached(g, nodes, start, d, n)
    ensures Reached(g, nodes, start, d, k)
    decreases n
  {
    if k < n {
      ReachedPrefix(g, nodes, start, d, k, n - 1);
    }
  }

  /** After n letters the scan stands on the n-th cell of the ray, holds the n letters and has reached them. */
  predicate AtStep(g: seq<seq<char>>, nodes: seq<Trie.TrieNode>, start: Coord, d: Direction, n: nat, row: int, col: int, w: string) {
    Coord(row, col) == Along(start, d, n) && w == RayWord(g, start, d, n) && Reached(g, nodes, start, d, n)
  }

  /** One more letter that the trie still has as a prefix: the scan stands one step further with that letter appended. */
  lemma ScanStep(g: seq<seq<char>>, nodes: seq<Trie.TrieNode>, start: Coord, d: Direction,
                 n: nat, row: int, col: int, w: string, c: char, n': nat, row': int, col': int, w': string)
    requires AtStep(g, nodes, start, d, n, row, col, w) && c == CellAt(g, Coord(row, col)) && c != ' '
    requires n' == n + 1 && row' == row + d.deltaRow && col' == col + d.deltaCol && w' == w + [c]
    requires Trie.PrefixIn(nodes, w')
    ensures AtStep(g, nodes, start, d, n', row', col', w')
  {
    assert w' == RayWord(g, start, d, n');
  }

  /** One more letter that the trie does not have as a prefix: the scan gets no further than n letters. */
  lemma ScanBlocked(g: seq<seq<char>>, nodes: seq<Trie.TrieNode>, start: Coord, d: Direction, n: nat, row: int, col: int, w: string, c: char)
    requires AtStep(g, nodes, start, d, n, row, col, w) && c == CellAt(g, Coord(row, col))
    requires !Trie.PrefixIn(nodes, w + [c])
    ensures forall m: nat :: n < m ==> !Reached(g, nodes, start, d, m)
  {
    assert w + [c] == RayWord(g, start, d, n + 1);
    ReachedStops(g, nodes, start, d, n + 1);
  }

  /** A blank or a cell outside the grid ends the scan: it gets no further than n letters. */
  lemma ScanEnds(g: seq<seq<char>>, nodes: seq<Trie.TrieNode>, start: Coord, d: Direction, n: nat, row: int, col: int)
    requires Coord(row, col) == Along(start, d, n) && CellAt(g, Coord(row, col)) == ' '
    ensures forall m: nat :: n < m ==> !Reached(g, nodes, start, d, m)
  {
    ReachedStops(g, nodes, start, d, n + 1);
  }

  /** Once the scan stops, it never gets further. */
  lemma ReachedStops(g: seq<seq<char>>, nodes: seq<Trie.TrieNode>, start: Coord, d: Direction, k: nat)
    requires !Reached(g, nodes, start, d, k)
    ensures forall m: nat :: k <= m ==> !Reached(g, nodes, start, d, m)
  {
    forall m: nat | k <= m && Reached(g, nodes, start, d, m) ensures false {
      ReachedPrefix(g, nodes, start, d, k, m);
    }
  }

  /** Every letter the scan reached is a non-blank cell of the grid, so recorded words hold no blank. */
  lemma {:induction false} ReachedHasNoBlank(g: seq<seq<char>>, nodes: seq<Trie.TrieNode>, start: Coord, d: Direction, n: nat)
    requires Reached(g, nodes, start, d, n)
    ensures ' ' !in RayWord(g, start, d, n)
    ensures forall k :: 0 <= k < n ==> InGrid(g, Along(start, d, k)) && RayWord(g, start, d, n)[k] == g[Along(start, d, k).x][Along(start, d, k).y]
  {
    if n > 0 {
      ReachedHasNoBlank(g, nodes, start, d, n - 1);
      var w := RayWord(g, start, d, n);
      forall k | 0 <= k < n - 1 ensures w[k] == RayWord(g, start, d, n - 1)[k] {
      }
    }
  }

  /** A scan that read n > 0 letters began on a grid cell and read its last letter from one. */
  lemma ReachedEnds(g: seq<seq<char>>, nodes: seq<Trie.TrieNode>, start: Coord, d: Direction, n: nat)
    requires Reached(g, nodes, start, d, n) && n > 0
    ensures InGrid(g, start) && InGrid(g, Coord(start.x + (n - 1) * d.deltaRow, start.y + (n - 1) * d.deltaCol))
  {
    ReachedPrefix(g, nodes, start, d, 1, n);
    AlongLinear(start, d, n - 1);
  }

  /**
   * With a unit step that moves, a scan stays inside the grid, so it reads at most as many
   * letters as the grid has rows (when it moves vertically) or columns (when it moves sideways).
   */
  lemma RayLength(g: seq<seq<char>>, cols: int, nodes: seq<Trie.TrieNode>, start: Coord, d: Direction, n: nat)
    requires 0 <= cols && forall i :: 0 <= i < |g| ==> |g[i]| == cols
    requires -1 <= d.deltaRow <= 1 && -1 <= d.deltaCol <= 1
    requires Reached(g, nodes, start, d, n)
    ensures d.deltaRow != 0 ==> n <= |g|
    ensures d.deltaCol != 0 ==> n <= cols
  {
    if n > 0 {
      ReachedEnds(g, nodes, start, d, n);
      UnitStepBound(start.x, d.deltaRow, n - 1, |g|);
      UnitStepBound(start.y, d.deltaCol, n - 1, cols);
    }
  }

  /** Two points k unit steps apart inside [0, bound) leave room for k + 1 of them. */
  lemma UnitStepBound(x: int, step: int, k: nat, bound: int)
    requires -1 <= step <= 1 && 0 <= x < bound && 0 <= x + k * step < bound
    ensures step != 0 ==> k + 1 <= bound
  {
  }

  // ---------------------------------------------------------------------------
  // The deduplication key.
  // ---------------------------------------------------------------------------

  /** `fmt.Sprintf("%s_%d_%d_%s", Word, StartRow, StartCol, Direction)`. */
  function Key(r: WordResult): string {
    r.word + "_" + IntToString(r.startRow) + "_" + IntToString(r.startCol) + "_" + r.direction
  }

  /** In x + [sep] + y with no `sep` in y, the separator after x is the last one. */
  lemma LastSep(x: string, y: string, sep: char)
    requires sep !in y
    ensures (x + [sep] + y)[|x|] == sep
    ensures forall k :: |x| < k < |x + [sep] + y| ==> (x + [sep] + y)[k] != sep
  {
    var s := x + [sep] + y;
    forall k | |x| < k < |s| ensures s[k] == y[k - |x| - 1] {
    }
  }

  /** Splitting at the last separator is unambiguous. */
  lemma SplitAtLastSep(x: string, y: string, x': string, y': string, sep: char)
    requires x + [sep] + y == x' + [sep] + y'
    requires sep !in y && sep !in y'
    ensures x == x' && y == y'
  {
    var s := x + [sep] + y;
    LastSep(x, y, sep);
    LastSep(x', y', sep);
    assert |x| == |x'|;
    assert x == s[..|x|] == x';
    assert y == s[|x| + 1..] == y';
  }

  /**
   * Read from the right, the key determines the direction, the column, the row and the word,
   * whatever the word contains, as long as the direction tag has no '_'.
   */
  lemma KeyInjective(a: WordResult, b: WordResult)
    requires '_' !in a.direction && '_' !in b.direction
    requires Key(a) == Key(b)
    ensures a.word == b.word && a.startRow == b.startRow && a.startCol == b.startCol && a.direction == b.direction
  {
    IntToStringInjective(a.startRow, b.startRow);
    IntToStringInjective(a.startCol, b.startCol);
    IntToStringInjective(b.startRow, a.startRow);
    IntToStringInjective(b.startCol, a.startCol);
    SplitAtLastSep(a.word + "_" + IntToString(a.startRow) + "_" + IntToString(a.startCol), a.direction,
                   b.word + "_" + IntToString(b.startRow) + "_" + IntToString(b.startCol), b.direction, '_');
    SplitAtLastSep(a.word + "_" + IntToString(a.startRow), IntToString(a.startCol),
                   b.word + "_" + IntToString(b.startRow), IntToString(b.startCol), '_');
    SplitAtLastSep(a.word, IntToString(a.startRow), b.word, IntToString(b.startRow), '_');
  }

  /** `seen` holds exactly the keys of `results`, and no two results share a key. */
  predicate Keyed(results: seq<WordResult>, seen: set<string>) {
    && seen == (set i | 0 <= i < |results| :: Key(results[i]))
    && forall i, j :: 0 <= i < j < |results| ==> Key(results[i]) != Key(results[j])
  }

  /** Adding a result with a new key keeps results and keys in step. */
  lemma KeyedAdd(results: seq<WordResult>, seen: set<string>, r: WordResult)
    requires Keyed(results, seen) && Key(r) !in seen
    ensures Keyed(results + [r], seen + {Key(r)})
  {
    var rs := results + [r];
    assert forall i :: 0 <= i < |results| ==> rs[i] == results[i];
    assert Key(rs[|results|]) in (set i | 0 <= i < |rs| :: Key(rs[i]));
    forall k | k in (set i | 0 <= i < |rs| :: Key(rs[i])) ensures k in seen + {Key(r)} {
      var i :| 0 <= i < |rs| && k == Key(rs[i]);
      if i < |results| {
        assert k in (set i | 0 <= i < |results| :: Key(results[i]));
      }
    }
    forall k | k in seen ensures k in (set i | 0 <= i < |rs| :: Key(rs[i])) {
      var i :| 0 <= i < |results| && k == Key(results[i]);
      assert k == Key(rs[i]);
    }
  }

  /** A result is turned away only when one with the same word, start and direction is already there. */
  lemma SkippedOnlyForSameResult(results: seq<WordResult>, seen: set<string>, r: WordResult)
    requires Keyed(results, seen) && Key(r) in seen
    requires '_' !in r.direction && forall i :: 0 <= i < |results| ==> '_' !in results[i].direction
    ensures exists i :: (0 <= i < |results| &&
      results[i].word == r.word && results[i].startRow == r.startRow &&
      results[i].startCol == r.startCol && results[i].direction == r.direction)
  {
    var i :| 0 <= i < |results| && Key(r) == Key(results[i]);
    KeyInjective(r, results[i]);
  }


  /** Every word the scan records within its first n letters has its key in `seen`. */
  ghost predicate KeysUpTo(g: seq<seq<char>>, nodes: seq<Trie.TrieNode>, seen: set<string>, start: Coord, d: Direction, n: nat) {
    && (Recorded(g, nodes, start, d, n) ==> Key(RecordOf(start, d, RayWord(g, start, d, n))) in seen)
    && (n > 0 ==> KeysUpTo(g, nodes, seen, start, d, n - 1))
  }

  lemma {:induction false} KeysUpToGrows(g: seq<seq<char>>, nodes: seq<Trie.TrieNode>, seen: set<string>, seen': set<string>,
                                         start: Coord, d: Direction, n: nat)
    requires KeysUpTo(g, nodes, seen, start, d, n) && seen <= seen'
    ensures KeysUpTo(g, nodes, seen', start, d, n)
  {
    if n > 0 {
      KeysUpToGrows(g, nodes, seen, seen', start, d, n - 1);
    }
  }

  lemma {:induction false} KeysUpToBelow(g: seq<seq<char>>, nodes: seq<Trie.TrieNode>, seen: set<string>, start: Coord, d: Direction, n: nat, m: nat)
    requires KeysUpTo(g, nodes, seen, start, d, n) && m <= n
    ensures Recorded(g, nodes, start, d, m) ==> Key(RecordOf(start, d, RayWord(g, start, d, m))) in seen
    decreases n
  {
    if m < n {
      KeysUpToBelow(g, nodes, seen, start, d, n - 1, m);
    }
  }

  /**
   * What one scan has done after n letters: `results` extends `results0` only with words the
   * scan records, and every word it recorded within n letters has its key in `seen`.
   */
  ghost predicate Found(results0: seq<WordResult>, results: seq<WordResult>, seen: set<string>,
                        g: seq<seq<char>>, nodes: seq<Trie.TrieNode>, start: Coord, d: Direction, n: nat) {
    && |results0| <= |results| && results[..|results0|] == results0
    && (forall i :: |results0| <= i < |results| ==> FromRay(results[i], g, nodes, start, d))
    && KeysUpTo(g, nodes, seen, start, d, n)
  }

  /** The bookkeeping of one more letter: addResult for the n+1 letters when they are recorded, nothing otherwise. */
  lemma FoundStep(results0: seq<WordResult>, results: seq<WordResult>, seen: set<string>,
                  results': seq<WordResult>, seen': set<string>,
                  g: seq<seq<char>>, nodes: seq<Trie.TrieNode>, start: Coord, d: Direction, n: nat, n': nat)
    requires n' == n + 1
    requires Found(results0, results, seen, g, nodes, start, d, n) && Reached(g, nodes, start, d, n')
    requires
      var w := RayWord(g, start, d, n');
      var r := RecordOf(start, d, w);
      if ByteLen(w) >= 3 && Trie.WordIn(nodes, w) then
        seen' == seen + {Key(r)} && results' == results + (if Key(r) in seen then [] else [r])
      else
        results' == results && seen' == seen
    ensures Found(results0, results', seen', g, nodes, start, d, n')
  {
    var w := RayWord(g, start, d, n');
    KeysUpToGrows(g, nodes, seen, seen', start, d, n);
    if ByteLen(w) >= 3 && Trie.WordIn(nodes, w) {
      assert |w| == n + 1;
      forall i | |results0| <= i < |results'| ensures FromRay(results'[i], g, nodes, start, d) {
        if i < |results| {
          assert results'[i] == results[i];
        }
      }
      assert results'[..|results0|] == results[..|results0|];
    }
  }

  /** A scan that gets no further than n letters has recorded everything it ever will. */
  lemma FoundDone(results0: seq<WordResult>, results: seq<WordResult>, seen: set<string>,
                  g: seq<seq<char>>, nodes: seq<Trie.TrieNode>, start: Coord, d: Direction, n: nat)
    requires Found(results0, results, seen, g, nodes, start, d, n)
    requires forall m: nat :: n < m ==> !Reached(g, nodes, start, d, m)
    ensures ScanDone(g, nodes, seen, start, d)
  {
    forall m: nat | Recorded(g, nodes, start, d, m) ensures Key(RecordOf(start, d, RayWord(g, start, d, m))) in seen {
      KeysUpToBelow(g, nodes, seen, start, d, n, m);
    }
  }

  // ---------------------------------------------------------------------------
  // The searcher.
  // ---------------------------------------------------------------------------

  /** Every word the scan from `start` along `d` records has its key in `seen`. */
  ghost predicate ScanDone(g: seq<seq<char>>, nodes: seq<Trie.TrieNode>, seen: set<string>, start: Coord, d: Direction) {
    forall n: nat :: Recorded(g, nodes, start, d, n) ==> Key(RecordOf(start, d, RayWord(g, start, d, n))) in seen
  }

  /** `res` is recorded by the scan from its own start cell along one of `dirs`. */
  ghost predicate FromSome(res: WordResult, g: seq<seq<char>>, nodes: seq<Trie.TrieNode>, dirs: seq<Direction>) {
    exists k :: 0 <= k < |dirs| && FromRay(res, g, nodes, Coord(res.startRow, res.startCol), dirs[k])
  }

  /** `results` extends `results0` with results some scan along one of `dirs` records. */
  ghost predicate AllFrom(results0: seq<WordResult>, results: seq<WordResult>, g: seq<seq<char>>, nodes: seq<Trie.TrieNode>, dirs: seq<Direction>) {
    && |results0| <= |results| && results[..|results0|] == results0
    && forall i :: |results0| <= i < |results| ==> FromSome(results[i], g, nodes, dirs)
  }

  /** One more scan, from `start` along `dirs[k]`, keeps AllFrom. */
  lemma AllFromStep(results0: seq<WordResult>, results: seq<WordResult>, results': seq<WordResult>,
                    g: seq<seq<char>>, nodes: seq<Trie.TrieNode>, dirs: seq<Direction>, start: Coord, k: int)
    requires AllFrom(results0, results, g, nodes, dirs) && 0 <= k < |dirs|
    requires |results| <= |results'| && results'[..|results|] == results
    requires forall i :: |results| <= i < |results'| ==> FromRay(results'[i], g, nodes, start, dirs[k])
    ensures AllFrom(results0, results', g, nodes, dirs)
  {
    forall i | |results0| <= i < |results'| ensures FromSome(results'[i], g, nodes, dirs) {
      if i < |results| {
        assert results'[i] == results[i];
      } else {
        assert FromRay(results'[i], g, nodes, Coord(results'[i].startRow, results'[i].startCol), dirs[k]);
      }
    }
    assert results'[..|results0|] == results[..|results|][..|results0|];
  }

  /** A queued job: a start cell and the index of a direction, Go's `[3]int{row, col, dirIndex}`. */
  datatype Job = Job(row: int, col: int, dirIndex: int)

  /** Job `a` is queued before job `b`: row-major order over the cells, then direction order. */
  predicate JobBefore(a: Job, b: Job) {
    a.row < b.row || (a.row == b.row && (a.col < b.col || (a.col == b.col && a.dirIndex < b.dirIndex)))
  }

  /** The jobs of a rows x cols grid with n directions. */
  predicate JobInRange(j: Job, rows: int, cols: int, n: int) {
    0 <= j.row < rows && 0 <= j.col < cols && 0 <= j.dirIndex < n
  }

  /**
   * The queue SearchAllWords fills: one job for each start cell and direction, each once,
   * in row-major order and then direction order.
   */
  method QueueJobs(rows: int, cols: int, n: int) returns (jobs: seq<Job>)
    ensures forall j :: j in jobs <==> JobInRange(j, rows, cols, n)
    ensures forall a, b :: 0 <= a < b < |jobs| ==> JobBefore(jobs[a], jobs[b])
  {
    jobs := [];
    var row := 0;
    while row < rows
      invariant forall j :: j in jobs <==> JobInRange(j, rows, cols, n) && JobBefore(j, Job(row, 0, 0))
      invariant forall a, b :: 0 <= a < b < |jobs| ==> JobBefore(jobs[a], jobs[b])
      invariant forall a :: 0 <= a < |jobs| ==> jobs[a].row < row
    {
      var col := 0;
      while col < cols
        invariant forall j :: j in jobs <==> JobInRange(j, rows, cols, n) && JobBefore(j, Job(row, col, 0))
        invariant forall a, b :: 0 <= a < b < |jobs| ==> JobBefore(jobs[a], jobs[b])
        invariant forall a :: 0 <= a < |jobs| ==> JobBefore(jobs[a], Job(row, col, 0))
      {
        var dirIndex := 0;
        while dirIndex < n
          invariant forall j :: j in jobs <==> JobInRange(j, rows, cols, n) && JobBefore(j, Job(row, col, dirIndex))
          invariant forall a, b :: 0 <= a < b < |jobs| ==> JobBefore(jobs[a], jobs[b])
          invariant forall a :: 0 <= a < |jobs| ==> JobBefore(jobs[a], Job(row, col, dirIndex))
        {
          jobs := jobs + [Job(row, col, dirIndex)];
          dirIndex := dirIndex + 1;
        }
        col := col + 1;
      }
      row := row + 1;
    }
  }

  /** The first i jobs are done: each scan they name has its recorded words' keys in `seen`. */
  ghost predicate JobsDone(g: seq<seq<char>>, nodes: seq<Trie.TrieNode>, seen: set<string>, dirs: seq<Direction>, jobs: seq<Job>, i: int) {
    forall m :: 0 <= m < i && m < |jobs| ==>
      0 <= jobs[m].dirIndex < |dirs| && ScanDone(g, nodes, seen, Coord(jobs[m].row, jobs[m].col), dirs[jobs[m].dirIndex])
  }

  /** Job i done, with `seen` grown meanwhile: the first i + 1 jobs are done. */
  lemma JobsDoneStep(g: seq<seq<char>>, nodes: seq<Trie.TrieNode>, seen: set<string>, seen': set<string>,
                     dirs: seq<Direction>, jobs: seq<Job>, i: int)
    requires JobsDone(g, nodes, seen, dirs, jobs, i) && seen <= seen' && 0 <= i < |jobs|
    requires 0 <= jobs[i].dirIndex < |dirs| && ScanDone(g, nodes, seen', Coord(jobs[i].row, jobs[i].col), dirs[jobs[i].dirIndex])
    ensures JobsDone(g, nodes, seen', dirs, jobs, i + 1)
  {
  }

  /** With every queued job done, every scan of the grid is done. */
  lemma AllJobsDone(g: seq<seq<char>>, nodes: seq<Trie.TrieNode>, seen: set<string>, dirs: seq<Direction>, jobs: seq<Job>, rows: int, cols: int)
    requires forall j :: j in jobs <==> JobInRange(j, rows, cols, |dirs|)
    requires JobsDone(g, nodes, seen, dirs, jobs, |jobs|)
    ensures forall r, c, k :: 0 <= r < rows && 0 <= c < cols && 0 <= k < |dirs| ==> ScanDone(g, nodes, seen, Coord(r, c), dirs[k])
  {
    forall r, c, k | 0 <= r < rows && 0 <= c < cols && 0 <= k < |dirs| ensures ScanDone(g, nodes, seen, Coord(r, c), dirs[k]) {
      assert JobInRange(Job(r, c, k), rows, cols, |dirs|);
      var m :| 0 <= m < |jobs| && jobs[m] == Job(r, c, k);
    }
  }

  class WordSearcher {
    const matrix: Matrix.LetterMatrix
    const dictionary: Trie.Dictionary
    const directions: seq<Direction>
    /** The letters of `matrix` and the trie of `dictionary` when the searcher was built. */
    ghost const grid: seq<seq<char>>
    ghost const trie: seq<Trie.TrieNode>
    var results: seq<WordResult>
    var seen: set<string>

    ghost predicate Valid()
      reads this, matrix, matrix.matrix, dictionary
    {
      && matrix.Valid() && grid == matrix.Grid()
      && trie == dictionary.nodes && Trie.Forward(trie)
      && Keyed(results, seen)
    }

    /** NewWordSimpleSearcher: the eight directions, no results and no keys. */
    constructor (m: Matrix.LetterMatrix, d: Trie.Dictionary)
      requires m.Valid() && d.Valid()
      ensures Valid()
      ensures matrix == m && dictionary == d && directions == Table
      ensures grid == m.Grid() && trie == d.nodes
      ensures results == [] && seen == {}
    {
      matrix := m;
      dictionary := d;
      grid := m.Grid();
      trie := d.nodes;
      directions := Table;
      results := [];
      seen := {};
    }

    /** addResult: append the result exactly when its key is new, and remember the key. */
    method AddResult(result: WordResult)
      requires Keyed(results, seen)
      modifies this
      ensures Keyed(results, seen)
      ensures Key(result) in old(seen) ==> results == old(results) && seen == old(seen)
      ensures Key(result) !in old(seen) ==> results == old(results) + [result] && seen == old(seen) + {Key(result)}
    {
      var key := Key(result);
      if key !in seen {
        KeyedAdd(results, seen, result);
        seen := seen + {key};
        results := results + [result];
      }
    }

    /** GetResults: a copy of the results, which never repeat a key. */
    method GetResults() returns (r: seq<WordResult>)
      requires Keyed(results, seen)
      ensures r == results
      ensures forall i, j :: 0 <= i < j < |r| ==> Key(r[i]) != Key(r[j])
    {
      r := [] + results;
    }


    /**
     * The end of each step of SimpleSearchFromPosition: `sequence` goes to addResult when it
     * takes at least three bytes and the trie marks it as a word.
     */
    method RecordIfWord(sequence: string, startRow: int, startCol: int, direction: Direction)
      requires Valid()
      modifies this
      ensures Valid()
      ensures ByteLen(sequence) >= 3 && Trie.WordIn(dictionary.nodes, sequence) ==>
        var r := RecordOf(Coord(startRow, startCol), direction, sequence);
        && seen == old(seen) + {Key(r)}
        && results == old(results) + (if Key(r) in old(seen) then [] else [r])
      ensures !(ByteLen(sequence) >= 3 && Trie.WordIn(dictionary.nodes, sequence)) ==>
        results == old(results) && seen == old(seen)
    {
      if ByteLen(sequence) >= 3 {
        var isWord := dictionary.IsWord(sequence);
        if isWord {
          AddResult(WordResult(sequence, startRow, startCol, direction.name, ByteLen(sequence)));
        }
      }
    }

    /**
     * SimpleSearchFromPosition: scan from (startRow, startCol) along `direction`. Every word
     * the scan records has its key in `seen` afterwards, and every result it appends is one
     * of those words.
     */
    method SimpleSearchFromPosition(startRow: int, startCol: int, direction: Direction)
      requires Valid()
      modifies this
      ensures Valid()
      ensures old(seen) <= seen
      ensures |old(results)| <= |results| && results[..|old(results)|] == old(results)
      ensures forall i :: |old(results)| <= i < |results| ==>
        FromRay(results[i], grid, trie, Coord(startRow, startCol), direction)
      ensures ScanDone(grid, trie, seen, Coord(startRow, startCol), direction)
    {
      ghost var g, nodes := grid, trie;
      ghost var start := Coord(startRow, startCol);
      var rows, cols := matrix.rows, matrix.cols;
      var currentWord: string := [];
      var row, col := startRow, startCol;
      ghost var n: nat := 0;
      while 0 <= row < rows && 0 <= col < cols
        invariant Valid()
        invariant AtStep(g, nodes, start, direction, n, row, col, currentWord)
        invariant |currentWord| <= |nodes|
        invariant old(seen) <= seen
        invariant Found(old(results), results, seen, g, nodes, start, direction, n)
        decreases |nodes| - |currentWord|
      {
        var ch := matrix.matrix[row, col];
        assert ch == CellAt(g, Coord(row, col));
        if ch == ' ' {
          ScanEnds(g, nodes, start, direction, n, row, col);
          FoundDone(old(results), results, seen, g, nodes, start, direction, n);
          break;
        }
        ghost var n0, row0, col0, word0, results0, seen0 := n, row, col, currentWord, results, seen;
        currentWord := currentWord + [ch];
        var sequence := currentWord;
        var isPrefix := dictionary.IsPrefix(sequence);
        if !isPrefix {
          ScanBlocked(g, nodes, start, direction, n, row, col, word0, ch);
          FoundDone(old(results), results, seen, g, nodes, start, direction, n);
          break;
        }
        Trie.FindDepth(nodes, sequence);
        n := n + 1;
        row := row + direction.deltaRow;
        col := col + direction.deltaCol;
        ScanStep(g, nodes, start, direction, n0, row0, col0, word0, ch, n, row, col, currentWord);
        RecordIfWord(sequence, startRow, startCol, direction);
        FoundStep(old(results), results0, seen0, results, seen, g, nodes, start, direction, n0, n);
      }
      if !(0 <= row < rows && 0 <= col < cols) {
        ScanEnds(g, nodes, start, direction, n, row, col);
        FoundDone(old(results), results, seen, g, nodes, start, direction, n);
      }
    }

    /**
     * SearchAllWords: queue one job per start cell and direction, then let the workers take
     * them one at a time. With no worker nothing takes the jobs, and nothing is found.
     */
    method SearchAllWords(numWorkers: int)
      requires Valid()
      modifies this
      ensures Valid()
      ensures numWorkers <= 0 ==> results == old(results) && seen == old(seen)
      ensures old(seen) <= seen
      ensures AllFrom(old(results), results, grid, trie, directions)
      ensures numWorkers > 0 ==>
        forall r, c, k :: 0 <= r < matrix.rows && 0 <= c < matrix.cols && 0 <= k < |directions| ==>
          ScanDone(grid, trie, seen, Coord(r, c), directions[k])
    {
      var rows, cols := matrix.rows, matrix.cols;
      var jobs := QueueJobs(rows, cols, |directions|);
      if numWorkers <= 0 {
        return;
      }
      for i := 0 to |jobs|
        invariant Valid()
        invariant old(seen) <= seen
        invariant AllFrom(old(results), results, grid, trie, directions)
        invariant JobsDone(grid, trie, seen, directions, jobs, i)
      {
        var job := jobs[i];
        assert job in jobs;
        ghost var results0, seen0 := results, seen;
        SimpleSearchFromPosition(job.row, job.col, directions[job.dirIndex]);
        AllFromStep(old(results), results0, results, grid, trie, directions, Coord(job.row, job.col), job.dirIndex);
        JobsDoneStep(grid, trie, seen0, seen, directions, jobs, i);
      }
      AllJobsDone(grid, trie, seen, directions, jobs, rows, cols);
    }
  }

  // ---------------------------------------------------------------------------
  // The same scan, read against the dictionary's word set.
  // ---------------------------------------------------------------------------

  /** `s` begins some word of `words`. */
  ghost predicate Leads(words: set<string>, s: string) {
    exists w :: w in words && Trie.IsPrefixOf(s, w)
  }

  /** Reached, with "a trie prefix" read as "begins a dictionary word". */
  ghost predicate Spells(g: seq<seq<char>>, words: set<string>, start: Coord, d: Direction, n: nat) {
    n == 0 ||
      (&& Spells(g, words, start, d, n - 1)
       && InGrid(g, Along(start, d, n - 1))
       && CellAt(g, Along(start, d, n - 1)) != ' '
       && Leads(words, RayWord(g, start, d, n)))
  }

  /**
   * On a trie that holds exactly `words`, the scan gets n letters far exactly when each of
   * its first n prefixes begins a word, and records them exactly when, besides, they are a
   * word of at least three bytes.
   */
  lemma {:induction false} ReachedSpells(g: seq<seq<char>>, nodes: seq<Trie.TrieNode>, labels: seq<string>, words: set<string>,
                                         start: Coord, d: Direction, n: nat)
    requires Trie.TrieInv(nodes, labels, words)
    ensures Reached(g, nodes, start, d, n) <==> Spells(g, words, start, d, n)
    ensures Recorded(g, nodes, start, d, n) <==>
      Spells(g, words, start, d, n) && ByteLen(RayWord(g, start, d, n)) >= 3 && RayWord(g, start, d, n) in words
  {
    Trie.TrieAnswers(nodes, labels, words, RayWord(g, start, d, n));
    if n > 0 {
      ReachedSpells(g, nodes, labels, words, start, d, n - 1);
    }
  }

  /** Scanning rightward from a cell reads the row from that cell on. */
  lemma {:induction false} RayAlongRow(g: seq<seq<char>>, start: Coord, d: Direction, n: nat)
    requires d.deltaRow == 0 && d.deltaCol == 1
    requires 0 <= start.x < |g| && 0 <= start.y && start.y + n <= |g[start.x]|
    ensures RayWord(g, start, d, n) == g[start.x][start.y..start.y + n]
  {
    if n > 0 {
      RayAlongRow(g, start, d, n - 1);
      AlongLinear(start, d, n - 1);
      var row := g[start.x];
      assert row[start.y..start.y + n] == row[start.y..start.y + n - 1] + [row[start.y + n - 1]];
    }
  }

  /** A rightward scan along a row of letters, every prefix of which begins a word, spells the row. */
  lemma SpellsRow(g: seq<seq<char>>, words: set<string>, r: int, d: Direction, n: nat)
    requires d.deltaRow == 0 && d.deltaCol == 1
    requires 0 <= r < |g| && n <= |g[r]| && ' ' !in g[r]
    requires g[r][..n] in words
    ensures Spells(g, words, Coord(r, 0), d, n)
    ensures RayWord(g, Coord(r, 0), d, n) == g[r][..n]
  {
    RayAlongRow(g, Coord(r, 0), d, n);
    if n > 0 {
      SpellsRowPrefix(g, words, r, d, n - 1, g[r][..n]);
      AlongLinear(Coord(r, 0), d, n - 1);
      assert g[r][0..n] == g[r][..n];
      assert g[r][n - 1] in g[r];
    }
  }

  /** As SpellsRow, for a row prefix that begins the word `w`. */
  lemma {:induction false} SpellsRowPrefix(g: seq<seq<char>>, words: set<string>, r: int, d: Direction, n: nat, w: string)
    requires d.deltaRow == 0 && d.deltaCol == 1
    requires 0 <= r < |g| && n <= |g[r]| && ' ' !in g[r]
    requires w in words && g[r][..n] <= w
    ensures Spells(g, words, Coord(r, 0), d, n)
  {
    RayAlongRow(g, Coord(r, 0), d, n);
    if n > 0 {
      SpellsRowPrefix(g, words, r, d, n - 1, w);
      AlongLinear(Coord(r, 0), d, n - 1);
      assert g[r][0..n] == g[r][..n];
      assert g[r][n - 1] in g[r];
    }
  }

  /** The grid "CAT/DOG" against the words CAT, DOG, AT and GO: the rightward scans from (0,0) and (1,0) spell CAT and DOG. */
  lemma CatDogSpells(g: seq<seq<char>>, words: set<string>, d: Direction)
    requires g == ["CAT", "DOG"] && words == {"CAT", "DOG", "AT", "GO"} && d.deltaRow == 0 && d.deltaCol == 1
    ensures Spells(g, words, Coord(0, 0), d, 3) && RayWord(g, Coord(0, 0), d, 3) == "CAT"
    ensures Spells(g, words, Coord(1, 0), d, 3) && RayWord(g, Coord(1, 0), d, 3) == "DOG"
  {
    assert g[0][..3] == "CAT" && ' ' !in g[0];
    assert g[1][..3] == "DOG" && ' ' !in g[1];
    SpellsRow(g, words, 0, d, 3);
    SpellsRow(g, words, 1, d, 3);
  }

  /** A row that begins with a dictionary word of at least three bytes has that word recorded by its rightward scan. */
  lemma RowRecorded(g: seq<seq<char>>, nodes: seq<Trie.TrieNode>, labels: seq<string>, words: set<string>,
                    r: int, d: Direction, w: string)
    requires Trie.TrieInv(nodes, labels, words)
    requires d.deltaRow == 0 && d.deltaCol == 1
    requires 0 <= r < |g| && |w| <= |g[r]| && ' ' !in g[r] && g[r][..|w|] == w
    requires w in words && ByteLen(w) >= 3
    ensures Recorded(g, nodes, Coord(r, 0), d, |w|) && RayWord(g, Coord(r, 0), d, |w|) == w
  {
    SpellsRow(g, words, r, d, |w|);
    ReachedSpells(g, nodes, labels, words, Coord(r, 0), d, |w|);
  }

  /** On any trie holding exactly CAT, DOG, AT and GO, the rightward scans record CAT and DOG in the grid "CAT/DOG". */
  lemma CatDogExample(g: seq<seq<char>>, nodes: seq<Trie.TrieNode>, labels: seq<string>, d: Direction)
    requires g == ["CAT", "DOG"] && d.deltaRow == 0 && d.deltaCol == 1
    requires Trie.TrieInv(nodes, labels, {"CAT", "DOG", "AT", "GO"})
    ensures Recorded(g, nodes, Coord(0, 0), d, 3) && RayWord(g, Coord(0, 0), d, 3) == "CAT"
    ensures Recorded(g, nodes, Coord(1, 0), d, 3) && RayWord(g, Coord(1, 0), d, 3) == "DOG"
  {
    var words: set<string> := {"CAT", "DOG", "AT", "GO"};
    assert g[0][..3] == "CAT" && ' ' !in g[0];
    assert g[1][..3] == "DOG" && ' ' !in g[1];
    ByteLenOfAscii("CAT");
    ByteLenOfAscii("DOG");
    RowRecorded(g, nodes, labels, words, 0, d, "CAT");
    RowRecorded(g, nodes, labels, words, 1, d, "DOG");
  }

  /**
   * A word the scan from `start` along a table direction records is among the results, once
   * that scan is done and every result came from some table direction (as after SearchAllWords
   * on a fresh searcher).
   */
  lemma RecordedInResults(results: seq<WordResult>, seen: set<string>, g: seq<seq<char>>, nodes: seq<Trie.TrieNode>,
                          start: Coord, k: int, n: nat)
    requires Keyed(results, seen) && AllFrom([], results, g, nodes, Table)
    requires 0 <= k < |Table| && ScanDone(g, nodes, seen, start, Table[k]) && Recorded(g, nodes, start, Table[k], n)
    ensures exists i :: (0 <= i < |results| && results[i].word == RayWord(g, start, Table[k], n) &&
                         results[i].startRow == start.x && results[i].startCol == start.y && results[i].direction == Table[k].name)
  {
    TableFacts();
    var rec := RecordOf(start, Table[k], RayWord(g, start, Table[k], n));
    assert Key(rec) in seen;
    var i :| 0 <= i < |results| && Key(results[i]) == Key(rec);
    assert FromSome(results[i], g, nodes, Table);
    var j :| 0 <= j < |Table| && FromRay(results[i], g, nodes, Coord(results[i].startRow, results[i].startCol), Table[j]);
    KeyInjective(results[i], rec);
  }

  /**
   * The CAT/DOG grid searched to completion: whatever the order of the scans, the results
   * hold CAT from (0,0) and DOG from (1,0), both to the right.
   */
  lemma CatDogFound(g: seq<seq<char>>, nodes: seq<Trie.TrieNode>, labels: seq<string>,
                    results: seq<WordResult>, seen: set<string>)
    requires g == ["CAT", "DOG"]
    requires Trie.TrieInv(nodes, labels, {"CAT", "DOG", "AT", "GO"})
    requires Keyed(results, seen) && AllFrom([], results, g, nodes, Table)
    requires forall r, c, k :: 0 <= r < 2 && 0 <= c < 3 && 0 <= k < |Table| ==> ScanDone(g, nodes, seen, Coord(r, c), Table[k])
    ensures exists i :: (0 <= i < |results| && results[i].word == "CAT" &&
                         results[i].startRow == 0 && results[i].startCol == 0 && results[i].direction == Directions.R)
    ensures exists i :: (0 <= i < |results| && results[i].word == "DOG" &&
                         results[i].startRow == 1 && results[i].startCol == 0 && results[i].direction == Directions.R)
  {
    CatDogExample(g, nodes, labels, Table[0]);
    assert ScanDone(g, nodes, seen, Coord(0, 0), Table[0]);
    assert ScanDone(g, nodes, seen, Coord(1, 0), Table[0]);
    RecordedInResults(results, seen, g, nodes, Coord(0, 0), 0, 3);
    RecordedInResults(results, seen, g, nodes, Coord(1, 0), 0, 3);
  }
}
