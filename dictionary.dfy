/**
 * dictionary.go: the dictionary behind the searches, a set of upper-cased words plus a
 * trie of their characters.
 *
 * Go links trie nodes through `*TrieNode` fields. Here the nodes live in one sequence `nodes` and a
 * child is named by its index in it (index 0 is the root), so "allocate a node" is
 * "append to `nodes`". Two ghost views make the trie readable: `labels[k]` is the
 * character path from the root to node k, and `Inserted` is the set of words passed to
 * InsertIntoTrie so far.
 */
module Trie {
  import opened Wrappers
  import opened Text

  /** One trie node: the index of each child by character, and the end-of-word flag. */
  datatype TrieNode = TrieNode(children: map<char, nat>, isWord: bool)

  const Root: nat := 0

  predicate IsPrefixOf(p: string, w: string) { p <= w }

  /** The node reached from the root by following the first `k` characters of `s`, if every step exists. */
  function FindUpTo(nodes: seq<TrieNode>, s: string, k: nat): Option<nat>
    requires k <= |s|
  {
    if k == 0 then Some(Root)
    else match FindUpTo(nodes, s, k - 1)
      case None => None
      case Some(j) =>
        var c := s[k - 1];
        if j < |nodes| && c in nodes[j].children then Some(nodes[j].children[c]) else None
  }

  /** The node reached from the root by following the characters of `s`, if every step exists. */
  function Find(nodes: seq<TrieNode>, s: string): Option<nat> {
    FindUpTo(nodes, s, |s|)
  }

  /** What IsPrefix answers: the walk consumes all of `s`. */
  predicate PrefixIn(nodes: seq<TrieNode>, s: string) {
    Find(nodes, s).Some?
  }

  /** What IsWord answers: the walk consumes all of `s` and ends on a node marked as a word. */
  predicate WordIn(nodes: seq<TrieNode>, s: string) {
    Find(nodes, s).Some? && Find(nodes, s).value < |nodes| && nodes[Find(nodes, s).value].isWord
  }

  // ---------------------------------------------------------------------------
  // The trie invariant, in four parts.
  // ---------------------------------------------------------------------------

  /** Children point forward to valid nodes, a child's label is its parent's plus one character, and every node is reached by its label. */
  ghost predicate Shape(nodes: seq<TrieNode>, labels: seq<string>) {
    && |nodes| > 0 && |labels| == |nodes| && labels[Root] == []
    && (forall k, c :: 0 <= k < |nodes| && c in nodes[k].children ==>
          k < nodes[k].children[c] < |nodes| && labels[nodes[k].children[c]] == labels[k] + [c])
    && (forall k :: 0 <= k < |nodes| ==> Find(nodes, labels[k]) == Some(k))
  }

  /** Every child link points to a later node of the arena; all the queries need. */
  predicate Forward(nodes: seq<TrieNode>) {
    |nodes| > 0 && forall k, c :: 0 <= k < |nodes| && c in nodes[k].children ==> k < nodes[k].children[c] < |nodes|
  }

  /** A node is marked exactly when its label is an inserted word. */
  ghost predicate Marks(nodes: seq<TrieNode>, labels: seq<string>, words: set<string>)
    requires |labels| == |nodes|
  {
    forall k :: 0 <= k < |nodes| ==> (nodes[k].isWord <==> labels[k] in words)
  }

  /** Every node but the root lies on the path of some word. */
  ghost predicate Covered(labels: seq<string>, words: set<string>) {
    forall k :: 0 < k < |labels| ==> exists w :: w in words && IsPrefixOf(labels[k], w)
  }

  /** Every word has its path in the trie. */
  ghost predicate Reaches(nodes: seq<TrieNode>, words: set<string>) {
    forall w {:trigger Find(nodes, w)} :: w in words ==> Find(nodes, w).Some?
  }

  ghost predicate TrieInv(nodes: seq<TrieNode>, labels: seq<string>, words: set<string>) {
    Shape(nodes, labels) && Marks(nodes, labels, words) && Covered(labels, words) && Reaches(nodes, words)
  }

  /** `b` keeps every child link and every word mark of `a`, and may add nodes, links and marks. */
  ghost predicate Extends(a: seq<TrieNode>, b: seq<TrieNode>) {
    && |a| <= |b|
    && (forall k :: 0 <= k < |a| && a[k].isWord ==> b[k].isWord)
    && (forall k, c :: 0 <= k < |a| && c in a[k].children ==>
          c in b[k].children && b[k].children[c] == a[k].children[c])
  }

  // ---------------------------------------------------------------------------
  // Facts about walks.
  // ---------------------------------------------------------------------------

  /** The walk for `s` ends at the node labelled `s`. */
  lemma {:induction false} FindLabel(nodes: seq<TrieNode>, labels: seq<string>, s: string)
    requires Shape(nodes, labels)
    requires Find(nodes, s).Some?
    ensures Find(nodes, s).value < |nodes| && labels[Find(nodes, s).value] == s
  {
    if s != [] {
      var s' := s[..|s| - 1];
      FindInit(nodes, s);
      FindLabel(nodes, labels, s');
      assert s == s' + [s[|s| - 1]];
    }
  }

  /** The walk for `s` reaches a node whose index is at least |s|: nodes only point forward. */
  lemma {:induction false} FindDepth(nodes: seq<TrieNode>, s: string)
    requires Forward(nodes)
    requires Find(nodes, s).Some?
    ensures |s| <= Find(nodes, s).value < |nodes|
  {
    if s != [] {
      FindInit(nodes, s);
      FindDepth(nodes, s[..|s| - 1]);
    }
  }

  /** Whatever prefix of a walkable sequence is walkable too. */
  lemma {:induction false} FindPrefixClosed(nodes: seq<TrieNode>, p: string, s: string)
    requires IsPrefixOf(p, s) && Find(nodes, s).Some?
    ensures Find(nodes, p).Some?
    decreases |s|
  {
    if |p| < |s| {
      FindInit(nodes, s);
      assert IsPrefixOf(p, s[..|s| - 1]);
      FindPrefixClosed(nodes, p, s[..|s| - 1]);
    } else {
      assert p == s;
    }
  }

  /** Walks that exist in `a` exist, unchanged, in any extension of `a`. */
  lemma {:induction false} FindStable(a: seq<TrieNode>, b: seq<TrieNode>, s: string)
    requires Extends(a, b) && Find(a, s).Some?
    ensures Find(b, s) == Find(a, s)
  {
    if s != [] {
      FindInit(a, s);
      FindInit(b, s);
      FindStable(a, b, s[..|s| - 1]);
    }
  }

  /** The first `k` steps of a walk depend only on the first `k` characters. */
  lemma {:induction false} FindUpToAgree(nodes: seq<TrieNode>, s: string, t: string, k: nat)
    requires k <= |s| && k <= |t| && s[..k] == t[..k]
    ensures FindUpTo(nodes, s, k) == FindUpTo(nodes, t, k)
  {
    if k > 0 {
      assert s[..k - 1] == s[..k][..k - 1] && t[..k - 1] == t[..k][..k - 1];
      assert s[k - 1] == s[..k][k - 1] && t[k - 1] == t[..k][k - 1];
      FindUpToAgree(nodes, s, t, k - 1);
    }
  }

  /** Appending one character walks one more step from where the shorter walk ended. */
  lemma FindSnoc(nodes: seq<TrieNode>, s: string, c: char)
    ensures Find(nodes, s + [c]) ==
      match Find(nodes, s)
      case None => None
      case Some(j) => if j < |nodes| && c in nodes[j].children then Some(nodes[j].children[c]) else None
  {
    assert (s + [c])[..|s|] == s[..|s|];
    FindUpToAgree(nodes, s + [c], s, |s|);
  }

  /** The walk for a non-empty `s` is one step beyond the walk for all but its last character. */
  lemma FindInit(nodes: seq<TrieNode>, s: string)
    requires s != []
    ensures Find(nodes, s) ==
      match Find(nodes, s[..|s| - 1])
      case None => None
      case Some(j) => if j < |nodes| && s[|s| - 1] in nodes[j].children then Some(nodes[j].children[s[|s| - 1]]) else None
  {
    assert s == s[..|s| - 1] + [s[|s| - 1]];
    FindSnoc(nodes, s[..|s| - 1], s[|s| - 1]);
  }

  lemma TakeSnoc(s: string, i: nat)
    requires i < |s|
    ensures s[..i + 1] == s[..i] + [s[i]]
  {
  }

  /**
   * What a valid trie answers: IsPrefix holds of exactly the empty sequence and the
   * prefixes of inserted words, and IsWord of exactly the inserted words.
   */
  lemma TrieAnswers(nodes: seq<TrieNode>, labels: seq<string>, words: set<string>, s: string)
    requires TrieInv(nodes, labels, words)
    ensures PrefixIn(nodes, s) <==> s == [] || exists w :: w in words && IsPrefixOf(s, w)
    ensures WordIn(nodes, s) <==> s in words
  {
    if PrefixIn(nodes, s) {
      FindLabel(nodes, labels, s);
      var k := Find(nodes, s).value;
      if k != Root {
        assert 0 < k < |labels|;
      }
    }
    if exists w :: w in words && IsPrefixOf(s, w) {
      var w :| w in words && IsPrefixOf(s, w);
      FindPrefixClosed(nodes, s, w);
    }
    if s in words {
      FindLabel(nodes, labels, s);
    }
  }

  /** Dropping the last character of a walkable sequence leaves a walkable sequence. */
  lemma PrefixInClosed(nodes: seq<TrieNode>, s: string, c: char)
    requires PrefixIn(nodes, s + [c])
    ensures PrefixIn(nodes, s)
  {
    FindSnoc(nodes, s, c);
  }

  /** Extending a trie keeps every answer IsPrefix and IsWord gave yes to. */
  lemma QueriesStable(a: seq<TrieNode>, b: seq<TrieNode>, s: string)
    requires Extends(a, b)
    ensures PrefixIn(a, s) ==> PrefixIn(b, s)
    ensures WordIn(a, s) ==> WordIn(b, s)
  {
    if PrefixIn(a, s) {
      FindStable(a, b, s);
    }
  }

  // ---------------------------------------------------------------------------
  // The two steps InsertIntoTrie takes.
  // ---------------------------------------------------------------------------

  /** The arena after creating a fresh child of `node` for character `c`. */
  function WithChild(nodes: seq<TrieNode>, node: nat, c: char): seq<TrieNode>
    requires node < |nodes|
  {
    nodes[node := TrieNode(nodes[node].children[c := |nodes|], nodes[node].isWord)] + [TrieNode(map[], false)]
  }

  lemma WithChildExtends(nodes: seq<TrieNode>, node: nat, c: char)
    requires node < |nodes| && c !in nodes[node].children
    ensures Extends(nodes, WithChild(nodes, node, c))
  {
  }

  /** A fresh child for `c` under `node` keeps the shape; its label is the parent's plus `c`. */
  lemma AddChildShape(nodes: seq<TrieNode>, labels: seq<string>, node: nat, c: char)
    requires Shape(nodes, labels) && node < |nodes| && c !in nodes[node].children
    ensures
      var nodes' := WithChild(nodes, node, c);
      && Shape(nodes', labels + [labels[node] + [c]])
      && Extends(nodes, nodes')
      && Find(nodes', labels[node] + [c]) == Some(|nodes|)
  {
    var n := |nodes|;
    var nodes' := WithChild(nodes, node, c);
    var labels' := labels + [labels[node] + [c]];
    assert forall k :: 0 <= k < n && k != node ==> nodes'[k] == nodes[k];
    assert nodes'[node].children == nodes[node].children[c := n];
    assert nodes'[n].children == map[];
    WithChildExtends(nodes, node, c);
    forall k | 0 <= k < n ensures Find(nodes', labels[k]) == Some(k) {
      FindStable(nodes, nodes', labels[k]);
    }
    FindSnoc(nodes', labels[node], c);
    forall k | 0 <= k < |nodes'| ensures Find(nodes', labels'[k]) == Some(k) {
      if k < n {
        assert labels'[k] == labels[k];
      }
    }
    forall k, c' | 0 <= k < |nodes'| && c' in nodes'[k].children
      ensures k < nodes'[k].children[c'] < |nodes'| && labels'[nodes'[k].children[c']] == labels'[k] + [c']
    {
      if k != node || c' != c {
        assert k < n && c' in nodes[k].children && nodes'[k].children[c'] == nodes[k].children[c'];
      }
    }
  }

  /** The fresh child's label was not a word, so the marks and the word paths survive. */
  lemma AddChildWords(nodes: seq<TrieNode>, labels: seq<string>, ws: set<string>, node: nat, c: char)
    requires Shape(nodes, labels) && Marks(nodes, labels, ws) && Reaches(nodes, ws)
    requires node < |nodes| && c !in nodes[node].children
    ensures labels[node] + [c] !in ws
    ensures
      var nodes' := WithChild(nodes, node, c);
      Marks(nodes', labels + [labels[node] + [c]], ws) && Reaches(nodes', ws)
  {
    var n := |nodes|;
    var nodes' := WithChild(nodes, node, c);
    var labels' := labels + [labels[node] + [c]];
    FindSnoc(nodes, labels[node], c);
    WithChildExtends(nodes, node, c);
    forall v | v in ws ensures Find(nodes', v).Some? {
      FindStable(nodes, nodes', v);
    }
    forall k | 0 <= k < |nodes'| ensures nodes'[k].isWord <==> labels'[k] in ws {
      if k < n {
        assert nodes'[k].isWord == nodes[k].isWord && labels'[k] == labels[k];
      }
    }
  }

  lemma AddLabelCovered(labels: seq<string>, ws: set<string>, lab: string, w: string)
    requires Covered(labels, ws) && w in ws && IsPrefixOf(lab, w)
    ensures Covered(labels + [lab], ws)
  {
    var labels' := labels + [lab];
    forall k | 0 < k < |labels'| ensures exists v :: v in ws && IsPrefixOf(labels'[k], v) {
      if k == |labels| {
        assert IsPrefixOf(labels'[k], w);
      } else {
        assert labels'[k] == labels[k];
      }
    }
  }

  /**
   * Creating the missing child for `w[i]` keeps the invariant, with `w` counted among the
   * words the new node serves, and shows that `w` had not been inserted before.
   */
  lemma AddChild(nodes: seq<TrieNode>, labels: seq<string>, ws: set<string>, w: string, i: nat, node: nat)
    requires Shape(nodes, labels) && Marks(nodes, labels, ws) && Covered(labels, ws + {w}) && Reaches(nodes, ws)
    requires i < |w| && Find(nodes, w[..i]) == Some(node) && node < |nodes|
    requires w[i] !in nodes[node].children
    ensures w !in ws
    ensures
      var nodes' := WithChild(nodes, node, w[i]);
      var labels' := labels + [w[..i + 1]];
      && Shape(nodes', labels') && Marks(nodes', labels', ws) && Covered(labels', ws + {w})
      && Reaches(nodes', ws) && Extends(nodes, nodes')
      && Find(nodes', w[..i + 1]) == Some(|nodes|)
  {
    var c := w[i];
    TakeSnoc(w, i);
    FindLabel(nodes, labels, w[..i]);
    AddChildShape(nodes, labels, node, c);
    AddChildWords(nodes, labels, ws, node, c);
    AddLabelCovered(labels, ws + {w}, w[..i + 1], w);
    if w in ws {
      FindSnoc(nodes, w[..i], c);
      FindPrefixClosed(nodes, w[..i + 1], w);
    }
  }

  /** Marking the end node of `w` as a word keeps the invariant with `w` added to the words. */
  lemma MarkWord(nodes: seq<TrieNode>, labels: seq<string>, ws: set<string>, w: string, node: nat)
    requires Shape(nodes, labels) && Marks(nodes, labels, ws) && Covered(labels, ws + {w}) && Reaches(nodes, ws)
    requires Find(nodes, w) == Some(node) && node < |nodes|
    ensures
      var nodes' := nodes[node := nodes[node].(isWord := true)];
      TrieInv(nodes', labels, ws + {w}) && Extends(nodes, nodes')
  {
    var nodes' := nodes[node := nodes[node].(isWord := true)];
    assert Extends(nodes, nodes');
    forall s | Find(nodes, s).Some? ensures Find(nodes', s) == Find(nodes, s) {
      FindStable(nodes, nodes', s);
    }
    FindLabel(nodes, labels, w);
    forall k | 0 <= k < |nodes'| ensures nodes'[k].isWord <==> labels[k] in ws + {w} {
      if k != node && labels[k] == w {
        assert Find(nodes, labels[k]) == Some(k);
      }
    }
  }

  // ---------------------------------------------------------------------------
  // The dictionary object.
  // ---------------------------------------------------------------------------

  /** Child links stay inside the arena. */
  predicate ChildrenInRange(nodes: seq<TrieNode>) {
    forall k, c :: 0 <= k < |nodes| && c in nodes[k].children ==> nodes[k].children[c] < |nodes|
  }

  /**
   * The arena after inserting the rest `s` of a word from `node`: each missing child is
   * appended as a new node, and the node the walk ends on is marked as a word.
   */
  function Ins(nodes: seq<TrieNode>, node: nat, s: string): (r: seq<TrieNode>)
    requires node < |nodes| && ChildrenInRange(nodes)
    ensures |nodes| <= |r| && ChildrenInRange(r)
    decreases |s|
  {
    if s == [] then nodes[node := nodes[node].(isWord := true)]
    else if s[0] in nodes[node].children then Ins(nodes, nodes[node].children[s[0]], s[1..])
    else Ins(WithChild(nodes, node, s[0]), |nodes|, s[1..])
  }

  /** The labels of the nodes Ins creates, following the same walk. */
  ghost function InsLabels(nodes: seq<TrieNode>, labels: seq<string>, node: nat, s: string): seq<string>
    requires node < |nodes| && ChildrenInRange(nodes) && |labels| == |nodes|
    decreases |s|
  {
    if s == [] then labels
    else if s[0] in nodes[node].children then InsLabels(nodes, labels, nodes[node].children[s[0]], s[1..])
    else InsLabels(WithChild(nodes, node, s[0]), labels + [labels[node] + [s[0]]], |nodes|, s[1..])
  }

  /**
   * Inserting the rest of `w` from the node its first `i` characters reach keeps the trie
   * invariant with `w` added, only adds nodes, links and marks, and changes nothing when
   * `w` was already there.
   */
  lemma {:induction false} InsKeeps(nodes: seq<TrieNode>, labels: seq<string>, ws: set<string>, w: string, i: nat, node: nat)
    requires Shape(nodes, labels) && Marks(nodes, labels, ws) && Covered(labels, ws + {w}) && Reaches(nodes, ws)
    requires i <= |w| && Find(nodes, w[..i]) == Some(node) && node < |nodes|
    ensures ChildrenInRange(nodes)
    ensures TrieInv(Ins(nodes, node, w[i..]), InsLabels(nodes, labels, node, w[i..]), ws + {w})
    ensures Extends(nodes, Ins(nodes, node, w[i..]))
    ensures w in ws ==> Ins(nodes, node, w[i..]) == nodes
    decreases |w| - i
  {
    if i == |w| {
      assert w[..i] == w;
      MarkWord(nodes, labels, ws, w, node);
      if w in ws {
        FindLabel(nodes, labels, w);
        assert nodes[node].(isWord := true) == nodes[node];
      }
    } else {
      var c := w[i];
      assert w[i..][0] == c && w[i..][1..] == w[i + 1..];
      if c in nodes[node].children {
        FindSnoc(nodes, w[..i], c);
        TakeSnoc(w, i);
        InsKeeps(nodes, labels, ws, w, i + 1, nodes[node].children[c]);
      } else {
        FindLabel(nodes, labels, w[..i]);
        TakeSnoc(w, i);
        AddChild(nodes, labels, ws, w, i, node);
        var nodes' := WithChild(nodes, node, c);
        var labels' := labels + [w[..i + 1]];
        InsKeeps(nodes', labels', ws, w, i + 1, |nodes|);
        ExtendsTransitive(nodes, nodes', Ins(nodes', |nodes|, w[i + 1..]));
      }
    }
  }

  lemma ShapeInRange(nodes: seq<TrieNode>, labels: seq<string>)
    requires Shape(nodes, labels)
    ensures ChildrenInRange(nodes)
  {
  }

  lemma ExtendsTransitive(a: seq<TrieNode>, b: seq<TrieNode>, c: seq<TrieNode>)
    requires Extends(a, b) && Extends(b, c)
    ensures Extends(a, c)
  {
  }

  /**
   * Inserting `w` into a valid trie makes IsWord true of `w` and IsPrefix true of every
   * prefix of `w`, the empty sequence and `w` itself included.
   */
  lemma InsertThenQuery(nodes: seq<TrieNode>, labels: seq<string>, ws: set<string>, w: string, p: string)
    requires TrieInv(nodes, labels, ws) && IsPrefixOf(p, w)
    ensures WordIn(Ins(nodes, Root, w), w)
    ensures PrefixIn(Ins(nodes, Root, w), p)
  {
    assert w[..0] == [];
    assert Covered(labels, ws + {w});
    InsKeeps(nodes, labels, ws, w, 0, Root);
    assert w[0..] == w;
    TrieAnswers(Ins(nodes, Root, w), InsLabels(nodes, labels, Root, w), ws + {w}, w);
    TrieAnswers(Ins(nodes, Root, w), InsLabels(nodes, labels, Root, w), ws + {w}, p);
  }

  /** The loader's normal form of a line: upper-cased, then stripped of surrounding whitespace. */
  function Canonical(line: string): string {
    Trim(ToUpper(line), GoSpace)
  }

  /** The word one line yields: its normal form, when non-empty and at least `minWordLength` bytes long. */
  function LoadLine(line: string, minWordLength: int): Option<string> {
    var w := Canonical(line);
    if w != [] && ByteLen(w) >= minWordLength then Some(w) else None
  }

  /** A word a line yields is non-empty, long enough, trimmed and carries no lower-case ASCII letter. */
  lemma LoadLineShape(line: string, minWordLength: int)
    requires LoadLine(line, minWordLength).Some?
    ensures var w := LoadLine(line, minWordLength).value;
      && w != [] && ByteLen(w) >= minWordLength && IsUpperFolded(w)
      && !GoSpace(w[0]) && !GoSpace(w[|w| - 1])
  {
    var up := ToUpper(line);
    ToUpperFolds(line);
    TrimIsSlice(up, GoSpace);
    var w := Canonical(line);
    var i, j :| 0 <= i <= j <= |up| && w == up[i..j];
    SliceFolded(up, i, j);
  }

  /** The words a dictionary file with these lines yields. */
  function LoadedWords(lines: seq<string>, minWordLength: int): set<string> {
    Gather(lines, line => LoadLine(line, minWordLength))
  }

  /** A word is loaded exactly when some line yields it. */
  lemma LoadedWordsSpec(lines: seq<string>, minWordLength: int, w: string)
    ensures w in LoadedWords(lines, minWordLength) <==>
      exists k :: 0 <= k < |lines| && LoadLine(lines[k], minWordLength) == Some(w)
  {
    GatherSpec(lines, line => LoadLine(line, minWordLength), w);
  }

  /** One more line adds the word it yields, if any. */
  lemma LoadedWordsStep(lines: seq<string>, minWordLength: int, i: nat)
    requires i < |lines|
    ensures var g := LoadLine(lines[i], minWordLength);
      LoadedWords(lines[..i + 1], minWordLength) ==
        LoadedWords(lines[..i], minWordLength) + (if g.Some? then {g.value} else {})
  {
    assert lines[..i + 1][..i] == lines[..i];
  }

  /** Loaded words are non-empty, long enough, trimmed and carry no lower-case ASCII letter. */
  lemma LoadedWordsShape(lines: seq<string>, minWordLength: int, w: string)
    requires w in LoadedWords(lines, minWordLength)
    ensures w != [] && ByteLen(w) >= minWordLength && IsUpperFolded(w)
    ensures !GoSpace(w[0]) && !GoSpace(w[|w| - 1])
  {
    LoadedWordsSpec(lines, minWordLength, w);
    var k :| 0 <= k < |lines| && LoadLine(lines[k], minWordLength) == Some(w);
    LoadLineShape(lines[k], minWordLength);
  }

  /**
   * The walk of insertIntoTrie over the arena: from the root, follow each character,
   * creating the child when it is missing, then mark the node reached as a word.
   */
  method InsertWalk(nodes: seq<TrieNode>, word: string) returns (arena: seq<TrieNode>)
    requires Root < |nodes| && ChildrenInRange(nodes)
    ensures arena == Ins(nodes, Root, word)
  {
    assert word[0..] == word;
    arena := nodes;
    var node: nat := Root;
    var i := 0;
    while i < |word|
      invariant 0 <= i <= |word| && node < |arena| && ChildrenInRange(arena)
      invariant Ins(arena, node, word[i..]) == Ins(nodes, Root, word)
    {
      var c := word[i];
      assert word[i..][0] == c && word[i..][1..] == word[i + 1..];
      if c !in arena[node].children {
        arena := WithChild(arena, node, c);
      }
      node := arena[node].children[c];
      i := i + 1;
    }
    arena := arena[node := arena[node].(isWord := true)];
  }

  class Dictionary {
    /** `words map[string]bool`, which only ever maps to true: the set of loaded words. */
    var words: set<string>
    var nodes: seq<TrieNode>
    ghost var labels: seq<string>
    ghost var Inserted: set<string>

    ghost predicate Valid()
      reads this
    {
      TrieInv(nodes, labels, Inserted)
    }

    /** A dictionary as NewDictionary has built it: the word set and the trie hold the same words. */
    ghost predicate Loaded()
      reads this
    {
      Valid() && words == Inserted
    }

    /** An empty dictionary: no words and a trie that is just its root. */
    constructor Empty()
      ensures Valid() && words == {} && Inserted == {} && |nodes| == 1
    {
      words := {};
      nodes := [TrieNode(map[], false)];
      labels := [[]];
      Inserted := {};
    }

    /**
     * insertIntoTrie: walk from the root, creating each missing child, then mark the last
     * node as a word. Only adds nodes, links and marks; a second insertion of the same
     * word changes nothing.
     */
    method InsertIntoTrie(word: string)
      requires Valid()
      modifies this
      ensures nodes == Ins(old(nodes), Root, word)
      ensures Valid()
      ensures Inserted == old(Inserted) + {word}
      ensures words == old(words)
      ensures Extends(old(nodes), nodes)
      ensures word in old(Inserted) ==> nodes == old(nodes)
    {
      ShapeInRange(nodes, labels);
      InsKeeps(nodes, labels, Inserted, word, 0, Root);
      assert word[0..] == word;
      var arena := InsertWalk(nodes, word);
      nodes := arena;
      labels := InsLabels(old(nodes), old(labels), Root, word);
      Inserted := Inserted + {word};
    }

    /** IsPrefix: the walk consumes the whole sequence; on a valid trie, exactly the empty sequence and the prefixes of inserted words. */
    method IsPrefix(sequence: string) returns (b: bool)
      requires Forward(nodes)
      ensures b == PrefixIn(nodes, sequence)
      ensures Valid() ==> (b <==> sequence == [] || exists w :: w in Inserted && IsPrefixOf(sequence, w))
    {
      if Valid() {
        TrieAnswers(nodes, labels, Inserted, sequence);
      }
      var node := Root;
      var i := 0;
      while i < |sequence|
        invariant 0 <= i <= |sequence|
        invariant Find(nodes, sequence[..i]) == Some(node) && node < |nodes|
      {
        var c := sequence[i];
        FindSnoc(nodes, sequence[..i], c);
        TakeSnoc(sequence, i);
        if c !in nodes[node].children {
          if PrefixIn(nodes, sequence) {
            FindPrefixClosed(nodes, sequence[..i + 1], sequence);
          }
          return false;
        }
        node := nodes[node].children[c];
        i := i + 1;
      }
      assert sequence[..i] == sequence;
      return true;
    }

    /** IsWord: the walk consumes the sequence and ends on a word mark; on a valid trie, exactly the inserted words. */
    method IsWord(sequence: string) returns (b: bool)
      requires Forward(nodes)
      ensures b == WordIn(nodes, sequence)
      ensures Valid() ==> (b <==> sequence in Inserted)
    {
      if Valid() {
        TrieAnswers(nodes, labels, Inserted, sequence);
      }
      var node := Root;
      var i := 0;
      while i < |sequence|
        invariant 0 <= i <= |sequence|
        invariant Find(nodes, sequence[..i]) == Some(node) && node < |nodes|
      {
        var c := sequence[i];
        FindSnoc(nodes, sequence[..i], c);
        TakeSnoc(sequence, i);
        if c !in nodes[node].children {
          if PrefixIn(nodes, sequence) {
            FindPrefixClosed(nodes, sequence[..i + 1], sequence);
          }
          return false;
        }
        node := nodes[node].children[c];
        i := i + 1;
      }
      assert sequence[..i] == sequence;
      return nodes[node].isWord;
    }

    /**
     * The body of NewDictionary's loop for one line: the upper-cased, trimmed line goes into
     * the word set and the trie when it is non-empty and at least `minWordLength` bytes long.
     */
    method AddLine(line: string, minWordLength: int)
      requires Loaded()
      modifies this
      ensures Loaded()
      ensures var g := LoadLine(line, minWordLength);
        words == old(words) + (if g.Some? then {g.value} else {})
    {
      var word := Trim(ToUpper(line), GoSpace);
      if word != "" && ByteLen(word) >= minWordLength {
        words := words + {word};
        InsertIntoTrie(word);
      }
    }

    /**
     * Contains folds case first and looks the upper-cased word up in the word map; on a loaded
     * dictionary it agrees with IsWord on the upper-cased word.
     */
    function Contains(word: string): (b: bool)
      reads this
      ensures Loaded() ==> (b <==> WordIn(nodes, ToUpper(word)))
    {
      TrieAnswersFor(ToUpper(word));
      ToUpper(word) in words
    }

    /**
     * ContainsUpped looks the word up in the word map as given, without folding case; on a
     * loaded dictionary it agrees with IsWord on it.
     */
    function ContainsUpped(uppedWord: string): (b: bool)
      reads this
      ensures Loaded() ==> (b <==> WordIn(nodes, uppedWord))
    {
      TrieAnswersFor(uppedWord);
      uppedWord in words
    }

    lemma TrieAnswersFor(s: string)
      ensures Valid() ==> (PrefixIn(nodes, s) <==> s == [] || exists w :: w in Inserted && IsPrefixOf(s, w))
      ensures Valid() ==> (WordIn(nodes, s) <==> s in Inserted)
    {
      if Valid() {
        TrieAnswers(nodes, labels, Inserted, s);
      }
    }
  }

  /**
   * NewDictionary over the lines of the file: each line is upper-cased and trimmed, and
   * kept, in the word set and in the trie, when non-empty and at least `minWordLength` bytes.
   */
  method NewDictionary(lines: seq<string>, minWordLength: int) returns (d: Dictionary)
    ensures fresh(d) && d.Loaded()
    ensures d.words == LoadedWords(lines, minWordLength)
  {
    d := new Dictionary.Empty();
    for i := 0 to |lines|
      invariant d.Loaded()
      invariant d.words == LoadedWords(lines[..i], minWordLength)
    {
      LoadedWordsStep(lines, minWordLength, i);
      d.AddLine(lines[i], minWordLength);
    }
    assert lines[..|lines|] == lines;
  }

  /** On a loaded dictionary, Contains answers for every case variant what ContainsUpped answers for the upper-cased form, and ContainsUpped rejects any word with a lower-case ASCII letter. */
  lemma ContainsFoldsCase(d: Dictionary, lines: seq<string>, minWordLength: int, w: string)
    requires d.words == LoadedWords(lines, minWordLength)
    ensures d.Contains(w) == d.ContainsUpped(ToUpper(w))
    ensures d.ContainsUpped(w) ==> IsUpperFolded(w)
  {
    if w in d.words {
      LoadedWordsShape(lines, minWordLength, w);
    }
  }
}
