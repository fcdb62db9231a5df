/**
 * scripts/fetch_wordlist.py: the word-list normaliser. Each input word is stripped of
 * surrounding whitespace and lower-cased; it is kept when it is non-empty, matches
 * `^[a-z]+$` (widened by '-' and '\'' on request) and has an allowed length. The kept words
 * form a set, written out one per line in sorted order.
 */
module WordList {
  import opened Wrappers
  import opened Text

  /** The command-line options normalize_words takes; a missing upper bound is None. */
  datatype Options = Options(minLength: int, maxLength: Option<int>, allowHyphens: bool, allowApostrophes: bool)

  // ---------------------------------------------------------------------------
  // build_pattern
  // ---------------------------------------------------------------------------

  /** The body of the character class: "a-z", then '-' and '\'' when allowed. */
  function CharClass(allowHyphens: bool, allowApostrophes: bool): string {
    "a-z" + (if allowHyphens then "-" else "") + (if allowApostrophes then "'" else "")
  }

  /** build_pattern: the source of the regular expression `^[<class>]+$`. */
  function BuildPattern(allowHyphens: bool, allowApostrophes: bool): string {
    "^[" + CharClass(allowHyphens, allowApostrophes) + "]+$"
  }

  /**
   * Membership in a regular-expression character class body: `x-y` is a range, any other
   * character stands for itself (so a '-' that cannot open a range is a literal).
   */
  function ClassHas(body: string, c: char): bool
    decreases |body|
  {
    if body == [] then false
    else if |body| >= 3 && body[1] == '-' then (body[0] <= c <= body[2]) || ClassHas(body[3..], c)
    else body[0] == c || ClassHas(body[1..], c)
  }

  /** The class build_pattern makes holds the lower-case ASCII letters and exactly the extras allowed. */
  lemma CharClassSpec(allowHyphens: bool, allowApostrophes: bool, c: char)
    ensures ClassHas(CharClass(allowHyphens, allowApostrophes), c) <==>
      IsLowerAscii(c) || (allowHyphens && c == '-') || (allowApostrophes && c == '\'')
  {
    var body := CharClass(allowHyphens, allowApostrophes);
    var rest := body[3..];
    assert body[0] == 'a' && body[1] == '-' && body[2] == 'z';
    assert ClassHas(body, c) == (('a' <= c <= 'z') || ClassHas(rest, c));
    if allowHyphens && allowApostrophes {
      assert rest == "-'";
      var tail := rest[1..];
      assert tail == "'" && tail[1..] == [];
      assert ClassHas(tail, c) == (c == '\'');
      assert ClassHas(rest, c) == (c == '-' || c == '\'');
    } else if allowHyphens {
      assert rest == "-" && rest[1..] == [];
      assert ClassHas(rest, c) == (c == '-');
    } else if allowApostrophes {
      assert rest == "'" && rest[1..] == [];
      assert ClassHas(rest, c) == (c == '\'');
    } else {
      assert rest == [];
    }
  }

  /** Every character of a non-empty `s` is in the class. */
  predicate AllIn(body: string, s: string) {
    s != [] && forall k :: 0 <= k < |s| ==> ClassHas(body, s[k])
  }

  /**
   * pattern.match(w) for `^[<body>]+$`: Python's `$` also matches just before a final
   * newline, so a class run followed by one '\n' matches too.
   */
  predicate PatternMatch(body: string, w: string) {
    AllIn(body, w) || (|w| >= 2 && w[|w| - 1] == '\n' && AllIn(body, w[..|w| - 1]))
  }

  // ---------------------------------------------------------------------------
  // normalize_words
  // ---------------------------------------------------------------------------

  /** `word.strip().lower()`. */
  function Canonical(word: string): string {
    ToLower(Trim(word, PySpace))
  }

  /** What normalize_words keeps of one input word, if anything. */
  function Normalize(word: string, opts: Options): Option<string> {
    if word == [] then None
    else
      var w := Canonical(word);
      if w == [] then None
      else if !PatternMatch(CharClass(opts.allowHyphens, opts.allowApostrophes), w) then None
      else if |w| < opts.minLength then None
      else if opts.maxLength.Some? && |w| > opts.maxLength.value then None
      else Some(w)
  }

  /** Normalize with the options fixed, as the filter Gather applies line by line. */
  function Normalizer(opts: Options): string -> Option<string> {
    word => Normalize(word, opts)
  }

  /** normalize_words: the set of what each input word normalises to. */
  method NormalizeWords(words: seq<string>, opts: Options) returns (normalized: set<string>)
    ensures normalized == Gather(words, Normalizer(opts))
  {
    var body := CharClass(opts.allowHyphens, opts.allowApostrophes);
    normalized := {};
    for i := 0 to |words|
      invariant normalized == Gather(words[..i], Normalizer(opts))
    {
      assert words[..i + 1][..i] == words[..i];
      var word := words[i];
      if word == [] {
        continue;
      }
      var w := ToLower(Trim(word, PySpace));
      if w == [] {
        continue;
      }
      if !PatternMatch(body, w) {
        continue;
      }
      if |w| < opts.minLength {
        continue;
      }
      if opts.maxLength.Some? && |w| > opts.maxLength.value {
        continue;
      }
      normalized := normalized + {w};
    }
    assert words[..|words|] == words;
  }

  /** Lower-casing leaves whitespace where it is: strip then lower has no whitespace at its ends. */
  lemma CanonicalEnds(word: string)
    ensures var w := Canonical(word); w == [] || (!PySpace(w[0]) && !PySpace(w[|w| - 1]))
  {
    var t := Trim(word, PySpace);
    TrimIsSlice(word, PySpace);
    if t != [] {
      LowerKeepsEnds(t);
    }
  }

  /** Lower-casing never turns the first or last character into whitespace. */
  lemma LowerKeepsEnds(t: string)
    requires t != [] && !PySpace(t[0]) && !PySpace(t[|t| - 1])
    ensures var w := ToLower(t); !PySpace(w[0]) && !PySpace(w[|w| - 1])
  {
  }

  /** A word normalise keeps is `strip().lower()` of its input, matches the class outright and has an allowed length. */
  lemma NormalizeShape(word: string, opts: Options)
    requires Normalize(word, opts).Some?
    ensures var w := Normalize(word, opts).value;
      && w == Canonical(word)
      && AllIn(CharClass(opts.allowHyphens, opts.allowApostrophes), w)
      && opts.minLength <= |w|
      && (opts.maxLength.Some? ==> |w| <= opts.maxLength.value)
  {
    var w := Canonical(word);
    CanonicalEnds(word);
    assert PySpace('\n');
  }

  /** An empty or all-whitespace input word contributes nothing. */
  lemma BlankContributesNothing(word: string, opts: Options)
    requires forall k :: 0 <= k < |word| ==> PySpace(word[k])
    ensures Normalize(word, opts) == None
  {
    BlankTrims(word);
  }

  lemma {:induction false} BlankTrims(s: string)
    requires forall k :: 0 <= k < |s| ==> PySpace(s[k])
    ensures Trim(s, PySpace) == []
  {
    if s != [] {
      assert forall k :: 0 <= k < |s[1..]| ==> s[1..][k] == s[k + 1];
      BlankTrims(s[1..]);
    }
  }

  /**
   * Every word of the output is `strip().lower()` of some input word, matches the pattern
   * outright and has an allowed length; inputs with the same normal form give one entry.
   */
  lemma NormalizedWordsSpec(words: seq<string>, opts: Options, w: string)
    ensures w in Gather(words, Normalizer(opts)) <==>
      exists k :: 0 <= k < |words| && Normalize(words[k], opts) == Some(w)
    ensures w in Gather(words, Normalizer(opts)) ==>
      && (exists k :: 0 <= k < |words| && Canonical(words[k]) == w)
      && AllIn(CharClass(opts.allowHyphens, opts.allowApostrophes), w)
      && opts.minLength <= |w|
      && (opts.maxLength.Some? ==> |w| <= opts.maxLength.value)
  {
    GatherSpec(words, Normalizer(opts), w);
    if w in Gather(words, Normalizer(opts)) {
      var k :| 0 <= k < |words| && Normalize(words[k], opts) == Some(w);
      NormalizeShape(words[k], opts);
    }
  }

  /** A word normalize_words produced normalises to itself. */
  lemma NormalizeFixed(w: string, opts: Options)
    requires AllIn(CharClass(opts.allowHyphens, opts.allowApostrophes), w)
    requires opts.minLength <= |w| && (opts.maxLength.Some? ==> |w| <= opts.maxLength.value)
    ensures Normalize(w, opts) == Some(w)
  {
    var body := CharClass(opts.allowHyphens, opts.allowApostrophes);
    forall k | 0 <= k < |w| ensures !PySpace(w[k]) && !IsUpperAscii(w[k]) {
      CharClassSpec(opts.allowHyphens, opts.allowApostrophes, w[k]);
    }
    TrimNoop(w, PySpace);
    assert ToLower(w) == w;
  }

  /** normalize_words is idempotent: normalising its output, in any order, gives the output back. */
  lemma NormalizeIdempotent(words: seq<string>, opts: Options, again: seq<string>)
    requires forall v :: v in again <==> v in Gather(words, Normalizer(opts))
    ensures Gather(again, Normalizer(opts)) == Gather(words, Normalizer(opts))
  {
    var out := Gather(words, Normalizer(opts));
    forall v ensures v in Gather(again, Normalizer(opts)) <==> v in out {
      GatherSpec(again, Normalizer(opts), v);
      if v in out {
        NormalizedWordsSpec(words, opts, v);
        NormalizeFixed(v, opts);
        var k :| 0 <= k < |again| && again[k] == v;
      }
      if v in Gather(again, Normalizer(opts)) {
        var k :| 0 <= k < |again| && Normalize(again[k], opts) == Some(v);
        NormalizedWordsSpec(words, opts, again[k]);
        NormalizeFixed(again[k], opts);
      }
    }
  }

  // ---------------------------------------------------------------------------
  // write_output
  // ---------------------------------------------------------------------------

  /** `words` listed once each, in increasing code-point order. */
  ghost predicate SortedListing(order: seq<string>, words: set<string>) {
    && (forall v :: v in order <==> v in words)
    && (forall i, j :: 0 <= i < j < |order| ==> Less(order[i], order[j]))
  }

  /** The file text: each line followed by "\n". */
  function Emit(lines: seq<string>): string {
    if lines == [] then [] else Emit(lines[..|lines| - 1]) + lines[|lines| - 1] + "\n"
  }

  /** `m` comes before every other member of `s`. */
  predicate IsLeast(m: string, s: set<string>) {
    forall v :: v in s && v != m ==> Less(m, v)
  }

  /** A non-empty set has a least element. */
  lemma {:induction false} LeastExists(s: set<string>)
    requires s != {}
    ensures exists m :: m in s && IsLeast(m, s)
    decreases |s|
  {
    var y :| y in s;
    if s == {y} {
      assert IsLeast(y, s);
    } else {
      var rest := s - {y};
      LeastExists(rest);
      var m :| m in rest && IsLeast(m, rest);
      LeastOfAdded(rest, m, y);
      assert rest + {y} == s;
    }
  }

  /** Adding `y` to a set whose least member is `m`: the least member is now the smaller of the two. */
  lemma LeastOfAdded(rest: set<string>, m: string, y: string)
    requires m in rest && IsLeast(m, rest) && y !in rest
    ensures Less(y, m) ==> IsLeast(y, rest + {y})
    ensures !Less(y, m) ==> IsLeast(m, rest + {y})
  {
    LessTotal(y, m);
    if Less(y, m) {
      forall v | v in rest + {y} && v != y ensures Less(y, v) {
        if v != m {
          LessTransitive(y, m, v);
        }
      }
    }
  }

  /** sorted(words): repeatedly take the least word not yet listed. */
  method SortWords(words: set<string>) returns (order: seq<string>)
    ensures SortedListing(order, words)
  {
    order := [];
    var rest := words;
    while rest != {}
      invariant forall v :: v in words <==> v in order || v in rest
      invariant forall v :: v in order ==> v !in rest
      invariant forall i, j :: 0 <= i < j < |order| ==> Less(order[i], order[j])
      invariant forall i, v :: 0 <= i < |order| && v in rest ==> Less(order[i], v)
      decreases |rest|
    {
      LeastExists(rest);
      var m :| m in rest && IsLeast(m, rest);
      order := order + [m];
      rest := rest - {m};
    }
  }

  /** write_output: the words in sorted order, each followed by "\n". */
  method WriteOutput(words: set<string>) returns (order: seq<string>, text: string)
    ensures SortedListing(order, words)
    ensures text == Emit(order)
  {
    order := SortWords(words);
    text := [];
    for i := 0 to |order|
      invariant text == Emit(order[..i])
    {
      assert order[..i + 1][..i] == order[..i];
      text := text + order[i] + "\n";
    }
    assert order[..|order|] == order;
  }

  /** Appending text with no separator in it extends the last piece. */
  lemma {:induction false} SplitAppendPiece(x: string, w: string, sep: char)
    requires sep !in w
    ensures var p := SplitOn(x, sep);
      SplitOn(x + w, sep) == p[..|p| - 1] + [p[|p| - 1] + w]
    decreases |w|
  {
    var p := SplitOn(x, sep);
    var init, last := p[..|p| - 1], p[|p| - 1];
    if w == [] {
      assert x + w == x;
      assert last + w == last;
      assert p == init + [last];
    } else {
      var w' := w[..|w| - 1];
      var c := w[|w| - 1];
      assert w == w' + [c];
      assert x + w == (x + w') + [c];
      SplitAppendPiece(x, w', sep);
      SplitAppendChar(x + w', c, sep);
      LastPieceGrows(init, last, w', c);
    }
  }

  /** Sequence algebra for SplitAppendPiece: growing the last piece of `init + [last + w']` by `c`. */
  lemma LastPieceGrows(init: seq<string>, last: string, w': string, c: char)
    ensures var q := init + [last + w'];
      q[..|q| - 1] + [q[|q| - 1] + [c]] == init + [last + (w' + [c])]
  {
    var q := init + [last + w'];
    assert q[..|q| - 1] == init;
    assert q[|q| - 1] + [c] == last + (w' + [c]);
  }

  /** One more non-separator character extends the last piece. */
  lemma SplitAppendChar(x: string, c: char, sep: char)
    requires c != sep
    ensures var p := SplitOn(x, sep);
      SplitOn(x + [c], sep) == p[..|p| - 1] + [p[|p| - 1] + [c]]
  {
    var xc := x + [c];
    assert xc[..|xc| - 1] == x;
  }

  /** Reading the written file back by lines gives the listing, then the empty piece after the last "\n". */
  lemma {:induction false} EmitSplit(lines: seq<string>)
    requires forall k :: 0 <= k < |lines| ==> '\n' !in lines[k]
    ensures SplitOn(Emit(lines), '\n') == lines + [[]]
  {
    if lines != [] {
      var init := lines[..|lines| - 1];
      var last := lines[|lines| - 1];
      assert lines == init + [last];
      EmitSplit(init);
      var P := SplitOn(Emit(init), '\n');
      assert P == init + [[]];
      assert P[..|P| - 1] == init && P[|P| - 1] == [];
      SplitAppendPiece(Emit(init), last, '\n');
      var s := Emit(init) + last;
      assert SplitOn(s, '\n') == init + [[] + last];
      assert [] + last == last;
      assert SplitOn(s, '\n') == lines;
      var e := Emit(lines);
      assert e == s + "\n";
      assert e[..|e| - 1] == s && e[|e| - 1] == '\n';
      assert SplitOn(e, '\n') == SplitOn(s, '\n') + [[]];
    }
  }

  /** The written file holds no other words than the output set, one per line, sorted. */
  lemma WrittenLines(words: seq<string>, opts: Options, order: seq<string>)
    requires SortedListing(order, Gather(words, Normalizer(opts)))
    ensures SplitOn(Emit(order), '\n') == order + [[]]
  {
    forall k | 0 <= k < |order| ensures '\n' !in order[k] {
      NormalizedWordsSpec(words, opts, order[k]);
      if '\n' in order[k] {
        var j :| 0 <= j < |order[k]| && order[k][j] == '\n';
        CharClassSpec(opts.allowHyphens, opts.allowApostrophes, order[k][j]);
      }
    }
    EmitSplit(order);
  }

  // ---------------------------------------------------------------------------
  // parse_args: --max-length
  // ---------------------------------------------------------------------------

  /** `None if args.max_length == 0 else args.max_length`. */
  function MaxLengthOption(maxLength: int): (r: Option<int>)
    ensures r.None? <==> maxLength == 0
    ensures r.Some? ==> r.value == maxLength
  {
    if maxLength == 0 then None else Some(maxLength)
  }

  /** With --max-length 0 no word is too long: every pattern word of the minimum length or more is kept. */
  lemma ZeroMaxLengthUnbounded(w: string, minLength: int, allowHyphens: bool, allowApostrophes: bool)
    requires AllIn(CharClass(allowHyphens, allowApostrophes), w) && minLength <= |w|
    ensures Normalize(w, Options(minLength, MaxLengthOption(0), allowHyphens, allowApostrophes)) == Some(w)
  {
    NormalizeFixed(w, Options(minLength, MaxLengthOption(0), allowHyphens, allowApostrophes));
  }

  /** A negative --max-length is kept as a bound, and no word fits under it. */
  lemma NegativeMaxLengthRejectsAll(words: seq<string>, maxLength: int, minLength: int, allowHyphens: bool, allowApostrophes: bool)
    requires maxLength < 0
    ensures Gather(words, Normalizer(Options(minLength, MaxLengthOption(maxLength), allowHyphens, allowApostrophes))) == {}
  {
    var opts := Options(minLength, MaxLengthOption(maxLength), allowHyphens, allowApostrophes);
    forall v ensures v !in Gather(words, Normalizer(opts)) {
      NormalizedWordsSpec(words, opts, v);
    }
  }
}
