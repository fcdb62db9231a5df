/** Option and Result, the shapes the model uses for Go's `nil` results and `error` returns. */
module Wrappers {
  datatype Option<+T> = None | Some(value: T)

  datatype Result<+T, +E> = Ok(value: T) | Err(error: E)
}

/**
 * The pieces of the Go and Python string libraries the word-grid solver relies on:
 * byte length of a UTF-8 string, ASCII case mapping, whitespace trimming,
 * splitting on a separator, decimal formatting of integers and code-point order.
 */
module Text {
  import opened Wrappers

  // ---------------------------------------------------------------------------
  // Byte length: Go's `len` on a string counts the bytes of its UTF-8 encoding.
  // ---------------------------------------------------------------------------

  /** Number of bytes UTF-8 uses for one code point. */
  function Utf8Len(c: char): (n: nat)
    ensures 1 <= n <= 4
    ensures n == 1 <==> c as int < 0x80
  {
    if c as int < 0x80 then 1
    else if c as int < 0x800 then 2
    else if c as int < 0x10000 then 3
    else 4
  }

  /** `len(string(s))` in Go: the UTF-8 byte length of a sequence of code points. */
  function ByteLen(s: string): (n: nat)
    ensures |s| <= n <= 4 * |s|
  {
    ByteLenUpTo(s, |s|)
  }

  /** The UTF-8 byte length of the first `k` code points of `s`. */
  function ByteLenUpTo(s: string, k: nat): (n: nat)
    requires k <= |s|
    ensures k <= n <= 4 * k
  {
    if k == 0 then 0 else ByteLenUpTo(s, k - 1) + Utf8Len(s[k - 1])
  }

  predicate IsAscii(s: string) {
    forall k :: 0 <= k < |s| ==> s[k] as int < 0x80
  }

  /** On ASCII text the byte length is the number of characters. */
  lemma ByteLenOfAscii(s: string)
    requires IsAscii(s)
    ensures ByteLen(s) == |s|
  {
    ByteLenUpToAscii(s, |s|);
  }

  lemma {:induction false} ByteLenUpToAscii(s: string, k: nat)
    requires IsAscii(s) && k <= |s|
    ensures ByteLenUpTo(s, k) == k
  {
    if k > 0 {
      ByteLenUpToAscii(s, k - 1);
    }
  }

  // ---------------------------------------------------------------------------
  // ASCII case mapping (strings.ToUpper, str.lower restricted to ASCII letters).
  // ---------------------------------------------------------------------------

  predicate IsLowerAscii(c: char) { 'a' <= c <= 'z' }

  predicate IsUpperAscii(c: char) { 'A' <= c <= 'Z' }

  function UpperChar(c: char): char {
    if IsLowerAscii(c) then (c as int - 32) as char else c
  }

  function LowerChar(c: char): char {
    if IsUpperAscii(c) then (c as int + 32) as char else c
  }

  function ToUpper(s: string): (r: string)
    ensures |r| == |s|
  {
    seq(|s|, k requires 0 <= k < |s| => UpperChar(s[k]))
  }

  function ToLower(s: string): (r: string)
    ensures |r| == |s|
  {
    seq(|s|, k requires 0 <= k < |s| => LowerChar(s[k]))
  }

  /** A string with no lower-case ASCII letter is its own upper-case form. */
  predicate IsUpperFolded(s: string) {
    forall k :: 0 <= k < |s| ==> !IsLowerAscii(s[k])
  }

  lemma UpperFoldedIsFixed(s: string)
    requires IsUpperFolded(s)
    ensures ToUpper(s) == s
  {
  }

  lemma ToUpperFolds(s: string)
    ensures IsUpperFolded(ToUpper(s))
  {
  }

  /** Any slice of folded text is folded. */
  lemma SliceFolded(s: string, i: int, j: int)
    requires IsUpperFolded(s) && 0 <= i <= j <= |s|
    ensures IsUpperFolded(s[i..j])
  {
    assert forall m :: 0 <= m < j - i ==> s[i..j][m] == s[i + m];
  }

  // ---------------------------------------------------------------------------
  // Whitespace and trimming.
  // ---------------------------------------------------------------------------

  /** Go's unicode.IsSpace: the Unicode White_Space property. */
  predicate GoSpace(c: char) {
    var n := c as int;
    (9 <= n <= 13) || n == 0x20 || n == 0x85 || n == 0xA0 || n == 0x1680
    || (0x2000 <= n <= 0x200A) || n == 0x2028 || n == 0x2029 || n == 0x202F
    || n == 0x205F || n == 0x3000
  }

  /** Python's str.isspace, which also counts the four ASCII separators 0x1C-0x1F. */
  predicate PySpace(c: char) {
    GoSpace(c) || (0x1C <= c as int <= 0x1F)
  }

  function TrimLeft(s: string, ws: char -> bool): (r: string)
    ensures |r| <= |s| && r == s[|s| - |r|..]
    ensures r == [] || !ws(r[0])
  {
    if s != [] && ws(s[0]) then TrimLeft(s[1..], ws) else s
  }

  function TrimRight(s: string, ws: char -> bool): (r: string)
    ensures r <= s
    ensures r == [] || !ws(r[|r| - 1])
  {
    if s != [] && ws(s[|s| - 1]) then TrimRight(s[..|s| - 1], ws) else s
  }

  /** strings.TrimSpace / str.strip: drop leading and trailing whitespace. */
  function Trim(s: string, ws: char -> bool): string {
    TrimRight(TrimLeft(s, ws), ws)
  }

  /** Trimming keeps a contiguous piece of the input whose ends are not whitespace. */
  lemma TrimIsSlice(s: string, ws: char -> bool)
    ensures exists i, j :: 0 <= i <= j <= |s| && Trim(s, ws) == s[i..j]
    ensures Trim(s, ws) == [] || (!ws(Trim(s, ws)[0]) && !ws(Trim(s, ws)[|Trim(s, ws)| - 1]))
  {
    var l := TrimLeft(s, ws);
    var r := TrimRight(l, ws);
    assert l == s[|s| - |l|..];
    assert r == l[..|r|];
    assert r == s[|s| - |l|..|s| - |l| + |r|];
  }

  /** A string whose ends are not whitespace is left as it is. */
  lemma TrimNoop(s: string, ws: char -> bool)
    requires s == [] || (!ws(s[0]) && !ws(s[|s| - 1]))
    ensures Trim(s, ws) == s
  {
  }

  // ---------------------------------------------------------------------------
  // strings.Split(s, sep) for a one-character separator, and its inverse.
  // ---------------------------------------------------------------------------

  function SplitOn(s: string, sep: char): (parts: seq<string>)
    ensures |parts| >= 1
    ensures forall k :: 0 <= k < |parts| ==> sep !in parts[k]
  {
    if s == [] then [[]]
    else
      var p := SplitOn(s[..|s| - 1], sep);
      var c := s[|s| - 1];
      if c == sep then p + [[]]
      else p[..|p| - 1] + [p[|p| - 1] + [c]]
  }

  function JoinWith(parts: seq<string>, sep: char): string
    requires |parts| >= 1
  {
    if |parts| == 1 then parts[0]
    else JoinWith(parts[..|parts| - 1], sep) + [sep] + parts[|parts| - 1]
  }

  /** Joining the pieces back with the separator restores the original string. */
  lemma {:induction false} SplitJoin(s: string, sep: char)
    ensures JoinWith(SplitOn(s, sep), sep) == s
  {
    if s != [] {
      var s' := s[..|s| - 1];
      var p := SplitOn(s', sep);
      SplitJoin(s', sep);
      var c := s[|s| - 1];
      if c == sep {
        assert (p + [[]])[..|p|] == p;
      } else {
        var q := p[..|p| - 1] + [p[|p| - 1] + [c]];
        if |p| > 1 {
          assert q[..|q| - 1] == p[..|p| - 1];
        }
      }
      assert s == s' + [c];
    }
  }

  /** One piece more than there are separators. */
  function Count(s: string, c: char): nat {
    if s == [] then 0 else Count(s[..|s| - 1], c) + (if s[|s| - 1] == c then 1 else 0)
  }

  lemma {:induction false} SplitCount(s: string, sep: char)
    ensures |SplitOn(s, sep)| == Count(s, sep) + 1
  {
    if s != [] {
      SplitCount(s[..|s| - 1], sep);
    }
  }

  // ---------------------------------------------------------------------------
  // Decimal formatting as fmt's %d does it, and the parse that inverts it.
  // ---------------------------------------------------------------------------

  predicate IsDigit(c: char) { '0' <= c <= '9' }

  function DigitChar(d: nat): (c: char)
    requires d < 10
    ensures IsDigit(c)
  {
    ('0' as int + d) as char
  }

  function DigitValue(c: char): nat
    requires IsDigit(c)
  {
    c as int - '0' as int
  }

  function NatToString(n: nat): (s: string)
    ensures |s| >= 1
    ensures forall k :: 0 <= k < |s| ==> IsDigit(s[k])
  {
    if n < 10 then [DigitChar(n)] else NatToString(n / 10) + [DigitChar(n % 10)]
  }

  /** `fmt.Sprintf("%d", i)`. */
  function IntToString(i: int): string {
    if i < 0 then "-" + NatToString(-i) else NatToString(i)
  }

  function ParseNat(s: string): nat
    requires forall k :: 0 <= k < |s| ==> IsDigit(s[k])
  {
    if s == [] then 0 else ParseNat(s[..|s| - 1]) * 10 + DigitValue(s[|s| - 1])
  }

  function ParseInt(s: string): int
    requires s != [] && s[0] == '-' ==> forall k :: 1 <= k < |s| ==> IsDigit(s[k])
    requires s == [] || s[0] != '-' ==> forall k :: 0 <= k < |s| ==> IsDigit(s[k])
  {
    if s != [] && s[0] == '-' then 0 - (ParseNat(s[1..]) as int) else ParseNat(s)
  }

  lemma {:induction false} NatRoundTrip(n: nat)
    ensures ParseNat(NatToString(n)) == n
  {
    if n >= 10 {
      NatRoundTrip(n / 10);
      var s := NatToString(n);
      assert s[..|s| - 1] == NatToString(n / 10);
    }
  }

  lemma IntRoundTrip(i: int)
    ensures ParseInt(IntToString(i)) == i
  {
    if i < 0 {
      NatRoundTrip(-i);
      assert IntToString(i)[1..] == NatToString(-i);
    } else {
      NatRoundTrip(i);
    }
  }

  /** Different integers print differently, and the printed form has no '_'. */
  lemma IntToStringInjective(a: int, b: int)
    ensures IntToString(a) == IntToString(b) ==> a == b
    ensures '_' !in IntToString(a)
  {
    IntRoundTrip(a);
    IntRoundTrip(b);
    assert forall k :: 0 <= k < |IntToString(a)| ==> IntToString(a)[k] == '-' || IsDigit(IntToString(a)[k]);
  }

  // ---------------------------------------------------------------------------
  // Filtering lines into a set of words.
  // ---------------------------------------------------------------------------

  /** The set of words `load` yields over the lines, one line at a time. */
  function Gather(lines: seq<string>, load: string -> Option<string>): set<string> {
    if lines == [] then {}
    else
      var g := load(lines[|lines| - 1]);
      Gather(lines[..|lines| - 1], load) + (if g.Some? then {g.value} else {})
  }

  lemma {:induction false} GatherSpec(lines: seq<string>, load: string -> Option<string>, w: string)
    ensures w in Gather(lines, load) <==> exists k :: 0 <= k < |lines| && load(lines[k]) == Some(w)
  {
    if lines != [] {
      var init := lines[..|lines| - 1];
      GatherSpec(init, load, w);
      if exists k :: 0 <= k < |lines| && load(lines[k]) == Some(w) {
        var k :| 0 <= k < |lines| && load(lines[k]) == Some(w);
        if k < |init| {
          assert init[k] == lines[k];
        }
      }
    }
  }

  // ---------------------------------------------------------------------------
  // Code-point order on strings, the order Python's sorted() uses.
  // ---------------------------------------------------------------------------

  predicate Less(a: string, b: string) {
    if a == [] then b != []
    else if b == [] then false
    else if a[0] != b[0] then a[0] < b[0]
    else Less(a[1..], b[1..])
  }

  lemma {:induction false} LessIrreflexive(a: string)
    ensures !Less(a, a)
  {
    if a != [] {
      LessIrreflexive(a[1..]);
    }
  }

  lemma {:induction false} LessTransitive(a: string, b: string, c: string)
    requires Less(a, b) && Less(b, c)
    ensures Less(a, c)
  {
    if a != [] && b != [] && c != [] && a[0] == b[0] && b[0] == c[0] {
      LessTransitive(a[1..], b[1..], c[1..]);
    }
  }

  lemma {:induction false} LessTotal(a: string, b: string)
    requires a != b
    ensures Less(a, b) || Less(b, a)
  {
    if a != [] && b != [] && a[0] == b[0] {
      assert a == [a[0]] + a[1..] && b == [b[0]] + b[1..];
      LessTotal(a[1..], b[1..]);
    }
  }
}
