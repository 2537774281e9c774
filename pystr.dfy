/** The Python 2 string operations that the PXE boot helper relies on.

    The helper runs under Python 2 and reads its inputs with `open(...).read()`,
    so every string here is a byte string: each `char` stands for one byte,
    `lower()` and `strip()` act on ASCII only, and the three `re.split` calls
    are modelled one by one for the patterns the helper passes
    (`' +'`, `'='` with maxsplit 1, and `'[^0-9a-f]'`). */
module PyStr {

  // ---------------------------------------------------------------------
  // Character classes
  // ---------------------------------------------------------------------

  /** A byte matched by the regular-expression class `[0-9a-f]`. */
  predicate IsHexLower(c: char) {
    '0' <= c <= '9' || 'a' <= c <= 'f'
  }

  /** A hexadecimal digit of either case. */
  predicate IsHexDigit(c: char) {
    IsHexLower(c) || 'A' <= c <= 'F'
  }

  predicate IsUpper(c: char) {
    'A' <= c <= 'Z'
  }

  /** A byte that Python 2's `str.strip()` removes: space, \t, \n, \r, \v, \f. */
  predicate IsWhitespace(c: char) {
    c == ' ' || c == '\t' || c == '\n' || c == '\r' || c == '\U{B}' || c == '\U{C}'
  }

  predicate AllHexLower(s: string) {
    forall i :: 0 <= i < |s| ==> IsHexLower(s[i])
  }

  predicate AllHexDigits(s: string) {
    forall i :: 0 <= i < |s| ==> IsHexDigit(s[i])
  }

  predicate AllWhitespace(s: string) {
    forall i :: 0 <= i < |s| ==> IsWhitespace(s[i])
  }

  /** Number of occurrences of `c` in `s`. */
  function CountChar(c: char, s: string): nat {
    if s == [] then 0 else (if s[0] == c then 1 else 0) + CountChar(c, s[1..])
  }

  lemma {:induction false} CountCharAppend(c: char, a: string, b: string)
    ensures CountChar(c, a + b) == CountChar(c, a) + CountChar(c, b)
  {
    if a == [] {
      assert a + b == b;
    } else {
      assert (a + b)[1..] == a[1..] + b;
      CountCharAppend(c, a[1..], b);
    }
  }

  // ---------------------------------------------------------------------
  // str.lower()
  // ---------------------------------------------------------------------

  function LowerChar(c: char): char {
    if IsUpper(c) then (c as int + 32) as char else c
  }

  /** Python 2 `str.lower()`: ASCII capitals become small letters and every
      other byte is kept, position by position. */
  function Lower(s: string): (r: string)
    ensures |r| == |s|
    ensures forall i :: 0 <= i < |s| ==> !IsUpper(r[i])
    ensures forall i :: 0 <= i < |s| && !IsUpper(s[i]) ==> r[i] == s[i]
    ensures forall i :: 0 <= i < |s| && IsUpper(s[i]) ==> r[i] as int == s[i] as int + 32
  {
    seq(|s|, i requires 0 <= i < |s| => LowerChar(s[i]))
  }

  /** After lowering, a byte is in `[0-9a-f]` exactly when it was a hex
      digit of either case. */
  lemma LowerCharHex(c: char)
    ensures IsHexLower(LowerChar(c)) <==> IsHexDigit(c)
  {
  }

  lemma LowerAppend(a: string, b: string)
    ensures Lower(a + b) == Lower(a) + Lower(b)
  {
    assert forall i :: 0 <= i < |a + b| ==> Lower(a + b)[i] == (Lower(a) + Lower(b))[i];
  }

  // ---------------------------------------------------------------------
  // str.strip()
  // ---------------------------------------------------------------------

  /** `s` without its trailing whitespace. */
  function TrimRight(s: string): (r: string)
    ensures |r| <= |s| && r == s[..|r|]
    ensures AllWhitespace(s[|r|..])
    ensures r == [] || !IsWhitespace(r[|r| - 1])
  {
    if s != [] && IsWhitespace(s[|s| - 1]) then
      var r := TrimRight(s[..|s| - 1]);
      assert s[|r|..] == s[..|s| - 1][|r|..] + [s[|s| - 1]];
      r
    else s
  }

  /** Python 2 `str.strip()`: drops whitespace from the front, then from the
      back; what is left starts and ends with a byte that is not whitespace. */
  function Strip(s: string): (r: string)
    ensures |r| <= |s|
    ensures r == [] || (!IsWhitespace(r[0]) && !IsWhitespace(r[|r| - 1]))
  {
    if s != [] && IsWhitespace(s[0]) then Strip(s[1..]) else TrimRight(s)
  }

  /** What `Strip` keeps is `s` less some whitespace at each end. */
  lemma {:induction false} StripUnpadded(s: string)
    ensures exists w1, w2 :: AllWhitespace(w1) && AllWhitespace(w2) && s == w1 + Strip(s) + w2
    decreases |s|, 1
  {
    if s != [] && IsWhitespace(s[0]) {
      StripUnpaddedFront(s);
    } else {
      var r := Strip(s);
      assert s == [] + r + s[|r|..];
    }
  }

  lemma {:induction false} StripUnpaddedFront(s: string)
    requires s != [] && IsWhitespace(s[0])
    ensures exists w1, w2 :: AllWhitespace(w1) && AllWhitespace(w2) && s == w1 + Strip(s) + w2
    decreases |s|, 0
  {
    var r := Strip(s);
    assert r == Strip(s[1..]);
    StripUnpadded(s[1..]);
    var w1, w2 :| AllWhitespace(w1) && AllWhitespace(w2) && s[1..] == w1 + r + w2;
    var v := [s[0]] + w1;
    assert AllWhitespace(v);
    assert s == v + r + w2 by {
      assert s == [s[0]] + s[1..];
    }
  }

  /** Surrounding whitespace is exactly what `Strip` removes: a string whose
      ends are not whitespace comes back unchanged from any padding. */
  lemma {:induction false} StripPadded(w1: string, x: string, w2: string)
    requires AllWhitespace(w1) && AllWhitespace(w2)
    requires x == [] || (!IsWhitespace(x[0]) && !IsWhitespace(x[|x| - 1]))
    ensures Strip(w1 + x + w2) == x
  {
    assert w1 + x + w2 == w1 + (x + w2);
    if x == [] {
      assert x + w2 == w2;
      StripLeftPadded(w1 + w2, []);
      assert w1 + w2 + [] == w1 + x + w2;
      assert TrimRight([]) == [];
    } else {
      StripLeftPadded(w1, x + w2);
      TrimRightPadded(x, w2);
    }
  }

  lemma {:induction false} StripLeftPadded(w: string, y: string)
    requires AllWhitespace(w)
    requires y == [] || !IsWhitespace(y[0])
    ensures Strip(w + y) == TrimRight(y)
  {
    if w != [] {
      assert (w + y)[1..] == w[1..] + y;
      StripLeftPadded(w[1..], y);
    } else {
      assert w + y == y;
    }
  }

  lemma {:induction false} TrimRightPadded(x: string, w: string)
    requires AllWhitespace(w)
    requires x == [] || !IsWhitespace(x[|x| - 1])
    ensures TrimRight(x + w) == x
  {
    if w != [] {
      assert (x + w)[..|x + w| - 1] == x + w[..|w| - 1];
      TrimRightPadded(x, w[..|w| - 1]);
    } else {
      assert x + w == x;
    }
  }

  lemma StripIdempotent(s: string)
    ensures Strip(Strip(s)) == Strip(s)
  {
    var r := Strip(s);
    assert [] + r + [] == r;
    StripPadded([], r, []);
  }

  // ---------------------------------------------------------------------
  // sep.join(xs)
  // ---------------------------------------------------------------------

  /** Python `sep.join(xs)` for a one-byte separator: the first field starts
      the result, the last ends it, and a separator stands between each two. */
  function Join(sep: char, xs: seq<string>): (r: string)
    ensures xs != [] ==> xs[0] <= r
  {
    if |xs| == 0 then []
    else if |xs| == 1 then xs[0]
    else xs[0] + [sep] + Join(sep, xs[1..])
  }

  /** Prepending a byte to the first string prepends it to the joined one. */
  lemma JoinCons(sep: char, c: char, xs: seq<string>)
    requires |xs| > 0
    ensures Join(sep, [[c] + xs[0]] + xs[1..]) == [c] + Join(sep, xs)
  {
    var ys := [[c] + xs[0]] + xs[1..];
    if |xs| > 1 {
      assert ys[1..] == xs[1..];
    }
  }

  /** Appending a string appends it after one more separator. */
  lemma {:induction false} JoinSnoc(sep: char, xs: seq<string>, y: string)
    requires |xs| > 0
    ensures Join(sep, xs + [y]) == Join(sep, xs) + [sep] + y
  {
    if |xs| == 1 {
      assert (xs + [y])[1..] == [y];
    } else {
      assert (xs + [y])[1..] == xs[1..] + [y];
      JoinSnoc(sep, xs[1..], y);
    }
  }

  /** `Lower` applied to each string. */
  function LowerAll(xs: seq<string>): (r: seq<string>)
    ensures |r| == |xs|
    ensures forall k :: 0 <= k < |xs| ==> r[k] == Lower(xs[k])
  {
    seq(|xs|, k requires 0 <= k < |xs| => Lower(xs[k]))
  }

  /** Lowering a joined string lowers each part, when the separator is not
      a capital letter. */
  lemma {:induction false} LowerJoin(sep: char, xs: seq<string>)
    requires !IsUpper(sep)
    ensures Lower(Join(sep, xs)) == Join(sep, LowerAll(xs))
  {
    if |xs| > 1 {
      LowerJoin(sep, xs[1..]);
      LowerAppend(xs[0] + [sep], Join(sep, xs[1..]));
      LowerAppend(xs[0], [sep]);
      assert LowerAll(xs)[1..] == LowerAll(xs[1..]);
    }
  }

  /** Joining strings free of `sep` yields one `sep` fewer than there are
      strings, and every other byte comes from one of the strings. */
  lemma {:induction false} JoinCount(sep: char, xs: seq<string>, P: char -> bool)
    requires |xs| > 0
    requires forall k :: 0 <= k < |xs| ==> sep !in xs[k]
    requires forall k, i :: 0 <= k < |xs| && 0 <= i < |xs[k]| ==> P(xs[k][i])
    ensures CountChar(sep, Join(sep, xs)) == |xs| - 1
    ensures forall i :: 0 <= i < |Join(sep, xs)| ==> Join(sep, xs)[i] == sep || P(Join(sep, xs)[i])
  {
    if |xs| == 1 {
      NoCharCount(sep, xs[0]);
    } else {
      JoinCount(sep, xs[1..], P);
      NoCharCount(sep, xs[0]);
      CountCharAppend(sep, xs[0] + [sep], Join(sep, xs[1..]));
      CountCharAppend(sep, xs[0], [sep]);
      var r := Join(sep, xs);
      var t := Join(sep, xs[1..]);
      assert r == xs[0] + [sep] + t;
      forall i | 0 <= i < |r| ensures r[i] == sep || P(r[i]) {
        if i < |xs[0]| {
          assert r[i] == xs[0][i];
        } else if i > |xs[0]| {
          assert r[i] == t[i - |xs[0]| - 1];
        }
      }
    }
  }

  lemma {:induction false} NoCharCount(c: char, s: string)
    requires c !in s
    ensures CountChar(c, s) == 0
  {
    if s != [] {
      assert s[0] != c;
      assert forall x :: x in s[1..] ==> x in s;
      NoCharCount(c, s[1..]);
    }
  }

  // ---------------------------------------------------------------------
  // re.split(' +', s)
  // ---------------------------------------------------------------------

  /** `s` without its leading spaces. */
  function DropSpaces(s: string): (r: string)
    ensures |r| <= |s| && r == s[|s| - |r|..]
    ensures forall i :: 0 <= i < |s| - |r| ==> s[i] == ' '
    ensures r == [] || r[0] != ' '
  {
    if s != [] && s[0] == ' ' then DropSpaces(s[1..]) else s
  }

  /** Adds byte `c` to the front of the first field. */
  function Cons(c: char, fields: seq<string>): seq<string>
    requires |fields| > 0
  {
    [[c] + fields[0]] + fields[1..]
  }

  /** The shape of every result of `re.split(' +', s)`: at least one token,
      no token holds a space, and only the first and the last token may be
      empty (they are, when `s` starts or ends with a space). */
  predicate SpaceTokens(toks: seq<string>) {
    |toks| > 0
    && (forall k :: 0 <= k < |toks| ==> ' ' !in toks[k])
    && (forall k :: 0 < k < |toks| - 1 ==> toks[k] != [])
  }

  /** Python `re.split(' +', s)`: cuts `s` at every maximal run of spaces.
      Only the space byte separates: tabs and newlines stay in the tokens. */
  function SplitSpaces(s: string): (toks: seq<string>)
    ensures SpaceTokens(toks)
    ensures s != [] && s[0] != ' ' ==> toks[0] != []
    decreases |s|
  {
    if s == [] then [[]]
    else if s[0] == ' ' then [[]] + SplitSpaces(DropSpaces(s[1..]))
    else Cons(s[0], SplitSpaces(s[1..]))
  }

  /** `s` with every run of spaces collapsed into a single space. */
  function Squeeze(s: string): string
    decreases |s|
  {
    if s == [] then []
    else if s[0] == ' ' then " " + Squeeze(DropSpaces(s[1..]))
    else [s[0]] + Squeeze(s[1..])
  }

  /** Joining the tokens back with single spaces gives `s` with its runs of
      spaces collapsed; nothing else of `s` is lost. */
  lemma {:induction false} JoinSplitSpaces(s: string)
    ensures Join(' ', SplitSpaces(s)) == Squeeze(s)
    decreases |s|
  {
    if s == [] {
    } else if s[0] == ' ' {
      var d := DropSpaces(s[1..]);
      JoinSplitSpaces(d);
      var toks := SplitSpaces(d);
      assert ([[]] + toks)[1..] == toks;
    } else {
      JoinSplitSpaces(s[1..]);
      JoinCons(' ', s[0], SplitSpaces(s[1..]));
    }
  }

  /** A string with no space is a single token. */
  lemma {:induction false} SplitSpacesSingle(s: string)
    ensures ' ' !in s <==> SplitSpaces(s) == [s]
  {
    assert ' ' !in SplitSpaces(s)[0];
    if ' ' !in s {
      NoSpaceToken(s);
    }
  }

  lemma {:induction false} NoSpaceToken(s: string)
    requires ' ' !in s
    ensures SplitSpaces(s) == [s]
  {
    if s != [] {
      assert s[0] != ' ';
      assert forall x :: x in s[1..] ==> x in s;
      NoSpaceToken(s[1..]);
      assert [s[0]] + s[1..] == s;
    }
  }

  /** A space-free prefix is glued to the first token of what follows. */
  lemma {:induction false} SplitSpacesPrefix(t: string, u: string)
    requires ' ' !in t
    ensures SplitSpaces(t + u) == [t + SplitSpaces(u)[0]] + SplitSpaces(u)[1..]
  {
    if t == [] {
      assert t + u == u;
      var tu := SplitSpaces(u);
      assert t + tu[0] == tu[0];
      assert [tu[0]] + tu[1..] == tu;
    } else {
      assert t[0] != ' ';
      assert forall x :: x in t[1..] ==> x in t;
      assert (t + u)[1..] == t[1..] + u;
      SplitSpacesPrefix(t[1..], u);
      assert [t[0]] + (t[1..] + SplitSpaces(u)[0]) == t + SplitSpaces(u)[0];
    }
  }

  /** A space before a string that does not start with one adds an empty
      first token. */
  lemma SplitAfterSpace(j: string, rest: seq<string>)
    requires |rest| > 0 && (|rest| > 1 ==> rest[0] != []) && j == Join(' ', rest)
    requires SplitSpaces(j) == rest && ' ' !in rest[0]
    ensures SplitSpaces(" " + j) == [[]] + rest
  {
    if rest[0] != [] {
      assert j[0] == rest[0][0];
    }
    assert DropSpaces(j) == j;
    assert (" " + j)[1..] == j;
  }

  /** `re.split(' +', ...)` inverts joining with single spaces, for every
      token list of the shape it produces. */
  lemma {:induction false} SplitJoinSpaces(toks: seq<string>)
    requires SpaceTokens(toks)
    ensures SplitSpaces(Join(' ', toks)) == toks
  {
    if |toks| == 1 {
      NoSpaceToken(toks[0]);
    } else {
      var rest := toks[1..];
      assert SpaceTokens(rest) by {
        assert forall k :: 0 < k < |rest| - 1 ==> rest[k] == toks[k + 1];
      }
      SplitJoinSpaces(rest);
      var j := Join(' ', rest);
      assert rest[0] == toks[1];
      SplitAfterSpace(j, rest);
      SplitSpacesPrefix(toks[0], " " + j);
      assert toks[0] + [' '] + j == toks[0] + (" " + j);
      assert ([[]] + rest)[1..] == rest;
      assert toks[0] + [] == toks[0];
    }
  }

  // ---------------------------------------------------------------------
  // re.split(sep, s, 1)
  // ---------------------------------------------------------------------

  /** Python `re.split(sep, s, 1)` for a literal one-byte pattern: `[s]`
      when `sep` does not occur, otherwise the parts before and after its
      first occurrence (the second part may contain `sep` again). */
  function SplitFirst(s: string, sep: char): (parts: seq<string>)
    ensures |parts| == 1 || |parts| == 2
    ensures |parts| == 1 <==> sep !in s
    ensures |parts| == 1 ==> parts[0] == s
    ensures |parts| == 2 ==> sep !in parts[0] && s == parts[0] + [sep] + parts[1]
  {
    if s == [] then [s]
    else if s[0] == sep then [[], s[1..]]
    else
      var p := SplitFirst(s[1..], sep);
      if |p| == 1 then [s] else [[s[0]] + p[0], p[1]]
  }

  // ---------------------------------------------------------------------
  // re.split('[^0-9a-f]', s)
  // ---------------------------------------------------------------------

  function CountNonHex(s: string): nat {
    if s == [] then 0 else (if IsHexLower(s[0]) then 0 else 1) + CountNonHex(s[1..])
  }

  /** Python `re.split('[^0-9a-f]', s)`: cuts `s` at every single byte
      outside `[0-9a-f]`, so two such bytes in a row give an empty field. */
  function SplitNonHex(s: string): (fields: seq<string>)
    ensures |fields| == CountNonHex(s) + 1
    ensures forall k :: 0 <= k < |fields| ==> AllHexLower(fields[k])
  {
    if s == [] then [[]]
    else if IsHexLower(s[0]) then Cons(s[0], SplitNonHex(s[1..]))
    else [[]] + SplitNonHex(s[1..])
  }

  /** `s` with every byte outside `[0-9a-f]` replaced by `c`. */
  function ReplaceNonHex(s: string, c: char): string {
    seq(|s|, i requires 0 <= i < |s| => if IsHexLower(s[i]) then s[i] else c)
  }

  /** Re-joining the fields with `c` puts `c` where each separator stood:
      splitting loses which byte separated, and nothing else. */
  lemma {:induction false} JoinSplitNonHex(s: string, c: char)
    ensures Join(c, SplitNonHex(s)) == ReplaceNonHex(s, c)
  {
    if s != [] {
      JoinSplitNonHex(s[1..], c);
      var fs := SplitNonHex(s[1..]);
      if IsHexLower(s[0]) {
        JoinCons(c, s[0], fs);
      } else {
        assert ([[]] + fs)[1..] == fs;
      }
      assert ReplaceNonHex(s, c) == ReplaceNonHex(s[..1], c) + ReplaceNonHex(s[1..], c);
    }
  }

  /** A prefix made only of `[0-9a-f]` bytes is glued to the first field of
      what follows. */
  lemma {:induction false} SplitNonHexPrefix(t: string, u: string)
    requires AllHexLower(t)
    ensures SplitNonHex(t + u) == [t + SplitNonHex(u)[0]] + SplitNonHex(u)[1..]
  {
    var fu := SplitNonHex(u);
    if t == [] {
      assert t + u == u;
      assert t + fu[0] == fu[0];
      assert [fu[0]] + fu[1..] == fu;
    } else {
      assert (t + u)[1..] == t[1..] + u;
      SplitNonHexPrefix(t[1..], u);
      assert [t[0]] + (t[1..] + fu[0]) == t + fu[0];
    }
  }

  /** `re.split('[^0-9a-f]', ...)` inverts joining fields of `[0-9a-f]`
      bytes with any one separator outside that class. */
  lemma {:induction false} SplitJoinNonHex(fields: seq<string>, c: char)
    requires |fields| > 0 && !IsHexLower(c)
    requires forall k :: 0 <= k < |fields| ==> AllHexLower(fields[k])
    ensures SplitNonHex(Join(c, fields)) == fields
  {
    if |fields| == 1 {
      SplitNonHexAllHex(fields[0]);
    } else {
      var rest := fields[1..];
      SplitJoinNonHex(rest, c);
      var j := Join(c, rest);
      assert SplitNonHex([c] + j) == [[]] + rest by {
        assert ([c] + j)[1..] == j;
      }
      SplitNonHexPrefix(fields[0], [c] + j);
      assert fields[0] + [c] + j == fields[0] + ([c] + j);
      assert ([[]] + rest)[1..] == rest;
      assert fields[0] + [] == fields[0];
    }
  }

  /** A separator at the very end adds one empty field. */
  lemma {:induction false} SplitNonHexSuffix(s: string, d: char)
    requires !IsHexLower(d)
    ensures SplitNonHex(s + [d]) == SplitNonHex(s) + [[]]
  {
    if s == [] {
      assert s + [d] == [d];
      assert [d][1..] == [];
    } else {
      assert (s + [d])[1..] == s[1..] + [d];
      SplitNonHexSuffix(s[1..], d);
      var f := SplitNonHex(s[1..]);
      if IsHexLower(s[0]) {
        assert Cons(s[0], f + [[]]) == Cons(s[0], f) + [[]];
      } else {
        assert [[]] + (f + [[]]) == [[]] + f + [[]];
      }
    }
  }

  /** A string made only of `[0-9a-f]` bytes is a single field. */
  lemma {:induction false} SplitNonHexAllHex(s: string)
    requires AllHexLower(s)
    ensures SplitNonHex(s) == [s]
  {
    if s != [] {
      SplitNonHexAllHex(s[1..]);
      assert [s[0]] + s[1..] == s;
    }
  }
}
