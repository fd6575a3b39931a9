/** The two JavaScript string operations the CSV reader is built from:
    `String.prototype.split` with a one-character separator and
    `String.prototype.trim`. */
module JsStrings {

  /** ECMAScript's WhiteSpace and LineTerminator code points, the characters
      `trim` removes from both ends: tab, LF, VT, FF, CR, space, NBSP, the
      Unicode space separators (category Zs), LS, PS and the byte-order mark. */
  predicate IsWhitespace(c: char) {
    || c == '\t' || c == '\n' || c == '\U{000B}' || c == '\U{000C}' || c == '\r'
    || c == ' ' || c == '\U{00A0}' || c == '\U{1680}' || '\U{2000}' <= c <= '\U{200A}'
    || c == '\U{2028}' || c == '\U{2029}' || c == '\U{202F}' || c == '\U{205F}'
    || c == '\U{3000}' || c == '\U{FEFF}'
  }

  predicate AllWhitespace(s: string) {
    forall k :: 0 <= k < |s| ==> IsWhitespace(s[k])
  }

  // ---------------------------------------------------------------------
  // split
  // ---------------------------------------------------------------------

  /** `s.split(sep)`: the pieces between occurrences of `sep`. Empty pieces
      are kept, so there is always at least one piece (the empty string
      splits into one empty piece) and no piece holds the separator. */
  function Split(s: string, sep: char): (pieces: seq<string>)
    ensures |pieces| >= 1
    ensures forall i :: 0 <= i < |pieces| ==> sep !in pieces[i]
  {
    if s == [] then [[]]
    else
      var rest := Split(s[1..], sep);
      if s[0] == sep then [[]] + rest
      else [[s[0]] + rest[0]] + rest[1..]
  }

  /** Every occurrence of the separator ends a piece: a text holding `k`
      separators splits into `k + 1` pieces. */
  lemma {:induction false} SplitCount(s: string, sep: char)
    ensures |Split(s, sep)| == multiset(s)[sep] + 1
  {
    if s != [] {
      SplitCount(s[1..], sep);
      assert s == [s[0]] + s[1..];
    }
  }

  /** `pieces.join(sep)`, the inverse of `Split`. */
  function Join(pieces: seq<string>, sep: char): string
  {
    if |pieces| == 0 then []
    else if |pieces| == 1 then pieces[0]
    else pieces[0] + [sep] + Join(pieces[1..], sep)
  }

  /** Joining the pieces back with the separator gives the original text. */
  lemma {:induction false} JoinSplit(s: string, sep: char)
    ensures Join(Split(s, sep), sep) == s
  {
    if s != [] {
      var rest := Split(s[1..], sep);
      JoinSplit(s[1..], sep);
      if s[0] != sep && |rest| > 1 {
        assert rest == [rest[0]] + rest[1..];
      }
    }
  }

  /** A text without the separator is one piece. */
  lemma {:induction false} SplitWithoutSep(s: string, sep: char)
    requires sep !in s
    ensures Split(s, sep) == [s]
  {
    if s != [] {
      SplitWithoutSep(s[1..], sep);
      assert s == [s[0]] + s[1..];
    }
  }

  /** A prefix without the separator is glued onto the first piece. */
  lemma {:induction false} SplitPrefixWithoutSep(x: string, y: string, sep: char)
    requires sep !in x
    ensures Split(x + y, sep) == [x + Split(y, sep)[0]] + Split(y, sep)[1..]
  {
    if x == [] {
      var t := Split(y, sep);
      assert x + y == y && x + t[0] == t[0];
      assert t == [t[0]] + t[1..];
    } else {
      assert (x + y)[1..] == x[1..] + y;
      SplitPrefixWithoutSep(x[1..], y, sep);
      var t := Split(y, sep);
      assert x[0] != sep && (x + y)[0] == x[0];
      var r := Split(x[1..] + y, sep);
      assert r == [x[1..] + t[0]] + t[1..];
      assert r[1..] == t[1..];
      assert [x[0]] + (x[1..] + t[0]) == x + t[0];
    }
  }

  /** A suffix without the separator is glued onto the last piece. */
  lemma {:induction false} SplitSuffixWithoutSep(x: string, y: string, sep: char)
    requires sep !in y
    ensures var p := Split(x, sep);
      Split(x + y, sep) == p[..|p| - 1] + [p[|p| - 1] + y]
  {
    if x == [] {
      assert x + y == y;
      SplitWithoutSep(y, sep);
    } else {
      assert (x + y)[1..] == x[1..] + y;
      SplitSuffixWithoutSep(x[1..], y, sep);
      var t := Split(x[1..], sep);
      if x[0] != sep {
        GlueFirstAndLast([x[0]], t, y);
      } else {
        GlueLast([], t, y);
      }
    }
  }

  /** Gluing `a` onto the first piece and `y` onto the last commute. */
  lemma GlueFirstAndLast<T>(a: seq<T>, t: seq<seq<T>>, y: seq<T>)
    requires |t| >= 1
    ensures var r := t[..|t| - 1] + [t[|t| - 1] + y];
      var p := [a + t[0]] + t[1..];
      [a + r[0]] + r[1..] == p[..|p| - 1] + [p[|p| - 1] + y]
  {
    if |t| == 1 {
      assert a + (t[0] + y) == (a + t[0]) + y;
    } else {
      var r := t[..|t| - 1] + [t[|t| - 1] + y];
      assert r[1..] == t[1..|t| - 1] + [t[|t| - 1] + y];
      var p := [a + t[0]] + t[1..];
      assert p[..|p| - 1] == [a + t[0]] + t[1..|t| - 1];
    }
  }

  /** Putting a piece in front and gluing `y` onto the last piece commute. */
  lemma GlueLast<T>(e: seq<T>, t: seq<seq<T>>, y: seq<T>)
    requires |t| >= 1
    ensures var p := [e] + t;
      [e] + (t[..|t| - 1] + [t[|t| - 1] + y]) == p[..|p| - 1] + [p[|p| - 1] + y]
  {
    var p := [e] + t;
    assert p[..|p| - 1] == [e] + t[..|t| - 1];
  }

  /** Splitting distributes over a separator: `x + sep + y` gives the pieces
      of `x` followed by the pieces of `y`. */
  lemma {:induction false} SplitAtSep(x: string, y: string, sep: char)
    ensures Split(x + [sep] + y, sep) == Split(x, sep) + Split(y, sep)
  {
    if x == [] {
      assert x + [sep] + y == [sep] + y;
      assert ([sep] + y)[1..] == y;
    } else {
      assert (x + [sep] + y)[1..] == x[1..] + [sep] + y;
      SplitAtSep(x[1..], y, sep);
    }
  }

  /** The other direction of the round trip: pieces free of the separator
      are recovered by splitting their join. */
  lemma {:induction false} SplitJoin(pieces: seq<string>, sep: char)
    requires |pieces| >= 1
    requires forall i :: 0 <= i < |pieces| ==> sep !in pieces[i]
    ensures Split(Join(pieces, sep), sep) == pieces
  {
    if |pieces| == 1 {
      SplitWithoutSep(pieces[0], sep);
    } else {
      SplitJoin(pieces[1..], sep);
      SplitAtSep(pieces[0], Join(pieces[1..], sep), sep);
      SplitWithoutSep(pieces[0], sep);
      assert pieces == [pieces[0]] + pieces[1..];
    }
  }

  // ---------------------------------------------------------------------
  // trim
  // ---------------------------------------------------------------------

  /** `s.trimStart()`: what is left once leading whitespace is removed. */
  function TrimStart(s: string): (r: string)
    ensures |r| <= |s|
  {
    if s != [] && IsWhitespace(s[0]) then TrimStart(s[1..]) else s
  }

  /** `s.trimEnd()`: what is left once trailing whitespace is removed. */
  function TrimEnd(s: string): (r: string)
    ensures |r| <= |s|
  {
    if s != [] && IsWhitespace(s[|s| - 1]) then TrimEnd(s[..|s| - 1]) else s
  }

  /** `s.trim()`: whitespace removed from both ends. */
  function Trim(s: string): (r: string)
    ensures |r| <= |s|
  {
    TrimEnd(TrimStart(s))
  }

  /** `trimStart` keeps a suffix that does not start with whitespace. */
  lemma {:induction false} TrimStartSuffix(s: string)
    ensures TrimStart(s) == s[|s| - |TrimStart(s)|..]
    ensures TrimStart(s) != [] ==> !IsWhitespace(TrimStart(s)[0])
  {
    if s != [] && IsWhitespace(s[0]) {
      TrimStartSuffix(s[1..]);
      var r := TrimStart(s);
      assert s[1..][|s| - 1 - |r|..] == s[|s| - |r|..];
    }
  }

  /** `trimEnd` keeps a prefix that does not end with whitespace. */
  lemma {:induction false} TrimEndPrefix(s: string)
    ensures TrimEnd(s) == s[..|TrimEnd(s)|]
    ensures TrimEnd(s) != [] ==> !IsWhitespace(TrimEnd(s)[|TrimEnd(s)| - 1])
  {
    if s != [] && IsWhitespace(s[|s| - 1]) {
      TrimEndPrefix(s[..|s| - 1]);
      var r := TrimEnd(s);
      assert s[..|s| - 1][..|r|] == s[..|r|];
    }
  }

  /** A non-empty trimmed text neither starts nor ends with whitespace. */
  lemma TrimEnds(s: string)
    ensures Trim(s) != [] ==> !IsWhitespace(Trim(s)[0]) && !IsWhitespace(Trim(s)[|Trim(s)| - 1])
  {
    var t := TrimStart(s);
    TrimStartSuffix(s);
    TrimEndPrefix(t);
    var r := TrimEnd(t);
    if r != [] {
      assert r[0] == t[0];
    }
  }

  /** What `trimStart` removes is whitespace only. */
  lemma {:induction false} TrimStartRemovesWhitespace(s: string)
    ensures AllWhitespace(s[..|s| - |TrimStart(s)|])
  {
    if s != [] && IsWhitespace(s[0]) {
      TrimStartRemovesWhitespace(s[1..]);
      var n := |s| - |TrimStart(s)|;
      assert forall k :: 1 <= k < n ==> s[..n][k] == s[1..][..n - 1][k - 1];
      assert s[..n][0] == s[0];
    }
  }

  /** What `trimEnd` removes is whitespace only. */
  lemma {:induction false} TrimEndRemovesWhitespace(s: string)
    ensures AllWhitespace(s[|TrimEnd(s)|..])
  {
    if s != [] && IsWhitespace(s[|s| - 1]) {
      var m := |s| - 1;
      TrimEndRemovesWhitespace(s[..m]);
      var n := |TrimEnd(s)|;
      assert forall k :: 0 <= k < m - n ==> s[n..][k] == s[..m][n..][k];
      assert s[n..][m - n] == s[m];
    }
  }

  lemma AllWhitespaceJoin(x: string, y: string)
    requires AllWhitespace(x) && AllWhitespace(y)
    ensures AllWhitespace(x + y)
  {
    forall k | 0 <= k < |x + y| ensures IsWhitespace((x + y)[k]) {
      if k >= |x| { assert (x + y)[k] == y[k - |x|]; }
    }
  }

  /** The trimmed text is the input with only whitespace cut away on
      either side; the lemma returns the two parts cut away. */
  lemma TrimSlice(s: string) returns (p: string, q: string)
    ensures s == p + Trim(s) + q
    ensures AllWhitespace(p) && AllWhitespace(q)
  {
    var t := TrimStart(s);
    TrimStartSuffix(s);
    TrimStartRemovesWhitespace(s);
    TrimEndPrefix(t);
    TrimEndRemovesWhitespace(t);
    var r := TrimEnd(t);
    p, q := s[..|s| - |t|], t[|r|..];
    PrefixMiddleSuffix(s, t, r);
  }

  /** A prefix `r` of a suffix `t` of `s` splits `s` into three parts. */
  lemma PrefixMiddleSuffix<T>(s: seq<T>, t: seq<T>, r: seq<T>)
    requires |t| <= |s| && t == s[|s| - |t|..]
    requires |r| <= |t| && r == t[..|r|]
    ensures s == s[..|s| - |t|] + r + t[|r|..]
  {
    assert t == r + t[|r|..];
  }

  /** Trimming yields nothing exactly when the text is all whitespace. */
  lemma TrimBlank(s: string)
    ensures Trim(s) == [] <==> AllWhitespace(s)
  {
    var p, q := TrimSlice(s);
    TrimEnds(s);
    if Trim(s) == [] {
      assert s == p + q;
      AllWhitespaceJoin(p, q);
    } else {
      assert s[|p|] == Trim(s)[0];
    }
  }

  /** Leading whitespace does not change what `trimStart` keeps. */
  lemma {:induction false} TrimStartPadded(p: string, x: string)
    requires AllWhitespace(p)
    ensures TrimStart(p + x) == TrimStart(x)
  {
    if p == [] {
      assert p + x == x;
    } else {
      assert (p + x)[0] == p[0];
      assert (p + x)[1..] == p[1..] + x;
      TrimStartPadded(p[1..], x);
    }
  }

  /** Trailing whitespace does not change what `trimEnd` keeps. */
  lemma {:induction false} TrimEndPadded(x: string, q: string)
    requires AllWhitespace(q)
    ensures TrimEnd(x + q) == TrimEnd(x)
  {
    if q == [] {
      assert x + q == x;
    } else {
      var n := |q| - 1;
      assert (x + q)[|x| + n] == q[n];
      assert (x + q)[..|x| + n] == x + q[..n];
      assert AllWhitespace(q[..n]) by {
        forall k | 0 <= k < n ensures IsWhitespace(q[..n][k]) { assert q[..n][k] == q[k]; }
      }
      TrimEndPadded(x, q[..n]);
    }
  }

  /** Once `trimStart` stops inside `x`, whatever follows is kept. */
  lemma {:induction false} TrimStartAppend(x: string, q: string)
    requires TrimStart(x) != []
    ensures TrimStart(x + q) == TrimStart(x) + q
  {
    assert (x + q)[0] == x[0];
    if IsWhitespace(x[0]) {
      assert (x + q)[1..] == x[1..] + q;
      TrimStartAppend(x[1..], q);
    }
  }

  /** Whitespace padding on either side does not change the trimmed text. */
  lemma TrimPadded(p: string, x: string, q: string)
    requires AllWhitespace(p) && AllWhitespace(q)
    ensures Trim(p + x + q) == Trim(x)
  {
    assert p + x + q == p + (x + q);
    TrimStartPadded(p, x + q);
    if TrimStart(x) != [] {
      TrimStartAppend(x, q);
      TrimEndPadded(TrimStart(x), q);
    } else {
      TrimBlank(x);
      AllWhitespaceJoin(x, q);
      TrimStartPadded(x + q, []);
      assert x + q + [] == x + q;
    }
  }

  /** Trimming is determined by what it keeps: a text with no whitespace at
      either end, padded with whitespace on both sides, trims back to itself. */
  lemma TrimUnique(p: string, m: string, q: string)
    requires AllWhitespace(p) && AllWhitespace(q)
    requires m != [] ==> !IsWhitespace(m[0]) && !IsWhitespace(m[|m| - 1])
    ensures Trim(p + m + q) == m
  {
    TrimPadded(p, m, q);
  }

  /** Trimming twice is trimming once. */
  lemma TrimIdempotent(s: string)
    ensures Trim(Trim(s)) == Trim(s)
  {
    var t := Trim(s);
    TrimEnds(s);
    TrimUnique([], t, []);
    assert [] + t + [] == t;
  }

  /** A separator that is not whitespace never occurs in whitespace. */
  lemma SepNotInWhitespace(p: string, sep: char)
    requires AllWhitespace(p) && !IsWhitespace(sep)
    ensures sep !in p
  {
    forall k | 0 <= k < |p| ensures p[k] != sep {
      assert IsWhitespace(p[k]);
    }
  }

  /** Padding without separators lands on the first and the last piece. */
  lemma SplitPadded(p: string, m: string, q: string, sep: char)
    requires sep !in p && sep !in q
    ensures |Split(p + m + q, sep)| == |Split(m, sep)|
    ensures forall j :: 0 <= j < |Split(m, sep)| ==>
      Split(p + m + q, sep)[j]
        == (if j == 0 then p else []) + Split(m, sep)[j] + (if j == |Split(m, sep)| - 1 then q else [])
  {
    var pm := Split(m, sep);
    var n := |pm|;
    SplitSuffixWithoutSep(m, q, sep);
    var pmq := Split(m + q, sep);
    assert p + m + q == p + (m + q);
    SplitPrefixWithoutSep(p, m + q, sep);
    var ps := Split(p + m + q, sep);
    forall j | 0 <= j < n
      ensures ps[j] == (if j == 0 then p else []) + pm[j] + (if j == n - 1 then q else [])
    {
      if j == 0 && j == n - 1 {
        assert ps[j] == p + (pm[j] + q);
      } else if j == 0 {
        assert ps[j] == p + pm[j];
      } else if j == n - 1 {
        assert ps[j] == pm[j] + q;
      } else {
        assert ps[j] == pm[j];
      }
    }
  }

  /** Whitespace padding changes no piece once the pieces are trimmed. */
  lemma TrimmedPiecesPadded(p: string, m: string, q: string, sep: char)
    requires AllWhitespace(p) && AllWhitespace(q) && !IsWhitespace(sep)
    ensures |Split(p + m + q, sep)| == |Split(m, sep)|
    ensures forall j :: 0 <= j < |Split(m, sep)| ==>
      Trim(Split(p + m + q, sep)[j]) == Trim(Split(m, sep)[j])
  {
    SepNotInWhitespace(p, sep);
    SepNotInWhitespace(q, sep);
    SplitPadded(p, m, q, sep);
    var pm := Split(m, sep);
    forall j | 0 <= j < |pm| ensures Trim(Split(p + m + q, sep)[j]) == Trim(pm[j]) {
      var l: string := if j == 0 then p else [];
      var r: string := if j == |pm| - 1 then q else [];
      TrimPadded(l, pm[j], r);
    }
  }

  /** Trimming a text before splitting it on a non-whitespace separator
      changes no piece once the pieces are trimmed themselves: the cut-away
      whitespace belonged to the first and last pieces only. */
  lemma TrimThenSplit(s: string, sep: char)
    requires !IsWhitespace(sep)
    ensures |Split(Trim(s), sep)| == |Split(s, sep)|
    ensures forall j :: 0 <= j < |Split(s, sep)| ==>
      Trim(Split(Trim(s), sep)[j]) == Trim(Split(s, sep)[j])
  {
    var p, q := TrimSlice(s);
    TrimmedPiecesPadded(p, Trim(s), q, sep);
  }
}
