/** The two functions of Go's `strings` package that the request handler
    applies to the request body: `Split(s, "\n")` and `TrimSpace`. */
module Text {

  /** Go's `unicode.IsSpace`: the Latin-1 spaces plus the Unicode
      White_Space property. */
  predicate IsUnicodeSpace(c: char) {
    || c == '\t' || c == '\n' || c == '\U{000B}' || c == '\U{000C}' || c == '\r' || c == ' '
    || c == '\U{0085}' || c == '\U{00A0}' || c == '\U{1680}'
    || ('\U{2000}' <= c <= '\U{200A}')
    || c == '\U{2028}' || c == '\U{2029}' || c == '\U{202F}' || c == '\U{205F}' || c == '\U{3000}'
  }

  predicate AllUnicodeSpace(s: string) {
    forall n :: 0 <= n < |s| ==> IsUnicodeSpace(s[n])
  }

  // ---------------------------------------------------------------------------
  // strings.TrimSpace

  /** Index of the first non-space character at or after `p` (|s| if none). */
  function SkipSpaceForward(s: string, p: nat): (q: nat)
    requires p <= |s|
    decreases |s| - p
    ensures p <= q <= |s| && AllUnicodeSpace(s[p..q])
    ensures q < |s| ==> !IsUnicodeSpace(s[q])
  {
    if p < |s| && IsUnicodeSpace(s[p]) then SkipSpaceForward(s, p + 1) else p
  }

  /** Index just past the last non-space character in s[a..q] (a if none). */
  function SkipSpaceBackward(s: string, a: nat, q: nat): (b: nat)
    requires a <= q <= |s|
    decreases q
    ensures a <= b <= q && AllUnicodeSpace(s[b..q])
    ensures a < b ==> !IsUnicodeSpace(s[b - 1])
  {
    if a < q && IsUnicodeSpace(s[q - 1]) then
      var b := SkipSpaceBackward(s, a, q - 1);
      assert s[b..q] == s[b..q - 1] + [s[q - 1]];
      b
    else q
  }

  /** `strings.TrimSpace`: `s` without white space at either end. It is
      empty exactly when `s` is all white space. */
  function TrimSpace(s: string): (r: string)
    ensures r != [] ==> !IsUnicodeSpace(r[0]) && !IsUnicodeSpace(r[|r| - 1])
    ensures r == [] <==> AllUnicodeSpace(s)
  {
    var a := SkipSpaceForward(s, 0);
    var b := SkipSpaceBackward(s, a, |s|);
    TrimSpaceEmpty(s, a, b);
    s[a..b]
  }

  /** What trimming removes is white space, and only from the two ends: the
      result is a slice of `s` with nothing but white space around it. */
  lemma TrimSpaceIsSlice(s: string)
    ensures var r := TrimSpace(s);
            exists a :: 0 <= a <= |s| - |r| && r == s[a..a + |r|]
                        && AllUnicodeSpace(s[..a]) && AllUnicodeSpace(s[a + |r|..])
  {
    var a := SkipSpaceForward(s, 0);
    var b := SkipSpaceBackward(s, a, |s|);
    assert s[..a] == s[0..a] && s[b..] == s[b..|s|];
    assert TrimSpace(s) == s[a..a + (b - a)];
  }

  lemma TrimSpaceEmpty(s: string, a: nat, b: nat)
    requires a == SkipSpaceForward(s, 0) && b == SkipSpaceBackward(s, a, |s|)
    ensures a == b <==> AllUnicodeSpace(s)
  {
    if a == b {
      forall n | 0 <= n < |s| ensures IsUnicodeSpace(s[n]) {
        if n < a { assert s[n] == s[0..a][n]; } else { assert s[n] == s[b..|s|][n - b]; }
      }
    }
  }

  /** Trimming is idempotent: a trimmed string has no white space left at
      either end. */
  lemma TrimSpaceIdempotent(s: string)
    ensures TrimSpace(TrimSpace(s)) == TrimSpace(s)
  {
    var t := TrimSpace(s);
    assert SkipSpaceForward(t, 0) == 0;
    assert SkipSpaceBackward(t, 0, |t|) == |t|;
    assert t[0..|t|] == t;
  }

  // ---------------------------------------------------------------------------
  // strings.Split(s, "\n")

  /** Number of newlines in `s`. */
  function Newlines(s: string): nat {
    multiset(s)['\n']
  }

  /** `strings.Split(s, "\n")`: the pieces between newlines, in order; the
      empty string gives one empty piece. Only '\n' separates: a '\r' stays
      inside its piece. */
  function Split(s: string): (r: seq<string>)
    decreases |s|
    ensures |r| == Newlines(s) + 1
    ensures forall n :: 0 <= n < |r| ==> '\n' !in r[n]
  {
    if s == [] then [[]]
    else
      var tail := Split(s[1..]);
      assert s == [s[0]] + s[1..];
      assert multiset(s) == multiset([s[0]]) + multiset(s[1..]);
      if s[0] == '\n' then [[]] + tail
      else [[s[0]] + tail[0]] + tail[1..]
  }

  /** `strings.Join(pieces, "\n")`, the inverse of `Split`. */
  function Join(pieces: seq<string>): (r: string)
    requires |pieces| >= 1
    decreases |pieces|
  {
    if |pieces| == 1 then pieces[0] else pieces[0] + ['\n'] + Join(pieces[1..])
  }

  /** Joining the pieces back with "\n" gives the original text. */
  lemma {:induction false} JoinSplit(s: string)
    ensures Join(Split(s)) == s
    decreases |s|
  {
    if s != [] {
      JoinSplit(s[1..]);
      if s[0] == '\n' {
        JoinSplitNewline(s);
      } else {
        JoinSplitChar(s);
      }
    }
  }

  lemma {:induction false} JoinSplitNewline(s: string)
    requires s != [] && s[0] == '\n' && Join(Split(s[1..])) == s[1..]
    ensures Join(Split(s)) == s
  {
    var tail := Split(s[1..]);
    assert Split(s) == [[]] + tail;
    assert Split(s)[1..] == tail;
    assert s == ['\n'] + s[1..];
  }

  lemma {:induction false} JoinSplitChar(s: string)
    requires s != [] && s[0] != '\n' && Join(Split(s[1..])) == s[1..]
    ensures Join(Split(s)) == s
  {
    var tail := Split(s[1..]);
    assert Split(s) == [[s[0]] + tail[0]] + tail[1..];
    JoinPrependToFirst(s[0], tail);
    assert [s[0]] + s[1..] == s;
  }

  /** Prepending a character to the first piece prepends it to the join. */
  lemma {:induction false} JoinPrependToFirst(c: char, pieces: seq<string>)
    requires |pieces| >= 1
    ensures Join([[c] + pieces[0]] + pieces[1..]) == [c] + Join(pieces)
  {
    var longer := [[c] + pieces[0]] + pieces[1..];
    if |pieces| > 1 {
      var rest := Join(pieces[1..]);
      calc {
        Join(longer);
        longer[0] + ['\n'] + Join(longer[1..]);
        { assert longer[1..] == pieces[1..]; }
        ([c] + pieces[0]) + ['\n'] + rest;
        [c] + (pieces[0] + ['\n'] + rest);
        [c] + Join(pieces);
      }
    }
  }

  /** A newline-free prefix sticks to the first piece. */
  lemma {:induction false} SplitNewlineFreePrefix(x: string, y: string)
    requires '\n' !in x
    ensures Split(x + y) == [x + Split(y)[0]] + Split(y)[1..]
    decreases |x|
  {
    if x != [] {
      assert (x + y)[1..] == x[1..] + y;
      assert (x + y)[0] == x[0];
      assert x[0] in x;
      assert x == [x[0]] + x[1..];
      SplitNewlineFreePrefix(x[1..], y);
      assert [x[0]] + (x[1..] + Split(y)[0]) == x + Split(y)[0];
    } else {
      assert x + y == y;
      assert x + Split(y)[0] == Split(y)[0];
      assert Split(y) == [Split(y)[0]] + Split(y)[1..];
    }
  }

  /** Splitting newline-free pieces joined with "\n" gives them back. */
  lemma {:induction false} SplitJoin(pieces: seq<string>)
    requires |pieces| >= 1
    requires forall n :: 0 <= n < |pieces| ==> '\n' !in pieces[n]
    ensures Split(Join(pieces)) == pieces
    decreases |pieces|
  {
    if |pieces| == 1 {
      SplitNewlineFreePrefix(pieces[0], []);
      assert pieces[0] + [] == pieces[0];
    } else {
      var rest := Join(pieces[1..]);
      SplitJoin(pieces[1..]);
      assert Split(['\n'] + rest) == [[]] + Split(rest) by {
        assert (['\n'] + rest)[1..] == rest;
      }
      assert pieces[0] + ['\n'] + rest == pieces[0] + (['\n'] + rest);
      SplitNewlineFreePrefix(pieces[0], ['\n'] + rest);
      assert pieces[0] + [] == pieces[0];
      assert pieces == [pieces[0]] + pieces[1..];
    }
  }
}
