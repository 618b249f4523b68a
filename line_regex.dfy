/** The line pattern of the parse handler, `^\[(.*?)\]\s+\[(.*?)\]\s+(.*)$`,
    as Go's RE2 engine runs it with `FindStringSubmatch`: anchored at both
    ends, `.` is any character but '\n', `\s` is the ASCII class
    `[\t\n\f\r ]`, and the submatches are those of the leftmost-first
    (backtracking-priority) match. */
module LineRegex {
  import opened Wrappers

  /** RE2's `\s`: tab, newline, form feed, carriage return, space. */
  predicate IsPerlSpace(c: char) {
    c == '\t' || c == '\n' || c == '\U{000C}' || c == '\r' || c == ' '
  }

  /** Every character matches `.` (no newline). */
  predicate AllDot(s: string) {
    forall n :: 0 <= n < |s| ==> s[n] != '\n'
  }

  /** Every character matches `\s`. */
  predicate AllSpace(s: string) {
    forall n :: 0 <= n < |s| ==> IsPerlSpace(s[n])
  }

  /** The boundaries of one way the pattern can match a whole line:
      `line[0]` is the first '[', `close1` the ']' ending the first group,
      `open2` the second '[', `close2` the ']' ending the second group and
      `rest` the start of the third group. */
  datatype Bounds = Bounds(close1: nat, open2: nat, close2: nat, rest: nat)

  /** `b` splits `line` as "[" A "]" W1 "[" B "]" W2 C with A, B, C free of
      newlines and W1, W2 non-empty runs of `\s`. */
  predicate IsMatch(line: string, b: Bounds) {
    && 1 <= b.close1 && b.close1 + 1 < b.open2 && b.open2 < b.close2
    && b.close2 + 1 < b.rest && b.rest <= |line|
    && line[0] == '['
    && AllDot(line[1..b.close1]) && line[b.close1] == ']'
    && AllSpace(line[b.close1 + 1..b.open2]) && line[b.open2] == '['
    && AllDot(line[b.open2 + 1..b.close2]) && line[b.close2] == ']'
    && AllSpace(line[b.close2 + 1..b.rest])
    && AllDot(line[b.rest..])
  }

  /** The order in which a backtracking matcher tries the alternatives:
      the lazy groups shortest first, the greedy `\s+` runs longest first. */
  predicate Precedes(x: Bounds, y: Bounds) {
    || x.close1 < y.close1
    || (x.close1 == y.close1 && x.open2 > y.open2)
    || (x.close1 == y.close1 && x.open2 == y.open2 && x.close2 < y.close2)
    || (x.close1 == y.close1 && x.open2 == y.open2 && x.close2 == y.close2 && x.rest > y.rest)
  }

  /** `b` is the match RE2 reports: a match no other match precedes. */
  ghost predicate IsFirstMatch(line: string, b: Bounds) {
    IsMatch(line, b) && forall c :: IsMatch(line, c) ==> !Precedes(c, b)
  }

  /** End of the maximal `\s` run starting at `p`. */
  function SpaceEnd(line: string, p: nat): (q: nat)
    requires p <= |line|
    decreases |line| - p
    ensures p <= q <= |line| && AllSpace(line[p..q])
    ensures q < |line| ==> !IsPerlSpace(line[q])
  {
    if p < |line| && IsPerlSpace(line[p]) then
      var q := SpaceEnd(line, p + 1);
      assert line[p..q] == [line[p]] + line[p + 1..q];
      q
    else p
  }

  /** A `\s` run from `p` that stops at a non-space ends at `SpaceEnd`;
      any `\s` run from `p` ends no later. */
  lemma SpaceRunEnd(line: string, p: nat, q: nat)
    requires p <= q <= |line| && AllSpace(line[p..q])
    ensures q <= SpaceEnd(line, p)
    ensures q < |line| && !IsPerlSpace(line[q]) ==> q == SpaceEnd(line, p)
  {
  }

  /** A newline at `k` ends every `.*` that covers it. */
  lemma DotStopsAtNewline(line: string, i: nat, j: nat, k: nat)
    requires i <= k < j <= |line| && line[k] == '\n'
    ensures !AllDot(line[i..j])
  {
    assert line[i..j][k - i] == '\n';
  }

  /** The first group is `line[1..t]`, the first `\s+` ends at `o`; this tries
      the second group's closing bracket at `v`, `v + 1`, ... */
  function FindLevel(line: string, t: nat, o: nat, v: nat): (r: Option<Bounds>)
    requires 1 <= t && t + 1 < o < v <= |line| && line[0] == '['
    requires AllDot(line[1..t]) && line[t] == ']'
    requires AllSpace(line[t + 1..o]) && line[o] == '['
    requires AllDot(line[o + 1..v])
    decreases |line| - v
    ensures r.Some? ==> IsMatch(line, r.value) && r.value.close1 == t && r.value.open2 == o
    ensures r.Some? ==> v <= r.value.close2
    ensures r.Some? ==> forall c :: IsMatch(line, c) && c.close1 == t && c.open2 == o && v <= c.close2
                                    ==> !Precedes(c, r.value)
    ensures r.None? ==> forall c :: IsMatch(line, c) && c.close1 == t && c.open2 == o ==> c.close2 < v
  {
    if v == |line| then None
    else if line[v] == '\n' then
      LevelStopsAtNewline(line, t, o, v);
      None
    else
      assert line[o + 1..v + 1] == line[o + 1..v] + [line[v]];
      if line[v] == ']' && v + 1 < |line| && IsPerlSpace(line[v + 1]) && AllDot(line[SpaceEnd(line, v + 1)..]) then
        LevelGreedyRest(line, t, o, v);
        Some(Bounds(t, o, v, SpaceEnd(line, v + 1)))
      else
        LevelRejected(line, t, o, v);
        FindLevel(line, t, o, v + 1)
  }

  lemma LevelStopsAtNewline(line: string, t: nat, o: nat, v: nat)
    requires o < v < |line| && line[v] == '\n'
    ensures forall c :: IsMatch(line, c) && c.open2 == o ==> c.close2 < v
  {
    forall c | IsMatch(line, c) && c.open2 == o ensures c.close2 < v {
      if c.close2 > v { DotStopsAtNewline(line, o + 1, c.close2, v); }
    }
  }

  lemma LevelGreedyRest(line: string, t: nat, o: nat, v: nat)
    requires v + 1 < |line|
    ensures forall c :: IsMatch(line, c) && c.close2 == v ==> c.rest <= SpaceEnd(line, v + 1)
  {
    forall c | IsMatch(line, c) && c.close2 == v ensures c.rest <= SpaceEnd(line, v + 1) {
      SpaceRunEnd(line, v + 1, c.rest);
    }
  }

  lemma LevelRejected(line: string, t: nat, o: nat, v: nat)
    requires v < |line|
    requires !(line[v] == ']' && v + 1 < |line| && IsPerlSpace(line[v + 1]) && AllDot(line[SpaceEnd(line, v + 1)..]))
    ensures forall c :: IsMatch(line, c) ==> c.close2 != v
  {
    forall c | IsMatch(line, c) && c.close2 == v ensures false {
      SpaceRunEnd(line, v + 1, c.rest);
    }
  }

  /** Tries the first group's closing bracket at `t`, `t + 1`, ... */
  function FindTimestamp(line: string, t: nat): (r: Option<Bounds>)
    requires 1 <= t <= |line| && line[0] == '[' && AllDot(line[1..t])
    decreases |line| - t
    ensures r.Some? ==> IsMatch(line, r.value) && t <= r.value.close1
    ensures r.Some? ==> forall c :: IsMatch(line, c) && t <= c.close1 ==> !Precedes(c, r.value)
    ensures r.None? ==> forall c :: IsMatch(line, c) ==> c.close1 < t
  {
    if t == |line| then None
    else if line[t] == '\n' then
      assert forall c :: IsMatch(line, c) ==> c.close1 < t by {
        forall c | IsMatch(line, c) ensures c.close1 < t {
          if c.close1 > t { DotStopsAtNewline(line, 1, c.close1, t); }
        }
      }
      None
    else
      assert line[1..t + 1] == line[1..t] + [line[t]];
      var o := SpaceEnd(line, t + 1);
      // every match whose first group ends at t has its second '[' at o
      assert forall c :: IsMatch(line, c) && c.close1 == t ==> c.open2 == o by {
        forall c | IsMatch(line, c) && c.close1 == t ensures c.open2 == o {
          SpaceRunEnd(line, t + 1, c.open2);
        }
      }
      if line[t] == ']' && t + 1 < o < |line| && line[o] == '[' then
        match FindLevel(line, t, o, o + 1)
        case Some(b) => Some(b)
        case None => FindTimestamp(line, t + 1)
      else
        FindTimestamp(line, t + 1)
  }

  /** `FindStringSubmatch` on the line pattern: the first match in priority
      order, or None when the pattern does not match the line at all. */
  function Match(line: string): (r: Option<Bounds>)
    ensures r.Some? ==> IsFirstMatch(line, r.value)
    ensures r.None? <==> forall c :: !IsMatch(line, c)
  {
    if |line| >= 1 && line[0] == '[' then FindTimestamp(line, 1) else None
  }

  /** The first match in priority order is unique. */
  lemma FirstMatchUnique(line: string, x: Bounds, y: Bounds)
    requires IsFirstMatch(line, x) && IsFirstMatch(line, y)
    ensures x == y
  {
  }

  /** What leftmost-first means for this pattern: the first group is the
      shortest one any match allows, the second is the shortest one any match
      with that first group allows, and each `\s+` takes the whole run of
      `\s` after its bracket. */
  lemma {:induction false} FirstMatchShape(line: string, b: Bounds)
    requires IsFirstMatch(line, b)
    ensures forall c :: IsMatch(line, c) ==> b.close1 <= c.close1
    ensures forall c :: IsMatch(line, c) && c.close1 == b.close1 ==> b.close2 <= c.close2
    ensures b.open2 == SpaceEnd(line, b.close1 + 1)
    ensures b.rest == SpaceEnd(line, b.close2 + 1)
  {
    SpaceRunEnd(line, b.close1 + 1, b.open2);
    forall c | IsMatch(line, c) && c.close1 == b.close1 ensures c.open2 == b.open2 {
      SpaceRunEnd(line, c.close1 + 1, c.open2);
    }
    var e := SpaceEnd(line, b.close2 + 1);
    SpaceRunEnd(line, b.close2 + 1, b.rest);
    if b.rest < e {
      var longer := Bounds(b.close1, b.open2, b.close2, e);
      assert line[b.rest..] == line[b.rest..e] + line[e..];
      assert IsMatch(line, longer);
      assert Precedes(longer, b);
    }
  }

  /** The line spelled out by the parts of a match. */
  function Assemble(a: string, w1: string, l: string, w2: string, m: string): string {
    "[" + a + "]" + w1 + "[" + l + "]" + w2 + m
  }

  /** A match cuts the line into its five parts and the four literal
      brackets, with nothing left over. */
  lemma MatchSplitsLine(line: string, b: Bounds)
    requires IsMatch(line, b)
    ensures line == Assemble(line[1..b.close1], line[b.close1 + 1..b.open2], line[b.open2 + 1..b.close2],
                             line[b.close2 + 1..b.rest], line[b.rest..])
  {
    var a, w1, l := line[1..b.close1], line[b.close1 + 1..b.open2], line[b.open2 + 1..b.close2];
    var w2, m := line[b.close2 + 1..b.rest], line[b.rest..];
    SliceThenChar(line, 0, b.close1);
    assert line[..b.close1 + 1] == "[" + a + "]" by {
      assert line[0..b.close1] == [line[0]] + a;
    }
    SliceThenChar(line, b.close1 + 1, b.open2);
    assert line[b.close1 + 1..b.open2 + 1] == w1 + "[";
    SliceThenChar(line, b.open2 + 1, b.close2);
    assert line[b.open2 + 1..b.close2 + 1] == l + "]";
    assert line[b.close2 + 1..] == w2 + m;
    assert line == line[..b.close1 + 1] + line[b.close1 + 1..b.open2 + 1]
                   + line[b.open2 + 1..b.close2 + 1] + line[b.close2 + 1..];
  }

  /** A slice extended by one character. */
  lemma SliceThenChar(s: string, i: nat, j: nat)
    requires i <= j < |s|
    ensures s[i..j + 1] == s[i..j] + [s[j]]
  {
  }

  /** The bounds at which the parts of an assembled line sit. */
  function AssembledBounds(a: string, w1: string, l: string, w2: string): Bounds {
    var t := 1 + |a|;
    var o := t + 1 + |w1|;
    var v := o + 1 + |l|;
    Bounds(t, o, v, v + 1 + |w2|)
  }

  /** Cutting an assembled line at its bounds gives the parts back. */
  lemma AssembledParts(a: string, w1: string, l: string, w2: string, m: string)
    ensures var line, b := Assemble(a, w1, l, w2, m), AssembledBounds(a, w1, l, w2);
            && |line| == b.rest + |m| && line[0] == '['
            && line[1..b.close1] == a && line[b.close1] == ']'
            && line[b.close1 + 1..b.open2] == w1 && line[b.open2] == '['
            && line[b.open2 + 1..b.close2] == l && line[b.close2] == ']'
            && line[b.close2 + 1..b.rest] == w2 && line[b.rest..] == m
  {
    var line, b := Assemble(a, w1, l, w2, m), AssembledBounds(a, w1, l, w2);
    assert line == ("[" + a + "]") + (w1 + "[") + (l + "]") + (w2 + m);
  }

  /** No ']' in line[p..q]: no group closes there. */
  lemma NoCloseBefore(line: string, p: nat, q: nat, k: nat)
    requires p <= k < q <= |line| && ']' !in line[p..q]
    ensures line[k] != ']'
  {
    assert line[k] == line[p..q][k - p];
  }

  lemma AssembledIsMatch(a: string, w1: string, l: string, w2: string, m: string)
    requires '\n' !in a && '\n' !in l && '\n' !in m
    requires |w1| > 0 && |w2| > 0 && AllSpace(w1) && AllSpace(w2)
    ensures IsMatch(Assemble(a, w1, l, w2, m), AssembledBounds(a, w1, l, w2))
  {
    AssembledParts(a, w1, l, w2, m);
  }

  /** The inverse of `MatchSplitsLine`: a line assembled from a first and a
      second group without ']' or newline, non-empty `\s` separators and a
      rest that has no newline and does not start with `\s` is matched at
      exactly those parts. */
  lemma {:induction false} AssembledLineMatches(a: string, w1: string, l: string, w2: string, m: string)
    requires ']' !in a && '\n' !in a && ']' !in l && '\n' !in l && '\n' !in m
    requires m == [] || !IsPerlSpace(m[0])
    requires |w1| > 0 && |w2| > 0 && AllSpace(w1) && AllSpace(w2)
    ensures Match(Assemble(a, w1, l, w2, m)) == Some(AssembledBounds(a, w1, l, w2))
  {
    var line, b := Assemble(a, w1, l, w2, m), AssembledBounds(a, w1, l, w2);
    AssembledIsMatch(a, w1, l, w2, m);
    forall c | IsMatch(line, c) ensures !Precedes(c, b) {
      AssembledNotPreceded(a, w1, l, w2, m, c);
    }
    FirstMatchUnique(line, Match(line).value, b);
  }

  lemma AssembledNotPreceded(a: string, w1: string, l: string, w2: string, m: string, c: Bounds)
    requires ']' !in a && ']' !in l && AllSpace(w1) && AllSpace(w2)
    requires m == [] || !IsPerlSpace(m[0])
    requires IsMatch(Assemble(a, w1, l, w2, m), c)
    ensures !Precedes(c, AssembledBounds(a, w1, l, w2))
  {
    var line, b := Assemble(a, w1, l, w2, m), AssembledBounds(a, w1, l, w2);
    AssembledParts(a, w1, l, w2, m);
    if c.close1 < b.close1 {
      NoCloseBefore(line, 1, b.close1, c.close1);
    } else if c.close1 == b.close1 {
      SpaceRunEnd(line, b.close1 + 1, c.open2);
      SpaceRunEnd(line, b.close1 + 1, b.open2);
      if c.close2 < b.close2 {
        NoCloseBefore(line, b.open2 + 1, b.close2, c.close2);
      } else if c.close2 == b.close2 {
        SpaceRunEnd(line, b.close2 + 1, c.rest);
        SpaceRunEnd(line, b.close2 + 1, b.rest);
      }
    }
  }
}
