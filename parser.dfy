/** The parsing half of the parse handler: the request body is split on "\n",
    each piece is trimmed, blank pieces are skipped and every other line
    becomes one `LogEntry`, structured when the line pattern matches and raw
    otherwise. */
module Parser {
  import opened Wrappers
  import opened Text
  import opened LineRegex

  /** One classified line. A structured entry fills the first three fields
      and leaves `raw` empty; a raw entry fills only `raw`. */
  datatype LogEntry = LogEntry(timestamp: string, level: string, message: string, raw: string)

  /** `a`, `l` and `m` are the three submatches of the match RE2 reports for
      `line`. */
  ghost predicate IsFirstCapture(line: string, a: string, l: string, m: string) {
    exists b :: IsFirstMatch(line, b)
                && a == line[1..b.close1] && l == line[b.open2 + 1..b.close2] && m == line[b.rest..]
  }

  /** One line to one entry: the submatches when the pattern matches the
      line, the line itself otherwise. */
  function Classify(line: string): (e: LogEntry)
    ensures e.raw == [] || e == LogEntry([], [], [], line)
  {
    match Match(line)
    case Some(b) => LogEntry(line[1..b.close1], line[b.open2 + 1..b.close2], line[b.rest..], [])
    case None => LogEntry([], [], [], line)
  }

  /** A line the pattern matches becomes a structured entry holding the
      submatches of the leftmost-first match, with `raw` empty; any other line
      becomes a raw entry holding the line unmodified and nothing else. There
      is no third, partial, shape. */
  lemma ClassifyFollowsFirstMatch(line: string)
    ensures var e := Classify(line);
            (exists c :: IsMatch(line, c)) ==> e.raw == [] && IsFirstCapture(line, e.timestamp, e.level, e.message)
    ensures (forall c :: !IsMatch(line, c)) ==> Classify(line) == LogEntry([], [], [], line)
  {
    if b :| IsMatch(line, b) {
      var f := Match(line).value;
      assert IsFirstMatch(line, f);
    }
  }

  /** A structured entry puts its line back together: the timestamp and level
      in brackets, each closing bracket followed by a non-empty `\s` run, and
      the message last. */
  lemma StructuredEntryRebuildsLine(line: string)
    requires Classify(line).raw == [] && line != []
    ensures var e := Classify(line);
            exists w1, w2 :: |w1| > 0 && |w2| > 0 && AllSpace(w1) && AllSpace(w2)
                             && line == Assemble(e.timestamp, w1, e.level, w2, e.message)
  {
    assert Match(line).Some?;
    var b := Match(line).value;
    assert IsMatch(line, b);
    assert Classify(line) == LogEntry(line[1..b.close1], line[b.open2 + 1..b.close2], line[b.rest..], []);
    MatchSplitsLine(line, b);
    var w1 := line[b.close1 + 1..b.open2];
    var w2 := line[b.close2 + 1..b.rest];
    assert |w1| > 0 && |w2| > 0 && AllSpace(w1) && AllSpace(w2);
  }

  /** The inverse direction: a line assembled from a timestamp and a level
      without ']' or newline, non-empty `\s` separators and a message that has
      no newline and does not start with `\s` is classified back into exactly
      those three parts. */
  lemma ClassifyAssembledLine(a: string, w1: string, l: string, w2: string, m: string)
    requires ']' !in a && '\n' !in a && ']' !in l && '\n' !in l && '\n' !in m
    requires m == [] || !IsPerlSpace(m[0])
    requires |w1| > 0 && |w2| > 0 && AllSpace(w1) && AllSpace(w2)
    ensures Classify(Assemble(a, w1, l, w2, m)) == LogEntry(a, l, m, [])
  {
    AssembledLineMatches(a, w1, l, w2, m);
    AssembledParts(a, w1, l, w2, m);
  }

  // ---------------------------------------------------------------------------
  // The loop over the lines of the request body

  /** The trimmed non-blank pieces, in order: the lines that become entries. */
  function NonBlank(pieces: seq<string>): (lines: seq<string>)
    decreases |pieces|
    ensures |lines| <= |pieces|
    ensures forall m :: 0 <= m < |lines| ==> lines[m] != []
  {
    if pieces == [] then []
    else
      var init := NonBlank(pieces[..|pieces| - 1]);
      var line := TrimSpace(pieces[|pieces| - 1]);
      if line == [] then init else init + [line]
  }

  /** One entry per line, in the same order. */
  function ClassifyEach(lines: seq<string>): (entries: seq<LogEntry>)
    decreases |lines|
    ensures |entries| == |lines|
    ensures forall m :: 0 <= m < |lines| ==> entries[m] == Classify(lines[m])
  {
    if lines == [] then [] else ClassifyEach(lines[..|lines| - 1]) + [Classify(lines[|lines| - 1])]
  }

  /** The entries the handler builds from a request body. */
  function Entries(body: string): (entries: seq<LogEntry>)
    ensures |entries| <= Newlines(body) + 1
  {
    ClassifyEach(NonBlank(Split(body)))
  }

  /** The handler's loop: for each piece of the body split on "\n", trim it,
      skip it when blank, and append its classification. */
  method ParseLines(body: string) returns (entries: seq<LogEntry>)
    ensures |entries| == |NonBlank(Split(body))|
    ensures forall m :: 0 <= m < |entries| ==> entries[m] == Classify(NonBlank(Split(body))[m])
    ensures entries == Entries(body)
  {
    var lines := Split(body);
    entries := [];
    for n := 0 to |lines|
      invariant entries == ClassifyEach(NonBlank(lines[..n]))
    {
      assert lines[..n + 1][..n] == lines[..n];
      var line := TrimSpace(lines[n]);
      if line == [] {
        assert NonBlank(lines[..n + 1]) == NonBlank(lines[..n]);
        continue;
      }
      ghost var kept := NonBlank(lines[..n]);
      assert NonBlank(lines[..n + 1]) == kept + [line];
      assert (kept + [line])[..|kept|] == kept;
      entries := entries + [Classify(line)];
    }
    assert lines[..|lines|] == lines;
  }

  // ---------------------------------------------------------------------------
  // Properties of the line filter

  /** Positions of the non-blank pieces, ascending. */
  ghost function NonBlankPositions(pieces: seq<string>): (ps: seq<nat>)
    decreases |pieces|
  {
    if pieces == [] then []
    else
      var init := NonBlankPositions(pieces[..|pieces| - 1]);
      if TrimSpace(pieces[|pieces| - 1]) == [] then init else init + [|pieces| - 1]
  }

  /** The filter keeps order and drops exactly the blank pieces: the m-th line
      is the trimmed piece at the m-th non-blank position, positions ascend,
      and a piece is at some position exactly when it is not blank. */
  lemma {:induction false} NonBlankIsOrderedFilter(pieces: seq<string>)
    decreases |pieces|
    ensures var ps := NonBlankPositions(pieces);
            var lines := NonBlank(pieces);
            && |ps| == |lines|
            && (forall m :: 0 <= m < |ps| ==> ps[m] < |pieces| && lines[m] == TrimSpace(pieces[ps[m]]))
            && (forall m, m' :: 0 <= m < m' < |ps| ==> ps[m] < ps[m'])
            && (forall n :: 0 <= n < |pieces| ==> (n in ps <==> TrimSpace(pieces[n]) != []))
  {
    if pieces != [] {
      var last := |pieces| - 1;
      var init := pieces[..last];
      NonBlankIsOrderedFilter(init);
      var ps0, lines0 := NonBlankPositions(init), NonBlank(init);
      var line := TrimSpace(pieces[last]);
      assert forall n :: 0 <= n < last ==> init[n] == pieces[n];
      if line == [] {
        assert NonBlankPositions(pieces) == ps0 && NonBlank(pieces) == lines0;
      } else {
        assert NonBlankPositions(pieces) == ps0 + [last];
        assert NonBlank(pieces) == lines0 + [line];
      }
    }
  }

  /** The indices of the non-blank pieces. */
  ghost function NonBlankIndexSet(pieces: seq<string>): set<nat> {
    set n: nat | n < |pieces| && TrimSpace(pieces[n]) != []
  }

  /** As many lines come out as there are pieces that are not blank. */
  lemma {:induction false} NonBlankCount(pieces: seq<string>)
    decreases |pieces|
    ensures |NonBlank(pieces)| == |NonBlankIndexSet(pieces)|
  {
    if pieces != [] {
      var last := |pieces| - 1;
      var init := pieces[..last];
      NonBlankCount(init);
      IndexSetGrows(pieces);
      if TrimSpace(pieces[last]) != [] {
        assert last !in NonBlankIndexSet(init);
      }
    }
  }

  /** The index set of the pieces is that of all but the last, plus the last
      index when the last piece is not blank. */
  lemma IndexSetGrows(pieces: seq<string>)
    requires pieces != []
    ensures var last := |pieces| - 1;
            NonBlankIndexSet(pieces)
            == NonBlankIndexSet(pieces[..last]) + (if TrimSpace(pieces[last]) == [] then {} else {last})
  {
    var last := |pieces| - 1;
    var init := pieces[..last];
    forall n: nat | n < last ensures init[n] == pieces[n] { }
  }

  /** The filter distributes over concatenation of the pieces. */
  lemma {:induction false} NonBlankAppend(xs: seq<string>, ys: seq<string>)
    decreases |ys|
    ensures NonBlank(xs + ys) == NonBlank(xs) + NonBlank(ys)
  {
    if ys == [] {
      assert xs + ys == xs;
    } else {
      var init := ys[..|ys| - 1];
      NonBlankAppend(xs, init);
      assert (xs + ys)[..|xs + ys| - 1] == xs + init;
      assert (xs + ys)[|xs + ys| - 1] == ys[|ys| - 1];
    }
  }

  /** A blank piece anywhere in the body contributes nothing. */
  lemma BlankPieceContributesNothing(xs: seq<string>, blank: string, ys: seq<string>)
    requires AllUnicodeSpace(blank)
    ensures NonBlank(xs + [blank] + ys) == NonBlank(xs + ys)
  {
    NonBlankAppend(xs + [blank], ys);
    NonBlankAppend(xs, [blank]);
    NonBlankAppend(xs, ys);
    assert NonBlank([blank]) == [] by { assert [blank][..0] == []; }
  }

  /** Entries are counted and ordered by the non-blank lines of the body. */
  lemma EntriesFollowLines(body: string)
    ensures var pieces := Split(body);
            var ps := NonBlankPositions(pieces);
            var entries := Entries(body);
            && |entries| == |NonBlankIndexSet(pieces)| == |ps|
            && (forall m :: 0 <= m < |ps| ==> ps[m] < |pieces| && entries[m] == Classify(TrimSpace(pieces[ps[m]])))
  {
    NonBlankIsOrderedFilter(Split(body));
    NonBlankCount(Split(body));
  }
}
