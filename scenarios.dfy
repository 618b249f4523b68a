/** Concrete inputs and what the model says the service does with them. */
module Scenarios {
  import opened Wrappers
  import opened Text
  import opened LineRegex
  import opened Parser
  import opened Handler

  /** A first group may contain ']': the shortest first group that lets the
      whole line match is "a] b", because "a" is followed by " b", not by
      whitespace and '['. */
  lemma BracketInsideTimestamp()
    ensures Classify("[a] b] [c] d") == LogEntry("a] b", "c", "d", "")
  {
    var line := "[a] b] [c] d";
    assert SpaceEnd(line, 3) == 4;
    assert SpaceEnd(line, 6) == 7;
    assert SpaceEnd(line, 10) == 11;
    assert AllDot(line[11..]);
    assert FindLevel(line, 5, 7, 8) == Some(Bounds(5, 7, 9, 11));
    assert FindTimestamp(line, 1) == Some(Bounds(5, 7, 9, 11));
  }

  /** A no-break space between the groups is white space to `TrimSpace` but
      not to the pattern's `\s`: the line stays raw. */
  lemma NoBreakSpaceIsNotSeparator()
    ensures IsUnicodeSpace('\U{00A0}') && !IsPerlSpace('\U{00A0}')
    ensures Classify("[a]\U{00A0}[b] c") == LogEntry("", "", "", "[a]\U{00A0}[b] c")
  {
    var line := "[a]\U{00A0}[b] c";
    forall c | IsMatch(line, c) ensures false {
      SpaceRunEnd(line, c.close1 + 1, c.open2);
    }
  }

  /** A line without a second '[' never matches. */
  lemma OneGroupIsRaw(line: string)
    requires line != [] && '[' !in line[1..]
    ensures Classify(line) == LogEntry("", "", "", line)
  {
    assert forall c :: !IsMatch(line, c);
  }

  const MixedFirst: string := "[2024-01-01T00:00:00Z] [INFO] server started"
  const MixedText: string := MixedFirst + "\nplain text line\n\n[only-one-bracket]"

  lemma MixedJoinedTail()
    ensures Join(["plain text line", "", "[only-one-bracket]"]) == "plain text line\n\n[only-one-bracket]"
  {
    var tail := ["", "[only-one-bracket]"];
    assert Join(tail) == "\n[only-one-bracket]" by {
      assert tail[1..] == ["[only-one-bracket]"];
    }
    assert ["plain text line", "", "[only-one-bracket]"][1..] == tail;
  }

  lemma MixedJoined()
    ensures Join([MixedFirst, "plain text line", "", "[only-one-bracket]"]) == MixedText
  {
    var pieces := [MixedFirst, "plain text line", "", "[only-one-bracket]"];
    MixedJoinedTail();
    assert pieces[1..] == ["plain text line", "", "[only-one-bracket]"];
    assert MixedFirst + "\n" + "plain text line\n\n[only-one-bracket]"
           == MixedFirst + ("\n" + "plain text line\n\n[only-one-bracket]");
  }

  lemma MixedPiecesHaveNoNewline()
    ensures '\n' !in MixedFirst && '\n' !in "plain text line" && '\n' !in "[only-one-bracket]"
  {
  }

  lemma MixedPieces()
    ensures Split(MixedText) == [MixedFirst, "plain text line", "", "[only-one-bracket]"]
  {
    var pieces := [MixedFirst, "plain text line", "", "[only-one-bracket]"];
    MixedJoined();
    MixedPiecesHaveNoNewline();
    assert forall n :: 0 <= n < |pieces| ==> '\n' !in pieces[n];
    SplitJoin(pieces);
  }

  lemma MixedLines()
    ensures NonBlank([MixedFirst, "plain text line", "", "[only-one-bracket]"])
            == [MixedFirst, "plain text line", "[only-one-bracket]"]
  {
    var pieces := [MixedFirst, "plain text line", "", "[only-one-bracket]"];
    NotPadded(MixedFirst);
    NotPadded("plain text line");
    NotPadded("[only-one-bracket]");
    assert TrimSpace("") == "";
    assert pieces[..1][..0] == [];
    assert NonBlank(pieces[..1]) == [MixedFirst];
    assert pieces[..2][..1] == pieces[..1];
    assert NonBlank(pieces[..2]) == [MixedFirst, "plain text line"];
    assert pieces[..3][..2] == pieces[..2];
    assert NonBlank(pieces[..3]) == [MixedFirst, "plain text line"];
    assert pieces[..3] == pieces[..|pieces| - 1];
  }

  /** Trimming leaves a line alone that starts and ends with non-space. */
  lemma NotPadded(line: string)
    requires line != [] && !IsUnicodeSpace(line[0]) && !IsUnicodeSpace(line[|line| - 1])
    ensures TrimSpace(line) == line
  {
    assert SkipSpaceForward(line, 0) == 0;
    assert SkipSpaceBackward(line, 0, |line|) == |line|;
    assert line[0..|line|] == line;
  }

  lemma MixedFirstAssembled()
    ensures MixedFirst == Assemble("2024-01-01T00:00:00Z", " ", "INFO", " ", "server started")
  {
  }

  lemma NoOpeningAfterFirst()
    ensures '[' !in "[only-one-bracket]"[1..] && '[' !in "plain text line"[1..]
  {
  }

  lemma FirstLineIsStructured()
    ensures Classify(MixedFirst) == LogEntry("2024-01-01T00:00:00Z", "INFO", "server started", "")
  {
    MixedFirstAssembled();
    ClassifyAssembledLine("2024-01-01T00:00:00Z", " ", "INFO", " ", "server started");
  }

  lemma OtherLinesAreRaw()
    ensures Classify("plain text line") == LogEntry("", "", "", "plain text line")
    ensures Classify("[only-one-bracket]") == LogEntry("", "", "", "[only-one-bracket]")
  {
    NoOpeningAfterFirst();
    OneGroupIsRaw("[only-one-bracket]");
    OneGroupIsRaw("plain text line");
  }

  lemma MixedEntries()
    ensures ClassifyEach([MixedFirst, "plain text line", "[only-one-bracket]"])
            == [LogEntry("2024-01-01T00:00:00Z", "INFO", "server started", ""),
                LogEntry("", "", "", "plain text line"),
                LogEntry("", "", "", "[only-one-bracket]")]
  {
    var lines := [MixedFirst, "plain text line", "[only-one-bracket]"];
    var e := ClassifyEach(lines);
    FirstLineIsStructured();
    OtherLinesAreRaw();
    assert e[0] == Classify(lines[0]);
    assert e[1] == Classify(lines[1]);
    assert e[2] == Classify(lines[2]);
  }

  /** Mixed input: a structured line, a plain line, a blank line and a line
      with one bracketed group give three entries, in order. */
  lemma MixedBody()
    ensures Entries(MixedText)
            == [LogEntry("2024-01-01T00:00:00Z", "INFO", "server started", ""),
                LogEntry("", "", "", "plain text line"),
                LogEntry("", "", "", "[only-one-bracket]")]
  {
    MixedPieces();
    MixedLines();
    MixedEntries();
  }

  lemma CrlfPieces()
    ensures Split("x\r\ny") == ["x\r", "y"]
  {
    var pieces := ["x\r", "y"];
    assert Join(pieces) == "x\r\ny" by { assert pieces[1..] == ["y"]; }
    SplitJoin(pieces);
  }

  lemma TrailingCarriageReturnTrimmed()
    ensures TrimSpace("x\r") == "x"
  {
    assert SkipSpaceForward("x\r", 0) == 0;
    assert SkipSpaceBackward("x\r", 0, 2) == 1;
  }

  /** CRLF line ends: only the '\n' splits, and trimming removes the '\r'
      left at the end of the first piece. */
  lemma CarriageReturnIsTrimmed()
    ensures NonBlank(Split("x\r\ny")) == ["x", "y"]
  {
    var pieces := ["x\r", "y"];
    CrlfPieces();
    TrailingCarriageReturnTrimmed();
    NotPadded("y");
    assert pieces[..1][..0] == [];
    assert pieces[..1] == pieces[..|pieces| - 1];
  }

  /** An empty body gives no entries, and the nil slice encodes as JSON
      `null`, not `[]`; the request still succeeds. */
  lemma EmptyPostIsNull(addr: string, arrival: int)
    ensures Entries("") == []
    ensures FinalRecord(Request("POST", addr), arrival, Some(""), true)
            == LogRecord(arrival, addr, "", JsonNull, 200, "")
  {
    assert Split("") == [""];
    assert TrimSpace("") == "";
  }

  /** A GET is refused before its body is read: 405, a non-empty error and
      no request body, whatever the body would have been. */
  lemma GetIsRefused(addr: string, arrival: int, body: Option<string>, marshalOk: bool)
    ensures FinalRecord(Request("GET", addr), arrival, body, marshalOk)
            == LogRecord(arrival, addr, "", Unset, 405, "Method not allowed")
  {
  }
}
