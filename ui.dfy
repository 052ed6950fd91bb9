/** The pure parts of internal/ui/ui.go: the parser that pulls the command and
    its explanation out of a model's reply, and the rule by which the answer to
    "Run this command? [y/N]" is read. Terminal output, styling and running the
    command in a shell are not modelled.

    The parser is written for any pair of labels and its properties are proved
    for every pair that cannot be confused (`Distinguishable`); the program's
    own pair is `Prompted`. */
module Ui {
  import opened Strings

  datatype Result = Result(command: string, explanation: string)

  /** The two line labels the parser looks for. */
  datatype Labels = Labels(command: string, explanation: string)

  /** The labels the program uses, matched case-sensitively. */
  const Prompted: Labels := Labels("COMMAND:", "EXPLANATION:")

  /** Labels that are non-empty, trimmed, free of newlines, and differ in
      their first character, so no line carries both. */
  predicate Distinguishable(ls: Labels) {
    && ls.command != [] && ls.explanation != []
    && Trimmed(ls.command) && Trimmed(ls.explanation)
    && '\n' !in ls.command && '\n' !in ls.explanation
    && ls.command[0] != ls.explanation[0]
  }

  lemma PromptedDistinguishable()
    ensures Distinguishable(Prompted)
  {
  }

  /** Whether a line, once trimmed, starts with a label. */
  predicate Labelled(line: string, mark: string) {
    HasPrefix(TrimSpace(line), mark)
  }

  /** The text after the label of a labelled line, trimmed: no white space
      at either end, and no newline unless the line has one. */
  function ValueOf(line: string, mark: string): (v: string)
    ensures Trimmed(v)
    ensures '\n' !in line ==> '\n' !in v
  {
    ValueOmits(line, mark, '\n');
    TrimSpace(TrimPrefix(TrimSpace(line), mark))
  }

  /** A character the line lacks, its value lacks too. */
  lemma ValueOmits(line: string, mark: string, c: char)
    ensures c !in line ==> c !in TrimSpace(TrimPrefix(TrimSpace(line), mark))
  {
    if c !in line {
      var l := TrimSpace(line);
      var rest := TrimPrefix(l, mark);
      TrimSpaceOmits(line, c);
      assert c !in rest by {
        if HasPrefix(l, mark) {
          assert forall i :: 0 <= i < |rest| ==> rest[i] == l[|mark| + i];
        }
      }
      TrimSpaceOmits(rest, c);
    }
  }

  /** One turn of the parser's loop: a command line sets the command, otherwise
      an explanation line sets the explanation, any other line is ignored. */
  function Step(ls: Labels, r: Result, line: string): Result {
    if Labelled(line, ls.command) then r.(command := ValueOf(line, ls.command))
    else if Labelled(line, ls.explanation) then r.(explanation := ValueOf(line, ls.explanation))
    else r
  }

  /** The parser over a list of lines: `Step` folded from the first line to
      the last, starting from the empty result. Each field it fills in is
      trimmed, and holds no newline when no line does. */
  function Parse(ls: Labels, lines: seq<string>): (r: Result)
    ensures Trimmed(r.command) && Trimmed(r.explanation)
    ensures (forall k :: 0 <= k < |lines| ==> '\n' !in lines[k]) ==>
              '\n' !in r.command && '\n' !in r.explanation
  {
    if lines == [] then Result("", "")
    else
      var prev, last := Parse(ls, lines[..|lines| - 1]), lines[|lines| - 1];
      StepFields(ls, prev, last);
      Step(ls, prev, last)
  }

  /** One line leaves each field as it was or sets it to that line's value. */
  lemma StepFields(ls: Labels, r: Result, line: string)
    ensures Step(ls, r, line).command in {r.command, ValueOf(line, ls.command)}
    ensures Step(ls, r, line).explanation in {r.explanation, ValueOf(line, ls.explanation)}
  {
  }

  /** `ParseResponse`: split the reply at newlines and run the loop. */
  method ParseResponse(response: string) returns (result: Result)
    ensures result == Parse(Prompted, SplitLines(response))
    ensures Trimmed(result.command) && Trimmed(result.explanation)
    ensures '\n' !in result.command && '\n' !in result.explanation
  {
    var lines := SplitLines(response);
    result := Result("", "");
    for i := 0 to |lines|
      invariant result == Parse(Prompted, lines[..i])
    {
      ParseSnoc(Prompted, lines, i);
      StepCases(Prompted, result, lines[i]);
      var line := TrimSpace(lines[i]);
      if HasPrefix(line, Prompted.command) {
        result := result.(command := TrimSpace(TrimPrefix(line, Prompted.command)));
      } else if HasPrefix(line, Prompted.explanation) {
        result := result.(explanation := TrimSpace(TrimPrefix(line, Prompted.explanation)));
      }
    }
    assert lines[..|lines|] == lines;
  }

  // -------------------------------------------------------------- properties

  /** Parsing one line more is one `Step` more. */
  lemma ParseSnoc(ls: Labels, lines: seq<string>, i: nat)
    requires i < |lines|
    ensures Parse(ls, lines[..i + 1]) == Step(ls, Parse(ls, lines[..i]), lines[i])
  {
    assert lines[..i + 1][..i] == lines[..i];
  }

  /** `Step` case by case, as the loop of `ParseResponse` takes it. */
  lemma StepCases(ls: Labels, r: Result, line: string)
    ensures ValueOf(line, ls.command) == TrimSpace(TrimPrefix(TrimSpace(line), ls.command))
    ensures ValueOf(line, ls.explanation) == TrimSpace(TrimPrefix(TrimSpace(line), ls.explanation))
    ensures Labelled(line, ls.command) ==> Step(ls, r, line) == r.(command := ValueOf(line, ls.command))
    ensures !Labelled(line, ls.command) && Labelled(line, ls.explanation) ==>
              Step(ls, r, line) == r.(explanation := ValueOf(line, ls.explanation))
    ensures !Labelled(line, ls.command) && !Labelled(line, ls.explanation) ==> Step(ls, r, line) == r
  {
  }

  /** An empty reply gives an empty command and an empty explanation. */
  lemma EmptyResponse(ls: Labels)
    ensures Parse(ls, SplitLines("")) == Result("", "")
  {
    assert Parse(ls, [""]) == Step(ls, Result("", ""), "");
    assert TrimSpace("") == "";
  }

  /** A command line never also counts as an explanation line. */
  lemma LabelsExclusive(ls: Labels, line: string)
    requires Distinguishable(ls)
    ensures !(Labelled(line, ls.command) && Labelled(line, ls.explanation))
  {
    if Labelled(line, ls.command) {
      var l := TrimSpace(line);
      assert l[0] == ls.command[0];
    }
  }

  /** What one line does to the command. */
  lemma StepCommand(ls: Labels, r: Result, line: string)
    ensures Step(ls, r, line).command ==
              if Labelled(line, ls.command) then ValueOf(line, ls.command) else r.command
  {
  }

  /** What one line does to the explanation. */
  lemma StepExplanation(ls: Labels, r: Result, line: string)
    requires Distinguishable(ls)
    ensures Step(ls, r, line).explanation ==
              if Labelled(line, ls.explanation) then ValueOf(line, ls.explanation) else r.explanation
  {
    LabelsExclusive(ls, line);
  }

  /** Line `i` is the last line carrying the label. */
  predicate LastLabelled(lines: seq<string>, i: int, mark: string) {
    && 0 <= i < |lines| && Labelled(lines[i], mark)
    && forall j :: i < j < |lines| ==> !Labelled(lines[j], mark)
  }

  lemma LastLabelledBefore(lines: seq<string>, i: int, mark: string)
    requires LastLabelled(lines, i, mark) && i < |lines| - 1
    ensures LastLabelled(lines[..|lines| - 1], i, mark)
    ensures !Labelled(lines[|lines| - 1], mark)
  {
  }

  /** With no command line the command is empty. */
  lemma {:induction false} NoCommandLine(ls: Labels, lines: seq<string>)
    requires forall j :: 0 <= j < |lines| ==> !Labelled(lines[j], ls.command)
    ensures Parse(ls, lines).command == ""
  {
    if lines != [] {
      var prev := lines[..|lines| - 1];
      assert forall j :: 0 <= j < |prev| ==> !Labelled(prev[j], ls.command);
      NoCommandLine(ls, prev);
      StepCommand(ls, Parse(ls, prev), lines[|lines| - 1]);
    }
  }

  /** The command is the value of the last command line. */
  lemma {:induction false} LastCommandLine(ls: Labels, lines: seq<string>, i: int)
    requires LastLabelled(lines, i, ls.command)
    ensures Parse(ls, lines).command == ValueOf(lines[i], ls.command)
  {
    var prev := lines[..|lines| - 1];
    StepCommand(ls, Parse(ls, prev), lines[|lines| - 1]);
    if i < |lines| - 1 {
      LastLabelledBefore(lines, i, ls.command);
      LastCommandLine(ls, prev, i);
    }
  }

  /** The command is the value of the last command line; with none it is empty. */
  lemma LastCommandWins(ls: Labels, lines: seq<string>)
    ensures (forall j :: 0 <= j < |lines| ==> !Labelled(lines[j], ls.command)) ==>
              Parse(ls, lines).command == ""
    ensures forall i :: LastLabelled(lines, i, ls.command) ==>
              Parse(ls, lines).command == ValueOf(lines[i], ls.command)
  {
    if forall j :: 0 <= j < |lines| ==> !Labelled(lines[j], ls.command) {
      NoCommandLine(ls, lines);
    }
    forall i | LastLabelled(lines, i, ls.command) {
      LastCommandLine(ls, lines, i);
    }
  }

  /** With no explanation line the explanation is empty. */
  lemma {:induction false} NoExplanationLine(ls: Labels, lines: seq<string>)
    requires Distinguishable(ls)
    requires forall j :: 0 <= j < |lines| ==> !Labelled(lines[j], ls.explanation)
    ensures Parse(ls, lines).explanation == ""
  {
    if lines != [] {
      var prev := lines[..|lines| - 1];
      assert forall j :: 0 <= j < |prev| ==> !Labelled(prev[j], ls.explanation);
      NoExplanationLine(ls, prev);
      StepExplanation(ls, Parse(ls, prev), lines[|lines| - 1]);
    }
  }

  /** The explanation is the value of the last explanation line. */
  lemma {:induction false} LastExplanationLine(ls: Labels, lines: seq<string>, i: int)
    requires Distinguishable(ls)
    requires LastLabelled(lines, i, ls.explanation)
    ensures Parse(ls, lines).explanation == ValueOf(lines[i], ls.explanation)
  {
    var prev := lines[..|lines| - 1];
    StepExplanation(ls, Parse(ls, prev), lines[|lines| - 1]);
    if i < |lines| - 1 {
      LastLabelledBefore(lines, i, ls.explanation);
      LastExplanationLine(ls, prev, i);
    }
  }

  /** The explanation is the value of the last explanation line; with none it is empty. */
  lemma LastExplanationWins(ls: Labels, lines: seq<string>)
    requires Distinguishable(ls)
    ensures (forall j :: 0 <= j < |lines| ==> !Labelled(lines[j], ls.explanation)) ==>
              Parse(ls, lines).explanation == ""
    ensures forall i :: LastLabelled(lines, i, ls.explanation) ==>
              Parse(ls, lines).explanation == ValueOf(lines[i], ls.explanation)
  {
    if forall j :: 0 <= j < |lines| ==> !Labelled(lines[j], ls.explanation) {
      NoExplanationLine(ls, lines);
    }
    forall i | LastLabelled(lines, i, ls.explanation) {
      LastExplanationLine(ls, lines, i);
    }
  }

  /** Lines with neither label appended to a reply have no effect. */
  lemma {:induction false} UnlabelledLinesAppended(ls: Labels, lines: seq<string>, extra: seq<string>)
    requires forall j :: 0 <= j < |extra| ==>
               !Labelled(extra[j], ls.command) && !Labelled(extra[j], ls.explanation)
    ensures Parse(ls, lines + extra) == Parse(ls, lines)
  {
    if extra != [] {
      var e := extra[..|extra| - 1];
      assert (lines + extra)[..|lines + extra| - 1] == lines + e;
      UnlabelledLinesAppended(ls, lines, e);
    } else {
      assert lines + extra == lines;
    }
  }

  /** Lines with neither label have no effect wherever they stand. */
  lemma {:induction false} UnlabelledLinesIgnored(ls: Labels, before: seq<string>, extra: seq<string>,
                                                  after: seq<string>)
    requires forall j :: 0 <= j < |extra| ==>
               !Labelled(extra[j], ls.command) && !Labelled(extra[j], ls.explanation)
    ensures Parse(ls, before + extra + after) == Parse(ls, before + after)
    decreases |after|
  {
    if after == [] {
      assert before + extra + after == before + extra;
      assert before + after == before;
      UnlabelledLinesAppended(ls, before, extra);
    } else {
      var a := after[..|after| - 1];
      var last := after[|after| - 1];
      assert after == a + [last];
      assert before + extra + after == (before + extra + a) + [last];
      assert before + after == (before + a) + [last];
      ParseLast(ls, before + extra + a, last);
      ParseLast(ls, before + a, last);
      UnlabelledLinesIgnored(ls, before, extra, a);
    }
  }

  /** Parsing a reply with one line more is one `Step` more. */
  lemma ParseLast(ls: Labels, lines: seq<string>, last: string)
    ensures Parse(ls, lines + [last]) == Step(ls, Parse(ls, lines), last)
  {
    assert (lines + [last])[..|lines|] == lines;
  }

  /** A labelled line with white space before it, between the label and the
      value, and after it, gives back the value. */
  lemma PaddedValue(p: string, mark: string, q: string, v: string, r: string)
    requires AllSpace(p) && AllSpace(q) && AllSpace(r) && Trimmed(v)
    requires mark != [] && Trimmed(mark)
    ensures Labelled(p + mark + q + v + r, mark)
    ensures ValueOf(p + mark + q + v + r, mark) == v
  {
    if v == [] {
      assert p + mark + q + v + r == p + mark + (q + r);
      PaddedNoValue(p, mark, q + r);
    } else {
      assert p + mark + q + v + r == p + (mark + (q + v)) + r;
      PaddedSomeValue(p, mark, q, v, r);
    }
  }

  lemma PaddedNoValue(p: string, mark: string, r: string)
    requires AllSpace(p) && AllSpace(r) && mark != [] && Trimmed(mark)
    ensures Labelled(p + mark + r, mark) && ValueOf(p + mark + r, mark) == []
  {
    TrimSpacePadded(p, mark, r);
    assert TrimPrefix(mark, mark) == [];
    TrimSpacePadded([], [], []);
  }

  lemma PaddedSomeValue(p: string, mark: string, q: string, v: string, r: string)
    requires AllSpace(p) && AllSpace(q) && AllSpace(r) && Trimmed(v) && v != []
    requires mark != [] && Trimmed(mark)
    ensures Labelled(p + (mark + (q + v)) + r, mark)
    ensures ValueOf(p + (mark + (q + v)) + r, mark) == v
  {
    var x := mark + (q + v);
    TrimmedAround(mark, q, v);
    TrimSpacePadded(p, x, r);
    ValueAfterMark(p + x + r, mark, q + v);
    TrimSpaceAfterSpaces(q, v);
  }

  lemma TrimmedAround(a: string, b: string, c: string)
    requires a != [] && c != [] && Trimmed(a) && Trimmed(c)
    ensures Trimmed(a + (b + c))
  {
    assert (a + (b + c))[0] == a[0];
    assert (a + (b + c))[|a + (b + c)| - 1] == c[|c| - 1];
  }

  lemma PrefixThenRest(mark: string, rest: string)
    ensures HasPrefix(mark + rest, mark) && TrimPrefix(mark + rest, mark) == rest
  {
    assert (mark + rest)[..|mark|] == mark;
    assert (mark + rest)[|mark|..] == rest;
  }

  /** A line that trims to a label and a rest has the trimmed rest as value. */
  lemma ValueAfterMark(line: string, mark: string, rest: string)
    requires TrimSpace(line) == mark + rest
    ensures Labelled(line, mark) && ValueOf(line, mark) == TrimSpace(rest)
  {
    PrefixThenRest(mark, rest);
  }

  /** A padded line with a label, a value and no newline. */
  function Line(p: string, mark: string, q: string, v: string, r: string): string {
    p + mark + q + v + r
  }

  lemma LineHasNoNewline(p: string, mark: string, q: string, v: string, r: string)
    requires '\n' !in p && '\n' !in mark && '\n' !in q && '\n' !in v && '\n' !in r
    ensures '\n' !in Line(p, mark, q, v, r)
  {
  }

  /** A reply made of one command line gives that command and no explanation. */
  lemma CommandOnly(ls: Labels, p: string, q: string, c: string, r: string)
    requires Distinguishable(ls)
    requires AllSpace(p) && AllSpace(q) && AllSpace(r) && Trimmed(c)
    requires '\n' !in p && '\n' !in q && '\n' !in c && '\n' !in r
    ensures Parse(ls, SplitLines(Line(p, ls.command, q, c, r))) == Result(c, "")
  {
    var line := Line(p, ls.command, q, c, r);
    LineHasNoNewline(p, ls.command, q, c, r);
    SplitLinesOfLine(line);
    PaddedValue(p, ls.command, q, c, r);
    assert Parse(ls, [line]) == Step(ls, Result("", ""), line);
  }

  lemma SplitTwoLines(reply: string, l1: string, l2: string)
    requires '\n' !in l1 && '\n' !in l2 && reply == l1 + "\n" + l2
    ensures SplitLines(reply) == [l1, l2]
  {
    SplitLinesAppend(l1, l2);
    SplitLinesOfLine(l1);
    SplitLinesOfLine(l2);
  }

  lemma ParseTwo(ls: Labels, l1: string, l2: string)
    ensures Parse(ls, [l1, l2]) == Step(ls, Step(ls, Result("", ""), l1), l2)
  {
    assert [l1][..0] == [];
    assert Parse(ls, [l1]) == Step(ls, Result("", ""), l1);
    assert [l1, l2][..1] == [l1];
  }

  lemma ParseTwoLines(ls: Labels, reply: string, l1: string, l2: string)
    requires '\n' !in l1 && '\n' !in l2 && reply == l1 + "\n" + l2
    ensures Parse(ls, SplitLines(reply)) == Step(ls, Step(ls, Result("", ""), l1), l2)
  {
    SplitTwoLines(reply, l1, l2);
    ParseTwo(ls, l1, l2);
  }

  /** Round trip: a command and an explanation with no newline and no white
      space at either end are read back from a reply of a command line and an
      explanation line, whatever white space pads the two lines. */
  lemma RoundTrip(ls: Labels, c: string, e: string,
                  p1: string, q1: string, r1: string, p2: string, q2: string, r2: string)
    requires Distinguishable(ls)
    requires Trimmed(c) && Trimmed(e) && '\n' !in c && '\n' !in e
    requires AllSpace(p1) && AllSpace(q1) && AllSpace(r1) && '\n' !in p1 && '\n' !in q1 && '\n' !in r1
    requires AllSpace(p2) && AllSpace(q2) && AllSpace(r2) && '\n' !in p2 && '\n' !in q2 && '\n' !in r2
    ensures Parse(ls, SplitLines(Line(p1, ls.command, q1, c, r1) + "\n" + Line(p2, ls.explanation, q2, e, r2)))
            == Result(c, e)
  {
    var l1 := Line(p1, ls.command, q1, c, r1);
    var l2 := Line(p2, ls.explanation, q2, e, r2);
    LineHasNoNewline(p1, ls.command, q1, c, r1);
    LineHasNoNewline(p2, ls.explanation, q2, e, r2);
    ParseTwoLines(ls, l1 + "\n" + l2, l1, l2);
    PaddedValue(p1, ls.command, q1, c, r1);
    PaddedValue(p2, ls.explanation, q2, e, r2);
    LabelsExclusive(ls, l2);
  }

  /** The reply format the prompt asks for. */
  function Format(ls: Labels, r: Result): string {
    ls.command + " " + r.command + "\n" + ls.explanation + " " + r.explanation
  }

  lemma FormatLines(ls: Labels, r: Result)
    ensures Format(ls, r) == Line("", ls.command, " ", r.command, "") + "\n" +
                             Line("", ls.explanation, " ", r.explanation, "")
  {
  }

  /** Whatever the parser returns, written back in the asked-for format,
      parses to itself. */
  lemma FormatParse(ls: Labels, r: Result)
    requires Distinguishable(ls)
    requires Trimmed(r.command) && Trimmed(r.explanation)
    requires '\n' !in r.command && '\n' !in r.explanation
    ensures Parse(ls, SplitLines(Format(ls, r))) == r
  {
    FormatLines(ls, r);
    RoundTrip(ls, r.command, r.explanation, "", " ", "", "", " ", "");
  }

  /** The parser reads the program's own format back. */
  lemma PromptedFormatParse(r: Result)
    requires Trimmed(r.command) && Trimmed(r.explanation)
    requires '\n' !in r.command && '\n' !in r.explanation
    ensures Parse(Prompted, SplitLines(Format(Prompted, r))) == r
  {
    PromptedDistinguishable();
    FormatParse(Prompted, r);
  }

  // ------------------------------------------------------------ confirmation

  /** The answer to "Run this command? [y/N]" that runs it: "y" or "yes" in
      any case, with any white space around it. */
  predicate Accepts(input: string) {
    var answer := TrimSpace(ToLower(input));
    answer == "y" || answer == "yes"
  }

  /** What reading the answer gave: a line, or a read error. */
  datatype Answer = Line(text: string) | ReadError(message: string)

  /** What `ConfirmAndRun` goes on to do. */
  datatype Decision = Failed(message: string) | Declined | RunCommand(command: string)

  function Confirm(answer: Answer, command: string): (d: Decision)
    ensures d.RunCommand? <==> answer.Line? && Accepts(answer.text)
    ensures d.RunCommand? ==> d.command == command
    ensures d.Failed? <==> answer.ReadError?
    ensures d.Failed? ==> d.message == "reading input: " + answer.message
  {
    match answer
    case ReadError(m) => Failed("reading input: " + m)
    case Line(text) => if Accepts(text) then RunCommand(command) else Declined
  }

  lemma TrimmedLower(w: string)
    requires Trimmed(w)
    ensures Trimmed(ToLower(w))
  {
  }

  /** Exactly "y" and "yes", in any case and with any white space around them,
      are accepted; every other answer declines, so the default is No. */
  lemma AcceptsIff(p: string, w: string, r: string)
    requires AllSpace(p) && AllSpace(r) && Trimmed(w)
    ensures Accepts(p + w + r) <==> ToLower(w) == "y" || ToLower(w) == "yes"
  {
    ToLowerAppend(p + w, r);
    ToLowerAppend(p, w);
    AllSpaceNoUpper(p);
    AllSpaceNoUpper(r);
    TrimmedLower(w);
    TrimSpacePadded(p, ToLower(w), r);
  }
}
