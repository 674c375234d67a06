/**
 * The clean-up `DocumentAnalyzer.analyze` applies to the model's reply before
 * parsing it as JSON: strip it, and if it opens a Markdown code block, drop
 * the opening line and the closing fence line.
 */
module Analyzer {
  import opened Text

  /** The three backticks that open and close a Markdown code block. */
  const Fence: string := "```"

  /** A line that closes a code block: once stripped, it starts with three backticks. */
  predicate ClosesFence(line: string) {
    StartsWith(Strip(line), Fence)
  }

  /** The lines of a fenced reply that are kept: all but the first, and all but the last when it closes the block. */
  function InnerLines(lines: seq<string>): (r: seq<string>)
    requires lines != []
    ensures |r| == |lines| - 1 || |r| == |lines| - 2
    ensures forall k :: 0 <= k < |r| ==> r[k] == lines[k + 1]
    ensures |r| == |lines| - 2 <==> |lines| >= 2 && ClosesFence(lines[|lines| - 1])
  {
    var rest := lines[1..];
    if rest != [] && ClosesFence(rest[|rest| - 1]) then rest[..|rest| - 1] else rest
  }

  /**
   * The reply as handed to the JSON parser. It never has leading or trailing
   * whitespace, and a reply that does not open a code block is only stripped.
   */
  function StripFences(response: string): (r: string)
    ensures Framed(r)
    ensures !StartsWith(Strip(response), Fence) ==> r == Strip(response)
  {
    var raw := Strip(response);
    if !StartsWith(raw, Fence) then raw else FenceBody(raw)
  }

  /** What is left of a stripped reply that opens a block: its inner lines, joined and stripped. */
  function FenceBody(raw: string): (r: string)
    requires StartsWith(raw, Fence)
    ensures Framed(r)
  {
    Strip(Join(InnerLines(SplitLines(raw)), '\n'))
  }

  /** A string that begins with a backtick and ends with a non-blank character is its own strip. */
  lemma StripOfFenced(s: string)
    requires StartsWith(s, Fence) && !IsSpace(s[|s| - 1])
    ensures Strip(s) == s
  {
    assert s[0] == '`';
    StripOfStripped(s);
  }

  /** The bare fence closes a block. */
  lemma FenceCloses()
    ensures ClosesFence(Fence)
  {
    StripOfStripped(Fence);
  }

  /** A reply that is its own strip and opens a block is reduced to its fence body. */
  lemma StripFencesOfFramed(s: string)
    requires Strip(s) == s && StartsWith(s, Fence)
    ensures StripFences(s) == FenceBody(s)
  {
  }

  /** The fence body of a reply given by its lines. */
  lemma FenceBodyOfLines(raw: string, lines: seq<string>)
    requires StartsWith(raw, Fence) && SplitLines(raw) == lines && lines != []
    ensures FenceBody(raw) == Strip(Join(InnerLines(lines), '\n'))
  {
  }

  /** A body fenced as a reply: an opening line with a tag, the body, a closing fence. */
  function Fenced(tag: string, body: string): string {
    Fence + tag + "\n" + body + "\n" + Fence
  }

  /** The lines of a fenced body: the opening line, the body's lines, the fence. */
  function FencedLines(tag: string, body: string): seq<string> {
    [Fence + tag] + Split(body, '\n') + [Fence]
  }

  /** The lines of a fenced body join into the fenced reply. */
  lemma FencedJoin(tag: string, body: string)
    ensures Join(FencedLines(tag, body), '\n') == Fenced(tag, body)
  {
    var first := Fence + tag;
    var bodyLines := Split(body, '\n');
    JoinAppend([first], bodyLines, '\n');
    JoinSplit(body, '\n');
    JoinAppend([first] + bodyLines, [Fence], '\n');
  }

  /** The lines of a fenced body are proper lines, the last one the fence. */
  lemma FencedLinesProper(tag: string, body: string)
    requires '\n' !in tag
    ensures |FencedLines(tag, body)| >= 2
    ensures FencedLines(tag, body)[|FencedLines(tag, body)| - 1] == Fence
    ensures forall k :: 0 <= k < |FencedLines(tag, body)| ==> '\n' !in FencedLines(tag, body)[k]
  {
    var lines := FencedLines(tag, body);
    assert '\n' !in Fence + tag;
    forall k | 0 <= k < |lines| ensures '\n' !in lines[k] {
      if 0 < k < |lines| - 1 {
        assert lines[k] == Split(body, '\n')[k - 1];
      }
    }
  }

  /** A fenced reply opens a block and is its own strip. */
  lemma FencedFramed(tag: string, body: string)
    ensures StartsWith(Fenced(tag, body), Fence) && Strip(Fenced(tag, body)) == Fenced(tag, body)
  {
    var response := Fenced(tag, body);
    assert response[..3] == Fence && response[|response| - 1] == '`';
    StripOfFenced(response);
  }

  /** The closing fence is dropped and the body's lines are what is left. */
  lemma FencedInner(tag: string, body: string)
    ensures InnerLines(FencedLines(tag, body)) == Split(body, '\n')
  {
    var lines := FencedLines(tag, body);
    FenceCloses();
    assert lines[|lines| - 1] == Fence;
    assert lines[1..][..|lines| - 2] == Split(body, '\n');
  }

  /**
   * Fencing a body and stripping the fences gives back the stripped body,
   * whatever tag follows the opening backticks.
   */
  lemma FencedRoundTrip(tag: string, body: string)
    requires '\n' !in tag
    ensures StripFences(Fenced(tag, body)) == Strip(body)
  {
    FencedFramed(tag, body);
    StripFencesOfFramed(Fenced(tag, body));
    FencedBody(tag, body);
    JoinSplit(body, '\n');
  }

  /** The fence body of a fenced reply is the body's lines, joined and stripped. */
  lemma FencedBody(tag: string, body: string)
    requires '\n' !in tag
    ensures StartsWith(Fenced(tag, body), Fence)
    ensures FenceBody(Fenced(tag, body)) == Strip(Join(Split(body, '\n'), '\n'))
  {
    FencedFramed(tag, body);
    FencedLinesSplit(tag, body);
    FenceBodyOfLines(Fenced(tag, body), FencedLines(tag, body));
    FencedInner(tag, body);
  }

  /** The fenced reply splits back into its lines. */
  lemma FencedLinesSplit(tag: string, body: string)
    requires '\n' !in tag
    ensures SplitLines(Fenced(tag, body)) == FencedLines(tag, body)
  {
    FencedJoin(tag, body);
    FencedLinesProper(tag, body);
    SplitLinesOf(Fenced(tag, body), FencedLines(tag, body));
  }

  /** A reply that is the join of proper lines, the last not empty, splits back into them. */
  lemma SplitLinesOf(raw: string, lines: seq<string>)
    requires |lines| >= 1 && lines[|lines| - 1] != ""
    requires forall k :: 0 <= k < |lines| ==> '\n' !in lines[k]
    requires Join(lines, '\n') == raw
    ensures SplitLines(raw) == lines
  {
    SplitLinesJoin(lines);
  }

  /** A reply made of an opening fence line alone leaves nothing to parse. */
  lemma OpeningFenceOnly(response: string)
    requires StartsWith(Strip(response), Fence) && '\n' !in Strip(response)
    ensures StripFences(response) == ""
  {
    var raw := Strip(response);
    SplitLinesJoin([raw]);
  }

  /** A reply of an opening line with a tag and one more line. */
  function TwoLines(tag: string, line: string): string {
    Fence + tag + "\n" + line
  }

  /** A two-line reply whose second line is framed opens a block and is its own strip. */
  lemma TwoLinesFramed(tag: string, line: string)
    requires line != [] && Framed(line)
    ensures StartsWith(TwoLines(tag, line), Fence) && Strip(TwoLines(tag, line)) == TwoLines(tag, line)
  {
    var response := TwoLines(tag, line);
    assert response[..3] == Fence && response[|response| - 1] == line[|line| - 1];
    StripOfFenced(response);
  }

  /** A two-line reply splits into its two lines. */
  lemma TwoLinesSplit(tag: string, line: string)
    requires '\n' !in tag && '\n' !in line && line != []
    ensures SplitLines(TwoLines(tag, line)) == [Fence + tag, line]
  {
    JoinAppend([Fence + tag], [line], '\n');
    assert '\n' !in Fence + tag;
    SplitLinesOf(TwoLines(tag, line), [Fence + tag, line]);
  }

  /**
   * A fenced reply of two lines keeps its second line exactly when that line
   * does not start with three backticks.
   */
  lemma SecondLineKeptUnlessFence(tag: string, line: string)
    requires '\n' !in tag && '\n' !in line
    requires line != [] && Framed(line)
    ensures StripFences(TwoLines(tag, line)) == if StartsWith(line, Fence) then "" else line
  {
    TwoLinesFramed(tag, line);
    StripFencesOfFramed(TwoLines(tag, line));
    TwoLinesBody(tag, line);
  }

  /** The fence body of a two-line reply. */
  lemma TwoLinesBody(tag: string, line: string)
    requires '\n' !in tag && '\n' !in line
    requires line != [] && Framed(line)
    ensures StartsWith(TwoLines(tag, line), Fence)
    ensures FenceBody(TwoLines(tag, line)) == if StartsWith(line, Fence) then "" else line
  {
    assert TwoLines(tag, line)[..3] == Fence;
    TwoLinesSplit(tag, line);
    FenceBodyOfLines(TwoLines(tag, line), [Fence + tag, line]);
    StripOfStripped(line);
    assert [Fence + tag, line][1..] == [line];
  }
}
