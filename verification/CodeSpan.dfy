/** Release-note titles as literal code spans (scripts/format-release-notes.py:18-36), read back by section
    6.1 of CommonMark 0.31.2. */
module CodeSpan {
  import opened Options

  // ---------------------------------------------------------------- writing

  function Ticks(n: nat): (r: string)
    ensures |r| == n && forall i :: 0 <= i < n ==> r[i] == '`'
  {
    seq(n, _ => '`')
  }

  /** The length of the backtick run `s` starts with. */
  function Run(s: string): (r: nat)
    ensures r <= |s| && (r < |s| ==> s[r] != '`')
  {
    if s == "" || s[0] != '`' then 0 else 1 + Run(s[1..])
  }

  /** The longest backtick run. */
  function LongestRun(s: string): nat
    decreases |s|
  {
    if s == "" then 0
    else if s[0] != '`' then LongestRun(s[1..])
    else
      var r, rest := Run(s), LongestRun(s[Run(s)..]);
      if r < rest then rest else r
  }

  predicate AllSpaces(s: string) { forall c <- s :: c == ' ' }

  function LiteralTitle(title: string): string
  {
    var fence := Ticks(LongestRun(title) + 1);
    var padding := if AllSpaces(title) then "" else " ";
    fence + padding + title + padding + fence
  }

  datatype NoteLine = Plain(text: string) | Change(bullet: string, title: string, suffix: string, end: string)

  function Rendered(line: NoteLine): string
  {
    match line
    case Plain(text) => text
    case Change(bullet, title, suffix, end) => bullet + LiteralTitle(title) + suffix + end
  }

  function RenderedAll(lines: seq<NoteLine>): string
  {
    if lines == [] then "" else RenderedAll(lines[..|lines| - 1]) + Rendered(lines[|lines| - 1])
  }

  method FormatNotes(lines: seq<NoteLine>) returns (result: string)
    ensures result == RenderedAll(lines)
  {
    result := "";
    for i := 0 to |lines|
      invariant result == RenderedAll(lines[..i])
    {
      assert lines[..i + 1][..i] == lines[..i];
      match lines[i] {
        case Plain(text) => result := result + text;
        case Change(bullet, title, suffix, end) => result := result + (bullet + LiteralTitle(title) + suffix + end);
      }
    }
    assert lines[..|lines|] == lines;
  }

  /** The lines are rendered one after another, and a line that is no change as it is. */
  lemma {:induction false} RenderedInOrder(lines: seq<NoteLine>, i: nat)
    requires i < |lines|
    ensures RenderedAll(lines[..i]) + Rendered(lines[i]) <= RenderedAll(lines)
    ensures i == |lines| - 1 ==> RenderedAll(lines[..i]) + Rendered(lines[i]) == RenderedAll(lines)
    ensures lines[i].Plain? ==> Rendered(lines[i]) == lines[i].text
    decreases |lines|
  {
    if i < |lines| - 1 {
      RenderedInOrder(lines[..|lines| - 1], i);
      assert lines[..|lines| - 1][..i] == lines[..i];
    }
  }

  // ---------------------------------------------------------------- the fence

  predicate StandsAt(s: string, part: string, i: int)
  {
    0 <= i && i + |part| <= |s| && s[i..i + |part|] == part
  }

  ghost predicate Contains(s: string, part: string)
  {
    exists i :: StandsAt(s, part, i)
  }

  lemma ContainsLater(s: string, part: string, k: nat)
    requires k <= |s| && Contains(s[k..], part)
    ensures Contains(s, part)
  {
    var i :| StandsAt(s[k..], part, i);
    assert StandsAt(s, part, k + i);
  }

  /** The title has a run as long as the longest. */
  lemma {:induction false} LongestRunThere(s: string)
    ensures Contains(s, Ticks(LongestRun(s)))
    decreases |s|
  {
    if s == "" {
      assert StandsAt(s, Ticks(0), 0);
    } else if s[0] != '`' {
      LongestRunThere(s[1..]);
      ContainsLater(s, Ticks(LongestRun(s)), 1);
    } else if Run(s) < LongestRun(s[Run(s)..]) {
      LongestRunThere(s[Run(s)..]);
      ContainsLater(s, Ticks(LongestRun(s)), Run(s));
    } else {
      RunTicks(s);
      assert s[0..Run(s)] == s[..Run(s)] && StandsAt(s, Ticks(Run(s)), 0);
    }
  }

  lemma {:induction false} RunTicks(s: string)
    ensures s[..Run(s)] == Ticks(Run(s))
  {
    if s != "" && s[0] == '`' {
      RunTicks(s[1..]);
      assert s[..Run(s)] == [s[0]] + s[1..][..Run(s) - 1];
    } else {
      assert s[..0] == Ticks(0);
    }
  }

  /** It has none that is longer. */
  lemma {:induction false} LongestRunBounds(s: string, i: nat, n: nat)
    requires i + n <= |s| && s[i..i + n] == Ticks(n)
    ensures n <= LongestRun(s)
    decreases |s|
  {
    if n > 0 {
      assert forall j :: i <= j < i + n ==> s[j] == s[i..i + n][j - i] == '`';
      if s[0] != '`' {
        assert s[1..][i - 1..i - 1 + n] == s[i..i + n];
        LongestRunBounds(s[1..], i - 1, n);
      } else if i < Run(s) {
        assert i + n <= Run(s);
      } else {
        assert s[Run(s)..][i - Run(s)..i - Run(s) + n] == s[i..i + n];
        LongestRunBounds(s[Run(s)..], i - Run(s), n);
      }
    }
  }

  /** The fence is the shortest run of backticks longer than every one in the title: the title holds a run one
      shorter, and none as long. */
  lemma FenceIs(title: string, n: nat)
    requires n == Run(LiteralTitle(title)) && title != ""
    ensures n > 0 && Contains(title, Ticks(n - 1)) && !Contains(title, Ticks(n))
  {
    FenceFirst(title, "");
    ContentEnds(title);
    RunIs(LongestRun(title) + 1, Content(title) + (Ticks(LongestRun(title) + 1) + ""));
    assert LiteralTitle(title) + "" == LiteralTitle(title);
    LongestRunThere(title);
    if Contains(title, Ticks(n)) {
      var i :| StandsAt(title, Ticks(n), i);
      LongestRunBounds(title, i, n);
    }
  }

  // ---------------------------------------------------------------- reading

  /** Where the first run of exactly `n` backticks starts. */
  function Close(s: string, n: nat): (r: Option<nat>)
    ensures r.Some? ==> r.value + n <= |s|
    decreases |s|
  {
    if s == "" then None
    else if s[0] != '`' then Later(Close(s[1..], n), 1)
    else if Run(s) == n then Some(0)
    else Later(Close(s[Run(s)..], n), Run(s))
  }

  function Later(at: Option<nat>, by_: nat): Option<nat> { if at.None? then None else Some(at.value + by_) }

  /** Line endings become spaces. */
  function OnOneLine(s: string): string
    decreases |s|
  {
    if s == "" then ""
    else if s[0] == '\r' && |s| > 1 && s[1] == '\n' then " " + OnOneLine(s[2..])
    else if s[0] == '\r' || s[0] == '\n' then " " + OnOneLine(s[1..])
    else [s[0]] + OnOneLine(s[1..])
  }

  /** One space comes off each side of content that has one there and is not all spaces. */
  function Stripped(s: string): string
  {
    if |s| >= 2 && s[0] == ' ' && s[|s| - 1] == ' ' && !AllSpaces(s) then s[1..|s| - 1] else s
  }

  function Cut(body: string, at: Option<nat>, n: nat): Option<(string, string)>
    requires at.Some? ==> at.value + n <= |body|
  {
    if at.None? then None else Some((body[..at.value], body[at.value + n..]))
  }

  /** What stands between the backtick run at the front and the next of its length, and what follows. */
  function ReadFenced(s: string): Option<(string, string)>
  {
    var n := Run(s);
    if n == 0 then None
    else
      Cut(s[n..], Close(s[n..], n), n)
  }

  /** The code span `s` starts with: its content and what follows. */
  function ReadCodeSpan(s: string): Option<(string, string)>
  {
    var fenced := ReadFenced(s);
    if fenced.None? then None else Some((Stripped(OnOneLine(fenced.value.0)), fenced.value.1))
  }

  // ---------------------------------------------------------------- the round trip

  predicate SingleLine(s: string) { forall c <- s :: c != '\r' && c != '\n' }

  predicate Bounded(rest: string) { rest == "" || rest[0] != '`' }

  /** The run at the front, when something else follows it. */
  lemma {:induction false} RunIs(n: nat, rest: string)
    requires Bounded(rest)
    ensures Run(Ticks(n) + rest) == n
    decreases n
  {
    if n > 0 {
      assert (Ticks(n) + rest)[1..] == Ticks(n - 1) + rest;
      RunIs(n - 1, rest);
    } else {
      assert Ticks(0) + rest == rest;
    }
  }

  lemma {:induction false} RunAll(s: string)
    requires Run(s) == |s|
    ensures s == Ticks(|s|)
  {
    if s != "" {
      RunAll(s[1..]);
      assert s == [s[0]] + s[1..];
    }
  }

  lemma LastStops(s: string)
    requires s != "" && s[|s| - 1] != '`'
    ensures Run(s) < |s|
  {
    if Run(s) == |s| {
      RunAll(s);
    }
  }

  lemma {:induction false} RunStops(s: string, more: string)
    requires Run(s) < |s|
    ensures Run(s + more) == Run(s)
  {
    if s[0] == '`' {
      assert (s + more)[1..] == s[1..] + more;
      RunStops(s[1..], more);
    }
  }

  /** What is in front of the closing run is skipped run by run, or character by character. */
  lemma CloseSkips(s: string, n: nat, r: nat)
    requires s != "" && r == if s[0] == '`' then Run(s) else 1
    requires s[0] == '`' ==> Run(s) != n
    ensures r <= |s| && Close(s, n) == Later(Close(s[r..], n), r)
  {
  }

  /** The first run, or the first other character, of content with shorter runs only. */
  lemma FrontSkipped(content: string, n: nat, tail: string) returns (r: nat)
    requires content != "" && LongestRun(content) < n && content[|content| - 1] != '`'
    ensures 0 < r <= |content| && LongestRun(content[r..]) < n
    ensures Close(content + tail, n) == Later(Close(content[r..] + tail, n), r)
  {
    var s := content + tail;
    r := if content[0] == '`' then Run(content) else 1;
    if content[0] == '`' {
      LastStops(content);
      RunStops(content, tail);
    }
    CloseSkips(s, n, r);
    assert s[r..] == content[r..] + tail;
  }

  /** With shorter runs in front and no backtick just before it, the fence is the first run of its length. */
  lemma {:induction false} CloseFound(content: string, n: nat, tail: string)
    requires LongestRun(content) < n && n <= |tail| && Run(tail) == n
    requires content == "" || content[|content| - 1] != '`'
    ensures Close(content + tail, n) == Some(|content|)
    decreases |content|
  {
    if content == "" {
      assert content + tail == tail;
    } else {
      var r := FrontSkipped(content, n, tail);
      CloseFound(content[r..], n, tail);
    }
  }

  lemma {:induction false} OnOneLineKeeps(s: string)
    requires SingleLine(s)
    ensures OnOneLine(s) == s
  {
    if s != "" {
      assert s[0] in s;
      assert forall c <- s[1..] :: c in s;
      OnOneLineKeeps(s[1..]);
    }
  }

  lemma {:induction false} OnOneLineIs(s: string)
    ensures SingleLine(OnOneLine(s))
    decreases |s|
  {
    if s != "" {
      var pair := s[0] == '\r' && |s| > 1 && s[1] == '\n';
      OnOneLineIs(if pair then s[2..] else s[1..]);
    }
  }

  lemma {:induction false} NoTicks(s: string)
    requires AllSpaces(s)
    ensures LongestRun(s) == 0
  {
    if s != "" {
      assert s[0] in s;
      assert forall c <- s[1..] :: c in s;
      NoTicks(s[1..]);
    }
  }

  /** A space after the title changes no run. */
  lemma {:induction false} LongestRunThenSpace(s: string)
    ensures LongestRun(s + " ") == LongestRun(s)
    decreases |s|
  {
    if s != "" {
      var r := if s[0] == '`' then Run(s) else 1;
      assert (s + " ")[r..] == s[r..] + " ";
      LongestRunThenSpace(s[r..]);
      if s[0] == '`' {
        if r < |s| {
          RunStops(s, " ");
        } else {
          RunAll(s);
          RunIs(r, " ");
        }
      }
    }
  }

  function Content(title: string): (r: string)
  {
    if AllSpaces(title) then title else " " + title + " "
  }

  lemma ContentRuns(title: string)
    ensures LongestRun(Content(title)) == LongestRun(title)
  {
    if !AllSpaces(title) {
      assert Content(title)[1..] == title + " ";
      LongestRunThenSpace(title);
    }
  }

  lemma ContentStrips(title: string)
    ensures Stripped(Content(title)) == title
  {
    if !AllSpaces(title) {
      var c :| c in title && c != ' ';
      assert c in Content(title);
      assert Content(title)[1..|Content(title)| - 1] == title;
    }
  }

  lemma CutContent(content: string, tail: string, n: nat)
    requires n <= |tail|
    ensures Cut(content + tail, Some(|content|), n) == Some((content, tail[n..]))
  {
    assert (content + tail)[..|content|] == content && (content + tail)[|content| + n..] == tail[n..];
  }

  lemma ContentEnds(title: string)
    requires title != ""
    ensures var content := Content(title); content != "" && content[0] == ' ' == content[|content| - 1]
  {
    assert title[0] in title && title[|title| - 1] in title;
  }

  /** The opening fence, the content, and the fence that closes it. */
  lemma FencedReads(n: nat, content: string, rest: string)
    requires n > 0 && content != "" && content[0] != '`' && content[|content| - 1] != '`' && LongestRun(content) < n
    requires Bounded(rest)
    ensures ReadFenced(Ticks(n) + (content + (Ticks(n) + rest))) == Some((content, rest))
  {
    var tail := Ticks(n) + rest;
    RunIs(n, rest);
    RunIs(n, content + tail);
    assert (Ticks(n) + (content + tail))[n..] == content + tail && tail[n..] == rest;
    CloseFound(content, n, tail);
    CutContent(content, tail, n);
  }

  /** Reading the span of any title: the content, on one line, with one space off each side. */
  lemma SpanReads(title: string, rest: string)
    requires title != "" && Bounded(rest)
    ensures ReadCodeSpan(LiteralTitle(title) + rest) == Some((Stripped(OnOneLine(Content(title))), rest))
  {
    FenceFirst(title, rest);
    ContentEnds(title);
    ContentRuns(title);
    FencedReads(LongestRun(title) + 1, Content(title), rest);
  }

  lemma Regroup(fence: string, padding: string, title: string, rest: string)
    ensures fence + padding + title + padding + fence + rest == fence + ((padding + title + padding) + (fence + rest))
  {
  }

  lemma FenceFirst(title: string, rest: string)
    ensures var n := LongestRun(title) + 1;
      LiteralTitle(title) + rest == Ticks(n) + (Content(title) + (Ticks(n) + rest))
  {
    var fence, padding := Ticks(LongestRun(title) + 1), if AllSpaces(title) then "" else " ";
    Regroup(fence, padding, title, rest);
    assert LiteralTitle(title) == fence + padding + title + padding + fence;
    assert padding + title + padding == Content(title) by {
      if padding == "" { assert "" + title + "" == title; }
    }
  }

  /** The encoder round-trips, with anything after it that does not go on with a backtick, exactly on the
      titles that are not empty and hold no line ending. */
  lemma TitleRoundTrips(title: string)
    ensures (forall rest :: Bounded(rest) ==> ReadCodeSpan(LiteralTitle(title) + rest) == Some((title, rest))) <==>
      title != "" && SingleLine(title)
  {
    if title == "" {
      assert LiteralTitle(title) + "" == "``";
      assert Run("``") == 2 by { RunIs(2, ""); assert Ticks(2) + "" == "``"; }
      assert ReadCodeSpan("``").None?;
      assert Bounded("");
    } else if SingleLine(title) {
      forall rest | Bounded(rest) ensures ReadCodeSpan(LiteralTitle(title) + rest) == Some((title, rest)) {
        SpanReads(title, rest);
        OnOneLineKeeps(Content(title));
        ContentStrips(title);
      }
    } else {
      SpanReads(title, "");
      OnOneLineIs(Content(title));
      assert forall c <- Stripped(OnOneLine(Content(title))) :: c in OnOneLine(Content(title));
      assert Bounded("");
    }
  }

  /** In a rendered change the title reads as it was given, and bullet, attribution and line end stay. */
  lemma ChangeReads(line: NoteLine)
    requires line.Change? && line.title != "" && SingleLine(line.title) && line.suffix != "" && line.suffix[0] == ' '
    ensures line.bullet <= Rendered(line)
    ensures ReadCodeSpan(Rendered(line)[|line.bullet|..]) == Some((line.title, line.suffix + line.end))
  {
    TitleRoundTrips(line.title);
    var rest := line.suffix + line.end;
    assert Rendered(line)[|line.bullet|..] == LiteralTitle(line.title) + rest;
    assert Bounded(rest);
  }
}
