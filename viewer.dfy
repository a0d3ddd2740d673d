/** The transcript viewer (components/conversation/conversation-viewer.tsx): segmenting a
    conversation into role-tagged messages with running character offsets, and finding the
    topic that covers a position. */
module Viewer {
  import opened Text

  /** Who a message is attributed to: the `"user"`, `"ai"` and `"text"` message types. */
  datatype Speaker = User | Ai | Unattributed

  datatype Message = Message(kind: Speaker, content: String, position: int)

  /** The topic record the viewer receives. */
  datatype Topic = Topic(id: int, title: String, summary: String, positionStart: int, positionEnd: int)

  // ---------------------------------------------------------------------------
  // formatConversation
  // ---------------------------------------------------------------------------

  /** The prefixes that mark an assistant line, compared on the lower-cased trimmed line. */
  predicate IsAiLine(lower: String) {
    StartsWith(lower, "ai:") || StartsWith(lower, "ai assistant:") || StartsWith(lower, "assistant:")
  }

  /** The message one line gives at offset `position` (lines 57-81): none for a blank line,
      otherwise exactly one. */
  function Classify(line: String, position: int): (ms: seq<Message>)
    ensures |ms| == if IsBlank(line) then 0 else 1
    ensures forall k :: 0 <= k < |ms| ==> ms[k].position == position
  {
    var trimmedLine := Trim(line);
    var lower := AsciiLower(trimmedLine);
    assert IsBlank(line) <==> |lower| == 0;
    if StartsWith(lower, "user:") then
      [Message(User, Trim(Substring(trimmedLine, 5)), position)]
    else if IsAiLine(lower) then
      var colonIndex := IndexOf(trimmedLine, ":", 0);
      [Message(Ai, Trim(Substring(trimmedLine, colonIndex + 1)), position)]
    else if |trimmedLine| > 0 then
      [Message(Unattributed, trimmedLine, position)]
    else []
  }

  /** `.filter((line) => line.trim())`: the lines that are not blank. */
  function Kept(lines: seq<String>): (r: seq<String>)
    ensures |r| <= |lines|
    ensures forall k :: 0 <= k < |r| ==> !IsBlank(r[k])
  {
    if lines == [] then []
    else if IsBlank(lines[0]) then Kept(lines[1..])
    else [lines[0]] + Kept(lines[1..])
  }

  /** The number of characters the lines take up when each is followed by a newline. */
  function Extent(lines: seq<String>): nat {
    if lines == [] then 0 else |lines[0]| + 1 + Extent(lines[1..])
  }

  /** `lines.forEach(step)` with the running offset of lines 54 and 82: each line's messages
      are computed at the current offset, which then advances by the line's untrimmed length
      plus one for the newline. */
  function ForEachLine(step: (String, int) -> seq<Message>, lines: seq<String>, position: int): seq<Message> {
    if lines == [] then []
    else step(lines[0], position) + ForEachLine(step, lines[1..], position + |lines[0]| + 1)
  }

  /** `formatConversation(text)` as a value: the callback of lines 57-81 run over the lines
      that survive the filter of line 52. */
  function Segment(text: String): seq<Message> {
    ForEachLine(Classify, Kept(SplitOn(text, '\n')), 0)
  }

  /** One step of the loop: line `i` contributes its messages ahead of the later lines'. */
  lemma ForEachStep(step: (String, int) -> seq<Message>, lines: seq<String>, i: nat, position: int)
    requires i < |lines|
    ensures ForEachLine(step, lines[i..], position)
            == step(lines[i], position) + ForEachLine(step, lines[i + 1..], position + |lines[i]| + 1)
  {
    assert lines[i..][1..] == lines[i + 1..];
  }

  /** The loop's invariant survives one step: appending line `i`'s messages to what was
      collected moves the offset past the line. */
  lemma ForEachAdvance(step: (String, int) -> seq<Message>, lines: seq<String>, i: nat, position: int,
                       collected: seq<Message>, pushed: seq<Message>)
    requires i < |lines| && pushed == step(lines[i], position)
    ensures collected + ForEachLine(step, lines[i..], position)
            == (collected + pushed) + ForEachLine(step, lines[i + 1..], position + |lines[i]| + 1)
  {
    ForEachStep(step, lines, i, position);
    AppendAssoc(collected, pushed, ForEachLine(step, lines[i + 1..], position + |lines[i]| + 1));
  }

  /** The loop at lines 53-83, `lines.forEach(callback)` with the running offset, for a
      callback given as the function `step`; `formatConversation` passes the callback of
      lines 57-81, `Classify`. */
  method FormatLoop(step: (String, int) -> seq<Message>, lines: seq<String>) returns (messages: seq<Message>)
    ensures messages == ForEachLine(step, lines, 0)
  {
    messages := [];
    var currentPosition := 0;
    ghost var all := ForEachLine(step, lines, 0);
    for i := 0 to |lines|
      invariant messages + ForEachLine(step, lines[i..], currentPosition) == all
    {
      var line := lines[i];
      var pushed := step(line, currentPosition);
      ForEachAdvance(step, lines, i, currentPosition, messages, pushed);
      messages := messages + pushed;
      currentPosition := currentPosition + |line| + 1;
    }
    assert lines[|lines|..] == [];
  }

  /** `formatConversation` (lines 50-86). */
  method FormatConversation(text: String) returns (messages: seq<Message>)
    ensures messages == Segment(text)
  {
    var lines := Kept(SplitOn(text, '\n'));
    messages := FormatLoop(Classify, lines);
  }

  // ---------------------------------------------------------------------------
  // Properties of a single line
  // ---------------------------------------------------------------------------

  lemma LowerCharColon(c: char)
    ensures LowerChar(c) == ':' <==> c == ':'
  {
  }

  /** The first colon of `t` is at `n` when `t[n]` is one and none comes before it. */
  lemma FirstColonAt(t: String, n: nat)
    requires n < |t| && t[n] == ':'
    requires forall k :: 0 <= k < n ==> t[k] != ':'
    ensures IndexOf(t, ":", 0) == n
  {
    assert OccursAt(t, ":", n);
  }

  /** On a line that starts, case-insensitively, with one of the assistant prefixes (and not
      with "user:"), the first colon is the prefix's own, so the content is the trimmed text
      after the prefix. */
  lemma AiContentAfterPrefix(line: String, position: int, prefix: String)
    requires prefix == "ai:" || prefix == "ai assistant:" || prefix == "assistant:"
    requires StartsWith(AsciiLower(Trim(line)), prefix)
    requires !StartsWith(AsciiLower(Trim(line)), "user:")
    ensures Classify(line, position) == [Message(Ai, Trim(Trim(line)[|prefix|..]), position)]
  {
    PrefixColonFirst(Trim(line), prefix);
    assert IsAiLine(AsciiLower(Trim(line)));
  }

  /** When the lower-cased `t` starts with an assistant prefix, the first colon of `t` is the
      prefix's last character. */
  lemma PrefixColonFirst(t: String, prefix: String)
    requires prefix == "ai:" || prefix == "ai assistant:" || prefix == "assistant:"
    requires StartsWith(AsciiLower(t), prefix)
    ensures IndexOf(t, ":", 0) == |prefix| - 1
  {
    var lower := AsciiLower(t);
    var n := |prefix| - 1;
    AsciiLowerAt(t);
    forall k | 0 <= k <= n ensures LowerChar(t[k]) == prefix[k] {
      assert lower[..|prefix|][k] == prefix[k];
    }
    forall k | 0 <= k <= n ensures t[k] == ':' <==> prefix[k] == ':' {
      LowerCharColon(t[k]);
    }
    FirstColonAt(t, n);
  }

  /** A non-blank line gives exactly one message at its offset: `user` when its trimmed,
      lower-cased form starts with "user:", `ai` when it otherwise starts with an assistant
      prefix, and otherwise the whole trimmed line as unattributed text. */
  lemma ClassifyKinds(line: String, position: int)
    requires !IsBlank(line)
    ensures var lower := AsciiLower(Trim(line));
      var m := Classify(line, position)[0];
      && m.position == position
      && (m.kind == User <==> StartsWith(lower, "user:"))
      && (m.kind == Ai <==> !StartsWith(lower, "user:") && IsAiLine(lower))
      && (m.kind == Unattributed ==> m.content == Trim(line))
      && (m.kind == User ==> m.content == Trim(Trim(line)[5..]))
  {
  }

  // ---------------------------------------------------------------------------
  // Properties of the segmentation
  // ---------------------------------------------------------------------------

  lemma {:induction false} KeptAppend(a: seq<String>, b: seq<String>)
    ensures Kept(a + b) == Kept(a) + Kept(b)
  {
    if a != [] {
      assert (a + b)[0] == a[0];
      assert (a + b)[1..] == a[1..] + b;
      KeptAppend(a[1..], b);
      var head := if IsBlank(a[0]) then [] else [a[0]];
      AppendAssoc(head, Kept(a[1..]), Kept(b));
    } else {
      assert a + b == b;
    }
  }

  lemma {:induction false} ExtentAppend(a: seq<String>, b: seq<String>)
    ensures Extent(a + b) == Extent(a) + Extent(b)
  {
    if a != [] {
      assert (a + b)[0] == a[0];
      assert (a + b)[1..] == a[1..] + b;
      ExtentAppend(a[1..], b);
    } else {
      assert a + b == b;
    }
  }

  lemma ExtentSnoc(lines: seq<String>, k: nat)
    requires k < |lines|
    ensures Extent(lines[..k + 1]) == Extent(lines[..k]) + |lines[k]| + 1
  {
    assert lines[..k + 1] == lines[..k] + [lines[k]];
    ExtentAppend(lines[..k], [lines[k]]);
    assert [lines[k]][1..] == [];
  }

  /** Dropping blank lines never lengthens the text they take up, and leaves it the same
      exactly when no line was blank. */
  lemma {:induction false} KeptExtent(lines: seq<String>)
    ensures Extent(Kept(lines)) <= Extent(lines)
    ensures Extent(Kept(lines)) == Extent(lines) <==> forall k :: 0 <= k < |lines| ==> !IsBlank(lines[k])
  {
    if lines != [] {
      KeptExtent(lines[1..]);
      if !IsBlank(lines[0]) {
        assert ([lines[0]] + Kept(lines[1..]))[1..] == Kept(lines[1..]);
        if forall k :: 0 <= k < |lines| ==> !IsBlank(lines[k]) {
          assert forall j :: 0 <= j < |lines[1..]| ==> !IsBlank(lines[1..][j]);
        } else {
          var k :| 0 <= k < |lines| && IsBlank(lines[k]);
          assert IsBlank(lines[1..][k - 1]);
        }
      }
    }
  }

  /** The loop over `a + b` is the loop over `a` followed by the loop over `b` started where
      `a` left the offset. */
  lemma {:induction false} ForEachAppend(step: (String, int) -> seq<Message>, a: seq<String>, b: seq<String>, position: int)
    ensures ForEachLine(step, a + b, position)
            == ForEachLine(step, a, position) + ForEachLine(step, b, position + Extent(a))
  {
    if a == [] {
      assert a + b == b;
    } else {
      assert (a + b)[0] == a[0];
      assert (a + b)[1..] == a[1..] + b;
      var next := position + |a[0]| + 1;
      ForEachAppend(step, a[1..], b, next);
      AppendAssoc(step(a[0], position), ForEachLine(step, a[1..], next), ForEachLine(step, b, next + Extent(a[1..])));
    }
  }

  /** `step` gives exactly one message for each of `lines`, wherever it is applied. */
  ghost predicate OnePerLine(step: (String, int) -> seq<Message>, lines: seq<String>) {
    forall j, p :: 0 <= j < |lines| ==> |step(lines[j], p)| == 1
  }

  lemma {:induction false} ForEachLength(step: (String, int) -> seq<Message>, lines: seq<String>, position: int)
    requires OnePerLine(step, lines)
    ensures |ForEachLine(step, lines, position)| == |lines|
  {
    if lines != [] {
      assert OnePerLine(step, lines[1..]) by {
        forall j, p | 0 <= j < |lines| - 1 ensures |step(lines[1..][j], p)| == 1 {
          assert lines[1..][j] == lines[j + 1];
        }
      }
      ForEachLength(step, lines[1..], position + |lines[0]| + 1);
    }
  }

  /** When every line gives one message, the k-th message is line k's, computed at the
      starting offset plus the extent of the lines before it. */
  lemma ForEachAt(step: (String, int) -> seq<Message>, lines: seq<String>, position: int, k: nat)
    requires OnePerLine(step, lines)
    requires k < |lines|
    ensures |ForEachLine(step, lines, position)| == |lines|
    ensures ForEachLine(step, lines, position)[k] == step(lines[k], position + Extent(lines[..k]))[0]
  {
    var q := position + Extent(lines[..k]);
    var rest := [lines[k]] + lines[k + 1..];
    assert lines == lines[..k] + rest;
    ForEachAppend(step, lines[..k], rest, position);
    assert OnePerLine(step, lines[..k]) by {
      forall j, p | 0 <= j < k ensures |step(lines[..k][j], p)| == 1 {
        assert lines[..k][j] == lines[j];
      }
    }
    ForEachLength(step, lines[..k], position);
    ForEachLength(step, lines, position);
    assert rest[1..] == lines[k + 1..];
    assert ForEachLine(step, rest, q)[0] == step(lines[k], q)[0];
  }

  /** The lines the filter keeps each give exactly one message. */
  lemma KeptOnePerLine(lines: seq<String>)
    ensures OnePerLine(Classify, Kept(lines))
  {
    var kept := Kept(lines);
    forall j, p | 0 <= j < |kept| ensures |Classify(kept[j], p)| == 1 {
      assert !IsBlank(kept[j]);
    }
  }

  lemma {:induction false} KeptEmpty(lines: seq<String>)
    ensures Kept(lines) == [] <==> forall j :: 0 <= j < |lines| ==> IsBlank(lines[j])
  {
    if lines != [] {
      KeptEmpty(lines[1..]);
      if IsBlank(lines[0]) && forall j :: 0 <= j < |lines| - 1 ==> IsBlank(lines[1..][j]) {
        forall j | 0 <= j < |lines| ensures IsBlank(lines[j]) {
          if j > 0 { assert lines[j] == lines[1..][j - 1]; }
        }
      }
    }
  }

  /** Every message `step` gives carries the offset it was computed at. */
  ghost predicate AtOffset(step: (String, int) -> seq<Message>) {
    forall line, p, m :: 0 <= m < |step(line, p)| ==> step(line, p)[m].position == p
  }

  lemma ClassifyAtOffset()
    ensures AtOffset(Classify)
  {
    forall line, p, m | 0 <= m < |Classify(line, p)| ensures Classify(line, p)[m].position == p {
    }
  }

  /** With one message per line, each at its offset, the k-th message's offset is the start
      plus the extent of the lines before line k. */
  lemma ForEachOffset(step: (String, int) -> seq<Message>, lines: seq<String>, position: int, k: nat)
    requires OnePerLine(step, lines) && AtOffset(step)
    requires k < |lines|
    ensures |ForEachLine(step, lines, position)| == |lines|
    ensures ForEachLine(step, lines, position)[k].position == position + Extent(lines[..k])
  {
    ForEachAt(step, lines, position, k);
    var q := position + Extent(lines[..k]);
    assert |step(lines[k], q)| == 1;
    assert step(lines[k], q)[0].position == q;
  }

  /** `formatConversation` gives one message per non-blank line, in order: the k-th message is
      the k-th kept line's, at the offset the kept lines before it add up to. */
  lemma SegmentAt(text: String, k: nat)
    requires k < |Kept(SplitOn(text, '\n'))|
    ensures var kept := Kept(SplitOn(text, '\n'));
      && |Segment(text)| == |kept|
      && Segment(text)[k] == Classify(kept[k], Extent(kept[..k]))[0]
  {
    var kept := Kept(SplitOn(text, '\n'));
    KeptOnePerLine(SplitOn(text, '\n'));
    ForEachAt(Classify, kept, 0, k);
  }

  /** One message per kept line: none at all exactly when every line is blank. */
  lemma SegmentLength(text: String)
    ensures |Segment(text)| == |Kept(SplitOn(text, '\n'))|
    ensures Segment(text) == [] <==> forall j :: 0 <= j < |SplitOn(text, '\n')| ==> IsBlank(SplitOn(text, '\n')[j])
  {
    KeptOnePerLine(SplitOn(text, '\n'));
    ForEachLength(Classify, Kept(SplitOn(text, '\n')), 0);
    KeptEmpty(SplitOn(text, '\n'));
  }

  /** The first message is at offset 0, and each next offset is the previous one plus the
      untrimmed length of the previous kept line plus one. */
  lemma SegmentOffsets(text: String, k: nat)
    requires k < |Kept(SplitOn(text, '\n'))|
    ensures |Segment(text)| == |Kept(SplitOn(text, '\n'))|
    ensures k == 0 ==> Segment(text)[k].position == 0
    ensures k + 1 < |Segment(text)| ==>
      Segment(text)[k + 1].position == Segment(text)[k].position + |Kept(SplitOn(text, '\n'))[k]| + 1
  {
    var kept := Kept(SplitOn(text, '\n'));
    KeptOnePerLine(SplitOn(text, '\n'));
    ClassifyAtOffset();
    ForEachOffset(Classify, kept, 0, k);
    if k == 0 {
      assert kept[..0] == [];
    }
    if k + 1 < |kept| {
      ForEachOffset(Classify, kept, 0, k + 1);
      ExtentSnoc(kept, k);
    }
  }

  /** Line `j` of a joined text starts at the extent of the lines before it. */
  lemma {:induction false} JoinedLineStart(lines: seq<String>, c: char, j: nat)
    requires j < |lines|
    ensures OccursAt(Join(lines, c), lines[j], Extent(lines[..j]))
  {
    var s := Join(lines, c);
    if j == 0 {
      assert lines[..0] == [];
      if |lines| > 1 {
        assert s == lines[0] + ([c] + Join(lines[1..], c));
        assert s[..|lines[0]|] == lines[0];
      }
    } else {
      var rest := Join(lines[1..], c);
      JoinedLineStart(lines[1..], c, j - 1);
      assert s == (lines[0] + [c]) + rest;
      assert OccursAt(s, rest, |lines[0]| + 1) by {
        assert s[|lines[0]| + 1..] == rest;
      }
      OccursInside(s, rest, |lines[0]| + 1, lines[j], Extent(lines[1..][..j - 1]));
      assert lines[..j] == [lines[0]] + lines[1..][..j - 1];
      ExtentAppend([lines[0]], lines[1..][..j - 1]);
      assert Extent([lines[0]]) == |lines[0]| + 1 by {
        assert [lines[0]][1..] == [];
      }
    }
  }

  /** A non-blank line `j` is kept as the r-th kept line, r being the number of non-blank lines
      before it. */
  lemma KeptAt(lines: seq<String>, j: nat)
    requires j < |lines| && !IsBlank(lines[j])
    ensures var r := |Kept(lines[..j])|;
      && r < |Kept(lines)|
      && Kept(lines)[r] == lines[j]
      && Kept(lines)[..r] == Kept(lines[..j])
  {
    var before := Kept(lines[..j]);
    var rest := [lines[j]] + lines[j + 1..];
    assert lines == lines[..j] + rest;
    KeptAppend(lines[..j], rest);
    assert rest[1..] == lines[j + 1..];
    assert Kept(rest) == [lines[j]] + Kept(lines[j + 1..]);
    assert Kept(lines) == before + ([lines[j]] + Kept(lines[j + 1..]));
  }

  /** Because blank lines are dropped before the offsets are counted, the message of a
      non-blank line `j` (the r-th message, r being the number of non-blank lines before it)
      carries an offset that never exceeds the line's true start in `text`, and equals it
      exactly when no blank line precedes line `j`. */
  lemma SegmentDrift(text: String, j: nat)
    requires j < |SplitOn(text, '\n')| && !IsBlank(SplitOn(text, '\n')[j])
    ensures var lines := SplitOn(text, '\n');
      var r := |Kept(lines[..j])|;
      && |Segment(text)| == |Kept(lines)|
      && r < |Segment(text)|
      && Segment(text)[r] == Classify(lines[j], Extent(Kept(lines[..j])))[0]
      && OccursAt(text, lines[j], Extent(lines[..j]))
      && Segment(text)[r].position <= Extent(lines[..j])
      && (Segment(text)[r].position == Extent(lines[..j]) <==> forall i :: 0 <= i < j ==> !IsBlank(lines[i]))
  {
    var lines := SplitOn(text, '\n');
    KeptAt(lines, j);
    SegmentAt(text, |Kept(lines[..j])|);
    KeptExtent(lines[..j]);
    assert forall i :: 0 <= i < j ==> lines[..j][i] == lines[i];
    JoinSplit(text, '\n');
    JoinedLineStart(lines, '\n', j);
  }

  /** The segmentation with the offset counted over every line, blank ones included: blank
      lines still give no message, and every offset is its line's start in the text, the
      coordinates the topic spans use. */
  function SegmentInPlace(text: String): seq<Message> {
    ForEachLine(Classify, SplitOn(text, '\n'), 0)
  }

  /** `step` gives one message for a non-blank line and none for a blank one. */
  ghost predicate OnePerKeptLine(step: (String, int) -> seq<Message>) {
    forall line, p :: |step(line, p)| == if IsBlank(line) then 0 else 1
  }

  /** Over any lines, such a step gives one message per non-blank line. */
  lemma {:induction false} ForEachCount(step: (String, int) -> seq<Message>, lines: seq<String>, position: int)
    requires OnePerKeptLine(step)
    ensures |ForEachLine(step, lines, position)| == |Kept(lines)|
  {
    if lines != [] {
      var next := position + |lines[0]| + 1;
      ForEachCount(step, lines[1..], next);
      assert ForEachLine(step, lines, position) == step(lines[0], position) + ForEachLine(step, lines[1..], next);
      if IsBlank(lines[0]) {
        assert |step(lines[0], position)| == 0;
        assert Kept(lines) == Kept(lines[1..]);
      } else {
        assert |step(lines[0], position)| == 1;
        assert Kept(lines) == [lines[0]] + Kept(lines[1..]);
      }
    }
  }

  lemma ClassifyOnePerKeptLine()
    ensures OnePerKeptLine(Classify)
  {
    forall line, p ensures |Classify(line, p)| == if IsBlank(line) then 0 else 1 {
    }
  }

  /** With such a step, the message of a non-blank line `j` comes after one message per
      non-blank line before it, at the extent of all the lines before it. */
  lemma ForEachKeptAt(step: (String, int) -> seq<Message>, lines: seq<String>, j: nat)
    requires OnePerKeptLine(step)
    requires j < |lines| && !IsBlank(lines[j])
    ensures |ForEachLine(step, lines, 0)| == |Kept(lines)|
    ensures |Kept(lines[..j])| < |Kept(lines)|
    ensures ForEachLine(step, lines, 0)[|Kept(lines[..j])|] == step(lines[j], Extent(lines[..j]))[0]
  {
    var e := Extent(lines[..j]);
    var rest := [lines[j]] + lines[j + 1..];
    assert lines == lines[..j] + rest;
    ForEachAppend(step, lines[..j], rest, 0);
    ForEachCount(step, lines[..j], 0);
    ForEachCount(step, lines, 0);
    KeptAt(lines, j);
    assert rest[1..] == lines[j + 1..];
    assert |step(lines[j], e)| == 1;
    assert ForEachLine(step, rest, e)[0] == step(lines[j], e)[0];
  }

  /** Where a line's message is computed changes only its offset. */
  lemma ClassifyMoved(line: String, p: int, q: int)
    requires !IsBlank(line)
    ensures Classify(line, p)[0].kind == Classify(line, q)[0].kind
    ensures Classify(line, p)[0].content == Classify(line, q)[0].content
  {
  }

  /** In the corrected segmentation the message of a non-blank line `j` sits where it sits in
      `formatConversation`'s list, carries the same speaker and content, and its offset is
      the line's true start in `text`. */
  lemma SegmentInPlaceAt(text: String, j: nat)
    requires j < |SplitOn(text, '\n')| && !IsBlank(SplitOn(text, '\n')[j])
    ensures var lines := SplitOn(text, '\n');
      var r := |Kept(lines[..j])|;
      && |SegmentInPlace(text)| == |Segment(text)|
      && r < |SegmentInPlace(text)|
      && SegmentInPlace(text)[r] == Classify(lines[j], Extent(lines[..j]))[0]
      && SegmentInPlace(text)[r].kind == Segment(text)[r].kind
      && SegmentInPlace(text)[r].content == Segment(text)[r].content
      && OccursAt(text, lines[j], SegmentInPlace(text)[r].position)
  {
    var lines := SplitOn(text, '\n');
    ClassifyOnePerKeptLine();
    ForEachKeptAt(Classify, lines, j);
    SegmentDrift(text, j);
    ClassifyMoved(lines[j], Extent(lines[..j]), Extent(Kept(lines[..j])));
  }

  // ---------------------------------------------------------------------------
  // getTopicForPosition
  // ---------------------------------------------------------------------------

  /** A topic's span contains a position, both ends included. */
  predicate Covers(t: Topic, position: int) {
    t.positionStart <= position <= t.positionEnd
  }

  /** `topics.find(...)` at lines 90-92: the first topic in list order whose span contains
      `position`, or nothing when no topic does. */
  function TopicForPosition(topics: seq<Topic>, position: int): (r: Option<Topic>)
    ensures r.None? <==> forall i :: 0 <= i < |topics| ==> !Covers(topics[i], position)
    ensures r.Some? ==> exists i :: 0 <= i < |topics| && topics[i] == r.value && Covers(topics[i], position)
                                    && forall j :: 0 <= j < i ==> !Covers(topics[j], position)
  {
    if topics == [] then None
    else if Covers(topics[0], position) then Some(topics[0])
    else TopicForPosition(topics[1..], position)
  }
}
