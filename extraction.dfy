/** Topic extraction (lib/deepseek-service.ts): the heuristic extractor, the cleaner applied to
    a language-model reply, and the choice between them. The network exchange is abstracted to
    a `Reply` value: either no usable reply, or the record list the reply parsed to. */
module Extraction {
  import opened Text

  /** A titled, summarised character span `[positionStart, positionEnd]` of a conversation. */
  datatype Topic = Topic(title: String, summary: String, positionStart: int, positionEnd: int)

  datatype ExtractionResult = ExtractionResult(topics: seq<Topic>, conversationSummary: String)

  /** One topic record as the model's JSON delivered it. An empty string stands for a missing
      or falsy field; `None` for a position that is not of type number. */
  datatype RawTopic = RawTopic(title: String, summary: String, positionStart: Option<int>, positionEnd: Option<int>)

  /** The parsed reply: `topics` is `None` when the field is missing or not an array. */
  datatype ParsedReply = ParsedReply(topics: Option<seq<RawTopic>>, conversationSummary: String)

  /** What the remote call produced: nothing usable (demo key, network or HTTP failure, empty
      content, unparseable JSON), or a parsed reply. */
  datatype Reply = NoReply | Parsed(reply: ParsedReply)

  const MockSummary: String := "Conversation covering multiple topics with detailed discussion and insights."
  const DefaultTitle: String := "General Discussion"
  const DefaultSummary: String := "Main conversation topics and key points discussed"
  const SectionSummaryFallback: String := "Key discussion points and insights from this section."
  const CleanedSummaryFallback: String := "Conversation analysis completed."
  const MaxTopics: nat := 8
  const MinSectionLength: nat := 100

  // ---------------------------------------------------------------------------
  // Splitting on role tokens: /(?:User:|AI Assistant:|AI:)/i
  // ---------------------------------------------------------------------------

  /** The lower-cased text at index `i` is `token`. */
  predicate MatchesAt(s: String, i: nat, token: String) {
    i + |token| <= |s| && AsciiLower(s[i..i + |token|]) == token
  }

  /** Length of the role token the split pattern matches at `i`, alternatives in pattern order;
      0 when none matches. */
  function TokenAt(s: String, i: nat): (n: nat)
    requires i <= |s|
    ensures n == 0 || (n >= 3 && i + n <= |s|)
  {
    if MatchesAt(s, i, "user:") then 5
    else if MatchesAt(s, i, "ai assistant:") then 13
    else if MatchesAt(s, i, "ai:") then 3
    else 0
  }

  /** A token is found at `i` exactly when one of the three role tokens matches there,
      ignoring case, and what is found is that token. */
  lemma TokenAtMatches(s: String, i: nat)
    requires i <= |s|
    ensures TokenAt(s, i) > 0 <==> MatchesAt(s, i, "user:") || MatchesAt(s, i, "ai assistant:") || MatchesAt(s, i, "ai:")
    ensures TokenAt(s, i) > 0 ==> AsciiLower(s[i..i + TokenAt(s, i)]) in {"user:", "ai assistant:", "ai:"}
  {
  }

  /** The leftmost index at or after `from` where a role token starts, or `|s|`. */
  function FirstToken(s: String, from: nat): (i: nat)
    requires from <= |s|
    ensures from <= i <= |s|
    decreases |s| - from
  {
    if from == |s| || TokenAt(s, from) > 0 then from else FirstToken(s, from + 1)
  }

  /** The token found is the leftmost one: a token starts at the index returned, and none
      starts between `from` and it. */
  lemma {:induction false} FirstTokenLeftmost(s: String, from: nat)
    requires from <= |s|
    ensures var i := FirstToken(s, from);
      && (i < |s| ==> TokenAt(s, i) > 0)
      && forall j :: from <= j < i ==> TokenAt(s, j) == 0
    decreases |s| - from
  {
    if from < |s| && TokenAt(s, from) == 0 {
      FirstTokenLeftmost(s, from + 1);
    }
  }

  /** A piece of the conversation together with the index where it starts. */
  datatype Piece = Piece(text: String, at: nat)

  function End(p: Piece): nat { p.at + |p.text| }

  /** The piece's text really is the conversation's text at its index. */
  predicate Located(s: String, p: Piece) {
    OccursAt(s, p.text, p.at)
  }

  /** The pieces are located in `s` in ascending order without overlap, none starting before
      `from`. */
  predicate Laid(s: String, ps: seq<Piece>, from: int) {
    ps == [] || (Located(s, ps[0]) && from <= ps[0].at && Laid(s, ps[1..], End(ps[0])))
  }

  lemma {:induction false} LaidWeaken(s: String, ps: seq<Piece>, from: int, from': int)
    requires Laid(s, ps, from) && from' <= from
    ensures Laid(s, ps, from')
  {
  }

  lemma LaidCons(s: String, p: Piece, rest: seq<Piece>, from: int)
    requires Located(s, p) && from <= p.at && Laid(s, rest, End(p))
    ensures Laid(s, [p] + rest, from)
  {
    assert ([p] + rest)[1..] == rest;
  }

  /** `s.split(/(?:User:|AI Assistant:|AI:)/i)` applied to `s[from..]`, the role tokens
      dropped; each piece keeps its index in `s`. */
  function RolePieces(s: String, from: nat): (ps: seq<Piece>)
    requires from <= |s|
    ensures |ps| >= 1
    decreases |s| - from
  {
    var i := FirstToken(s, from);
    if i == |s| then [Piece(s[from..], from)]
    else [Piece(s[from..i], from)] + RolePieces(s, i + TokenAt(s, i))
  }

  /** A slice of `s` cut at `a` and `b` goes in front of pieces laid from `next >= b`. */
  lemma SliceLaid(s: String, a: nat, b: nat, next: int, rest: seq<Piece>)
    requires a <= b <= |s| && b <= next && Laid(s, rest, next)
    ensures Laid(s, [Piece(s[a..b], a)] + rest, a)
  {
    LaidWeaken(s, rest, next, b);
    LaidCons(s, Piece(s[a..b], a), rest, a);
  }

  /** The pieces of the split are the conversation's own text, in order and without overlap. */
  lemma {:induction false} RolePiecesLaid(s: String, from: nat)
    requires from <= |s|
    ensures Laid(s, RolePieces(s, from), from)
    decreases |s| - from
  {
    var i := FirstToken(s, from);
    if i < |s| {
      var next := i + TokenAt(s, i);
      assert RolePieces(s, from) == [Piece(s[from..i], from)] + RolePieces(s, next);
      RolePiecesLaid(s, next);
      SliceLaid(s, from, i, next, RolePieces(s, next));
    } else {
      assert RolePieces(s, from) == [Piece(s[from..], from)];
      assert s[from..|s|] == s[from..];
      SliceLaid(s, from, |s|, |s|, []);
      assert [Piece(s[from..], from)] + [] == [Piece(s[from..], from)];
    }
  }

  /** No role token starts inside the piece. */
  predicate TokenFree(s: String, p: Piece) {
    End(p) <= |s| && forall j :: p.at <= j < End(p) ==> TokenAt(s, j) == 0
  }

  /** A role token starts where `p` ends, and `q` starts right after it. */
  predicate TokenBetween(s: String, p: Piece, q: Piece) {
    End(p) <= |s| && TokenAt(s, End(p)) > 0 && q.at == End(p) + TokenAt(s, End(p))
  }

  /** A token-free piece followed by a token, in front of a split, gives a split. */
  lemma SplitCons(s: String, head: Piece, rest: seq<Piece>)
    requires rest != [] && TokenFree(s, head) && TokenBetween(s, head, rest[0])
    requires forall k :: 0 <= k < |rest| ==> TokenFree(s, rest[k])
    requires forall k :: 0 <= k < |rest| - 1 ==> TokenBetween(s, rest[k], rest[k + 1])
    ensures forall k :: 0 <= k < |[head] + rest| ==> TokenFree(s, ([head] + rest)[k])
    ensures forall k :: 0 <= k < |[head] + rest| - 1 ==> TokenBetween(s, ([head] + rest)[k], ([head] + rest)[k + 1])
  {
    var ps := [head] + rest;
    forall k | 0 <= k < |ps| ensures TokenFree(s, ps[k]) {
      if k > 0 {
        assert ps[k] == rest[k - 1];
      }
    }
    forall k | 0 <= k < |ps| - 1 ensures TokenBetween(s, ps[k], ps[k + 1]) {
      if k > 0 {
        assert ps[k] == rest[k - 1] && ps[k + 1] == rest[k];
      }
    }
  }

  /** The split covers `s[from..]`: the first piece starts at `from`, the last ends at the end
      of the text, no token starts inside a piece, and consecutive pieces are separated by
      exactly one token. With `RolePiecesLaid` this fixes every piece. */
  lemma {:induction false} RolePiecesSplit(s: String, from: nat)
    requires from <= |s|
    ensures RolePieces(s, from)[0].at == from
    ensures End(RolePieces(s, from)[|RolePieces(s, from)| - 1]) == |s|
    ensures forall k :: 0 <= k < |RolePieces(s, from)| ==> TokenFree(s, RolePieces(s, from)[k])
    ensures forall k :: 0 <= k < |RolePieces(s, from)| - 1 ==>
              TokenBetween(s, RolePieces(s, from)[k], RolePieces(s, from)[k + 1])
    decreases |s| - from
  {
    var i := FirstToken(s, from);
    FirstTokenLeftmost(s, from);
    if i < |s| {
      var next := i + TokenAt(s, i);
      var head := Piece(s[from..i], from);
      var rest := RolePieces(s, next);
      var ps := RolePieces(s, from);
      assert ps == [head] + rest;
      RolePiecesSplit(s, next);
      assert End(head) == i;
      assert TokenFree(s, head);
      assert TokenBetween(s, head, rest[0]);
      assert ps[|ps| - 1] == rest[|rest| - 1];
      SplitCons(s, head, rest);
    } else {
      var ps := RolePieces(s, from);
      assert ps == [Piece(s[from..], from)];
      assert TokenFree(s, ps[0]);
    }
  }

  /** `.filter((s) => s.trim())`: the pieces that are not blank, in order. */
  function NonBlank(ps: seq<Piece>): (r: seq<Piece>)
    ensures |r| <= |ps|
    ensures forall k :: 0 <= k < |r| ==> !IsBlank(r[k].text)
  {
    if ps == [] then []
    else if IsBlank(ps[0].text) then NonBlank(ps[1..])
    else [ps[0]] + NonBlank(ps[1..])
  }

  /** The filter works piece by piece: it distributes over concatenation. */
  lemma {:induction false} NonBlankAppend(a: seq<Piece>, b: seq<Piece>)
    ensures NonBlank(a + b) == NonBlank(a) + NonBlank(b)
  {
    if a != [] {
      assert (a + b)[0] == a[0] && (a + b)[1..] == a[1..] + b;
      NonBlankAppend(a[1..], b);
      if !IsBlank(a[0].text) {
        AppendAssoc([a[0]], NonBlank(a[1..]), NonBlank(b));
      }
    } else {
      assert a + b == b;
    }
  }

  /** One piece is kept exactly when it is not blank. */
  lemma NonBlankOne(p: Piece)
    ensures NonBlank([p]) == if IsBlank(p.text) then [] else [p]
  {
    assert [p][1..] == [];
  }

  /** Every piece that is not blank survives the filter. */
  lemma {:induction false} NonBlankKeeps(ps: seq<Piece>)
    ensures forall k :: 0 <= k < |ps| && !IsBlank(ps[k].text) ==> ps[k] in NonBlank(ps)
  {
    if ps != [] {
      NonBlankKeeps(ps[1..]);
      forall k | 0 <= k < |ps| && !IsBlank(ps[k].text) ensures ps[k] in NonBlank(ps) {
        if k > 0 {
          assert ps[k] == ps[1..][k - 1];
        }
      }
    }
  }

  /** Dropping blank pieces keeps the layout, and keeps every piece that is not blank. */
  lemma {:induction false} NonBlankLaid(s: String, ps: seq<Piece>, from: int)
    requires Laid(s, ps, from)
    ensures Laid(s, NonBlank(ps), from)
    ensures forall k :: 0 <= k < |ps| && !IsBlank(ps[k].text) ==> ps[k] in NonBlank(ps)
  {
    NonBlankKeeps(ps);
    if ps != [] {
      if IsBlank(ps[0].text) {
        LaidWeaken(s, ps[1..], End(ps[0]), from);
        NonBlankLaid(s, ps[1..], from);
      } else {
        NonBlankLaid(s, ps[1..], End(ps[0]));
        assert NonBlank(ps)[1..] == NonBlank(ps[1..]);
      }
    }
  }

  /** The sections the heuristic extractor walks through (lines 98-99). */
  function Sections(conversation: String): seq<Piece> {
    NonBlank(RolePieces(conversation, 0))
  }

  /** The sections are pieces of the conversation, in order and without overlap. */
  lemma SectionsLaid(conversation: String)
    ensures Laid(conversation, Sections(conversation), 0)
    ensures forall k :: 0 <= k < |RolePieces(conversation, 0)| && !IsBlank(RolePieces(conversation, 0)[k].text) ==>
              RolePieces(conversation, 0)[k] in Sections(conversation)
  {
    RolePiecesLaid(conversation, 0);
    NonBlankLaid(conversation, RolePieces(conversation, 0), 0);
  }

  /** A conversation that is not blank and holds no role token is one section, the whole text. */
  lemma SectionsWithoutTokens(conversation: String)
    requires !IsBlank(conversation)
    requires forall j :: 0 <= j < |conversation| ==> TokenAt(conversation, j) == 0
    ensures Sections(conversation) == [Piece(conversation, 0)]
  {
    FirstTokenLeftmost(conversation, 0);
    assert FirstToken(conversation, 0) == |conversation|;
    assert conversation[0..] == conversation;
    assert RolePieces(conversation, 0) == [Piece(conversation, 0)];
    NonBlankOne(Piece(conversation, 0));
  }

  // ---------------------------------------------------------------------------
  // Titles
  // ---------------------------------------------------------------------------

  const Keywords: seq<String> :=
    ["business", "planning", "market", "research", "technical", "development", "strategy", "analysis"]

  /** The first index `j >= i` in list order whose keyword occurs in `lower`, or `|Keywords|`. */
  function FirstKeyword(lower: String, i: nat): (j: nat)
    requires i <= |Keywords|
    ensures i <= j <= |Keywords|
    ensures j < |Keywords| ==> Contains(lower, Keywords[j])
    ensures forall k :: i <= k < j ==> !Contains(lower, Keywords[k])
    decreases |Keywords| - i
  {
    if i == |Keywords| || Contains(lower, Keywords[i]) then i else FirstKeyword(lower, i + 1)
  }

  /** `w.charAt(0).toUpperCase() + w.slice(1)`. */
  function Capitalize(w: String): String {
    if w == [] then [] else [UpperChar(w[0])] + w[1..]
  }

  /** `generateTopicTitle`: the first keyword in list order found case-insensitively, as
      "<Keyword> Discussion"; else the first three words with "..." when those are longer
      than 3 characters; else "Discussion Topic". */
  function TopicTitle(text: String): (title: String)
    ensures title != []
    ensures forall j :: 0 <= j < |Keywords| && Contains(AsciiLower(text), Keywords[j])
                        && (forall k :: 0 <= k < j ==> !Contains(AsciiLower(text), Keywords[k]))
                        ==> title == Capitalize(Keywords[j]) + " Discussion"
    ensures (forall j :: 0 <= j < |Keywords| ==> !Contains(AsciiLower(text), Keywords[j]))
            ==> title == (if |TakeWords(text, 3)| > 3 then TakeWords(text, 3) + "..." else "Discussion Topic")
  {
    var j := FirstKeyword(AsciiLower(text), 0);
    if j < |Keywords| then Capitalize(Keywords[j]) + " Discussion"
    else
      var words := TakeWords(text, 3);
      if |words| > 3 then words + "..." else "Discussion Topic"
  }

  // ---------------------------------------------------------------------------
  // Summaries
  // ---------------------------------------------------------------------------

  predicate IsTerminator(c: char) { c == '.' || c == '!' || c == '?' }

  predicate NoTerminator(t: String) {
    forall i :: 0 <= i < |t| ==> !IsTerminator(t[i])
  }

  /** `s.split(/[.!?]+/)`: the text between maximal runs of sentence terminators. */
  function Fragments(s: String): (r: seq<String>)
    ensures |r| >= 1
    ensures forall k :: 0 <= k < |r| ==> NoTerminator(r[k])
  {
    if s == [] then [[]]
    else
      var rest := Fragments(s[1..]);
      if IsTerminator(s[0]) then
        (if |s| > 1 && IsTerminator(s[1]) then rest else [[]] + rest)
      else [[s[0]] + rest[0]] + rest[1..]
  }

  /** A non-empty run made of sentence terminators only. */
  predicate IsRun(t: String) {
    t != [] && forall i :: 0 <= i < |t| ==> IsTerminator(t[i])
  }

  /** The maximal runs of terminators in `s`, in order: what the split drops. */
  function Runs(s: String): (r: seq<String>)
    ensures forall k :: 0 <= k < |r| ==> IsRun(r[k])
    ensures s != [] && IsTerminator(s[0]) ==> r != [] && |r[0]| > 0 && r[0][0] == s[0]
  {
    if s == [] then []
    else
      var rest := Runs(s[1..]);
      if IsTerminator(s[0]) then
        (if |s| > 1 && IsTerminator(s[1]) then [[s[0]] + rest[0]] + rest[1..] else [[s[0]]] + rest)
      else rest
  }

  /** `fragments[0] + runs[0] + fragments[1] + ... + fragments[n]`. */
  function Interleave(fragments: seq<String>, runs: seq<String>): String
    requires |fragments| == |runs| + 1
  {
    if runs == [] then fragments[0]
    else fragments[0] + runs[0] + Interleave(fragments[1..], runs[1..])
  }

  /** The first fragment is empty exactly when the text starts with a terminator. */
  lemma {:induction false} FragmentsHead(s: String)
    requires s != []
    ensures Fragments(s)[0] == [] <==> IsTerminator(s[0])
  {
    if IsTerminator(s[0]) && |s| > 1 && IsTerminator(s[1]) {
      FragmentsHead(s[1..]);
    }
  }

  /** One fragment more than there are runs. */
  lemma {:induction false} FragmentsCount(s: String)
    ensures |Fragments(s)| == |Runs(s)| + 1
  {
    if s != [] {
      FragmentsCount(s[1..]);
    }
  }

  /** The fragments with the dropped runs between them give back the text. */
  lemma {:induction false} FragmentsInterleave(s: String)
    ensures |Fragments(s)| == |Runs(s)| + 1
    ensures Interleave(Fragments(s), Runs(s)) == s
  {
    FragmentsCount(s);
    if s != [] {
      var f, r := Fragments(s), Runs(s);
      var f', r' := Fragments(s[1..]), Runs(s[1..]);
      FragmentsInterleave(s[1..]);
      if IsTerminator(s[0]) {
        if |s| > 1 && IsTerminator(s[1]) {
          FragmentsHead(s[1..]);
          InterleaveRunGrows(f', r', s[0]);
        } else {
          assert f[1..] == f' && r[1..] == r';
          assert Interleave(f, r) == [s[0]] + Interleave(f', r');
        }
      } else if r' == [] {
        assert Interleave(f, r) == [s[0]] + Interleave(f', r');
      } else {
        assert f[1..] == f'[1..];
        assert Interleave(f', r') == f'[0] + r'[0] + Interleave(f'[1..], r'[1..]);
        assert Interleave(f, r) == [s[0]] + Interleave(f', r');
      }
      assert s == [s[0]] + s[1..];
    }
  }

  /** Lengthening the first run when the first fragment is empty puts the character in front. */
  lemma {:induction false} InterleaveRunGrows(f: seq<String>, r: seq<String>, c: char)
    requires |f| == |r| + 1 && r != [] && f[0] == []
    ensures Interleave(f, [[c] + r[0]] + r[1..]) == [c] + Interleave(f, r)
  {
    var r2 := [[c] + r[0]] + r[1..];
    var tail := Interleave(f[1..], r[1..]);
    assert r2[0] == [c] + r[0] && r2[1..] == r[1..];
    assert Interleave(f, r2) == [c] + r[0] + tail by {
      assert Interleave(f, r2) == f[0] + r2[0] + Interleave(f[1..], r2[1..]);
    }
    assert Interleave(f, r) == r[0] + tail by {
      assert Interleave(f, r) == f[0] + r[0] + tail;
    }
  }

  /** A fragment between two runs is never empty, so every dropped run is maximal. */
  lemma {:induction false} FragmentsInterior(s: String)
    ensures forall k :: 0 < k < |Fragments(s)| - 1 ==> Fragments(s)[k] != []
  {
    if s != [] {
      var f, f' := Fragments(s), Fragments(s[1..]);
      FragmentsInterior(s[1..]);
      if IsTerminator(s[0]) {
        if !(|s| > 1 && IsTerminator(s[1])) && |s| > 1 {
          FragmentsHead(s[1..]);
          assert f == [[]] + f';
          forall k | 0 < k < |f| - 1 ensures f[k] != [] {
            assert f[k] == f'[k - 1];
          }
        }
      } else {
        assert f == [[s[0]] + f'[0]] + f'[1..];
        forall k | 0 < k < |f| - 1 ensures f[k] != [] {
          assert f[k] == f'[k];
        }
      }
    }
  }

  /** `s.split(/[.!?]+/)` is exact: with the dropped runs of terminators put back between
      them, the fragments give back `s`; no fragment holds a terminator; a fragment between two
      runs is never empty, so each run is maximal; and the first fragment is empty exactly
      when `s` starts with a terminator. */
  lemma FragmentsRuns(s: String)
    ensures var fragments := Fragments(s);
            var runs := Runs(s);
      && |fragments| == |runs| + 1
      && Interleave(fragments, runs) == s
      && (forall k :: 0 < k < |fragments| - 1 ==> fragments[k] != [])
      && (s != [] ==> (fragments[0] == [] <==> IsTerminator(s[0])))
  {
    FragmentsInterleave(s);
    FragmentsInterior(s);
    if s != [] {
      FragmentsHead(s);
    }
  }

  /** A fragment that can serve as a summary: longer than 10 characters once trimmed. */
  predicate IsSentence(fragment: String) {
    |Trim(fragment)| > 10
  }

  /** Index of the first fragment that `IsSentence`, or `|fragments|`. */
  function FirstSentence(fragments: seq<String>, from: nat): (j: nat)
    requires from <= |fragments|
    ensures from <= j <= |fragments|
    ensures j < |fragments| ==> IsSentence(fragments[j])
    ensures forall k :: from <= k < j ==> !IsSentence(fragments[k])
    decreases |fragments| - from
  {
    if from == |fragments| || IsSentence(fragments[from]) then from
    else FirstSentence(fragments, from + 1)
  }

  predicate EndsWithEllipsis(s: String) {
    |s| >= 3 && s[|s| - 3..] == "..."
  }

  /** Trimming keeps a fragment free of terminators. */
  lemma TrimNoTerminator(f: String)
    requires NoTerminator(f)
    ensures NoTerminator(Trim(f))
  {
    var o := TrimOffset(f);
    TrimSpec(f);
    forall i | 0 <= i < |Trim(f)| ensures !IsTerminator(Trim(f)[i]) {
      assert Trim(f)[i] == f[o + i];
    }
  }

  /** `generateTopicSummary`: the first sentence of more than 10 characters, trimmed and cut
      to 120 characters, with "..." appended when it was cut; a fixed sentence when there is
      none. */
  function TopicSummary(text: String): (summary: String)
    ensures 0 < |summary| <= 123
    ensures var fragments := Fragments(text);
            var j := FirstSentence(fragments, 0);
            && (j == |fragments| ==> summary == SectionSummaryFallback)
            && (j < |fragments| && |Trim(fragments[j])| <= 120 ==> summary == Trim(fragments[j]))
            && (j < |fragments| && |Trim(fragments[j])| > 120 ==> summary == Trim(fragments[j])[..120] + "...")
  {
    var fragments := Fragments(text);
    var j := FirstSentence(fragments, 0);
    if j == |fragments| then
      SectionSummaryFallback
    else
      var sentence := Trim(fragments[j]);
      var first := Take(sentence, 120);
      if |first| < |sentence| then first + "..." else first
  }

  lemma NoEllipsisWithoutTerminator(t: String)
    requires NoTerminator(t)
    ensures !EndsWithEllipsis(t)
  {
    if |t| >= 3 {
      assert t[|t| - 3..][2] == t[|t| - 1];
    }
  }

  /** The summary ends in "..." exactly when the first sentence was longer than 120
      characters and had to be cut. */
  lemma SummaryEllipsisIffCut(text: String)
    ensures var fragments := Fragments(text);
            var j := FirstSentence(fragments, 0);
            EndsWithEllipsis(TopicSummary(text)) <==> j < |fragments| && |Trim(fragments[j])| > 120
  {
    var fragments := Fragments(text);
    var j := FirstSentence(fragments, 0);
    var summary := TopicSummary(text);
    if j == |fragments| {
      assert summary == SectionSummaryFallback;
      assert SectionSummaryFallback[|SectionSummaryFallback| - 3..][1] == 'n';
    } else {
      var sentence := Trim(fragments[j]);
      var first := Take(sentence, 120);
      TrimNoTerminator(fragments[j]);
      if |sentence| > 120 {
        assert summary == first + "...";
        assert (first + "...")[|first + "..."| - 3..] == "...";
      } else {
        assert first == sentence;
        assert summary == sentence;
        NoEllipsisWithoutTerminator(sentence);
      }
    }
  }

  /** A heuristic title can be longer than the 50 characters the prompt asks of the model:
      a 48-character word with no keyword becomes a 51-character title. */
  lemma TitleMayExceedFifty()
    ensures |TopicTitle(seq(48, _ => 'x'))| == 51
  {
    var text: String := seq(48, _ => 'x');
    var lower := AsciiLower(text);
    AsciiLowerAt(text);
    assert lower == text;
    forall j | 0 <= j < |Keywords| ensures !Contains(lower, Keywords[j]) {
      assert Keywords[j][0] != 'x';
      NotFoundWithoutFirstChar(lower, Keywords[j], 0);
    }
    assert ' ' !in text;
    assert Count(text, ' ') == 0 by { CountAbsent(text, ' '); }
    TakeWordsIsPrefix(text, 3);
  }

  // ---------------------------------------------------------------------------
  // getMockTopicExtraction
  // ---------------------------------------------------------------------------

  /** A section long enough to become a topic (trimmed length > 100). */
  predicate Qualifies(p: Piece) {
    |Trim(p.text)| > MinSectionLength
  }

  /** The qualifying sections, in order. */
  function Qualifying(sections: seq<Piece>): (q: seq<Piece>)
    ensures |q| <= |sections|
    ensures forall k :: 0 <= k < |q| ==> Qualifies(q[k]) && q[k] in sections
  {
    if sections == [] then []
    else (if Qualifies(sections[0]) then [sections[0]] else []) + Qualifying(sections[1..])
  }

  /** Every qualifying section is among the qualifying ones, so there are none exactly when
      no section qualifies. */
  lemma {:induction false} QualifyingComplete(sections: seq<Piece>)
    ensures forall k :: 0 <= k < |sections| && Qualifies(sections[k]) ==> sections[k] in Qualifying(sections)
    ensures Qualifying(sections) == [] <==> forall k :: 0 <= k < |sections| ==> !Qualifies(sections[k])
  {
    if sections != [] {
      QualifyingComplete(sections[1..]);
      var q := Qualifying(sections);
      assert q == (if Qualifies(sections[0]) then [sections[0]] else []) + Qualifying(sections[1..]);
      forall k | 0 <= k < |sections| && Qualifies(sections[k]) ensures sections[k] in q {
        if k > 0 {
          assert sections[k] == sections[1..][k - 1];
        }
      }
      if q == [] {
        forall k | 0 <= k < |sections| ensures !Qualifies(sections[k]) {
          if k > 0 {
            assert sections[k] == sections[1..][k - 1];
          }
        }
      }
    }
  }

  /** The topic built for a qualifying section whose trimmed text is `trimmed`, searched for
      from `position` (lines 103-117). */
  function SectionTopic(conversation: String, trimmed: String, position: int): Topic {
    var sectionStart := IndexOf(conversation, trimmed, position);
    var sectionEnd := sectionStart + |trimmed|;
    Topic(TopicTitle(TakeWords(trimmed, 20)), TopicSummary(trimmed),
          Max(0, sectionStart), Min(|conversation|, sectionEnd))
  }

  /** Where the next search starts after a qualifying section (line 120). */
  function SectionEnd(conversation: String, trimmed: String, position: int): int {
    IndexOf(conversation, trimmed, position) + |trimmed|
  }

  /** The guard at line 111: title and summary both truthy. */
  predicate HasText(t: Topic) {
    t.title != [] && t.summary != []
  }

  /** The topics the `forEach` at lines 101-122 pushes for `sections`, searching from
      `position`: one per qualifying section, located with a forward-only `indexOf`. */
  function Scan(conversation: String, sections: seq<Piece>, position: int): (topics: seq<Topic>)
    ensures |topics| == |Qualifying(sections)|
    decreases |sections|
  {
    if sections == [] then []
    else
      var trimmed := Trim(sections[0].text);
      if |trimmed| > MinSectionLength then
        var topic := SectionTopic(conversation, trimmed, position);
        (if HasText(topic) then [topic] else [])
        + Scan(conversation, sections[1..], SectionEnd(conversation, trimmed, position))
      else Scan(conversation, sections[1..], position)
  }

  /** The topic used when no section qualifies. */
  function DefaultTopic(conversation: String): Topic {
    Topic(DefaultTitle, DefaultSummary, 0, Min(500, |conversation|))
  }

  /** Lines 125-134: the default topic when nothing was found, then at most 8 topics. */
  function Capped(found: seq<Topic>, conversation: String): (topics: seq<Topic>)
    ensures 1 <= |topics| <= MaxTopics
    ensures found == [] ==> topics == [DefaultTopic(conversation)]
    ensures found != [] ==> topics == found[..Min(MaxTopics, |found|)]
  {
    var topics := if found == [] then [DefaultTopic(conversation)] else found;
    topics[..Min(MaxTopics, |topics|)]
  }

  /** `getMockTopicExtraction`, as a value: between 1 and 8 topics, the default topic exactly
      when no section qualifies, and the fixed conversation summary. */
  function HeuristicExtraction(conversation: String): (r: ExtractionResult)
    ensures 1 <= |r.topics| <= MaxTopics
    ensures r.conversationSummary == MockSummary
    ensures Qualifying(Sections(conversation)) == [] ==> r.topics == [DefaultTopic(conversation)]
    ensures Qualifying(Sections(conversation)) != []
            ==> |r.topics| == Min(|Qualifying(Sections(conversation))|, MaxTopics)
  {
    ExtractionResult(Capped(Scan(conversation, Sections(conversation), 0), conversation), MockSummary)
  }

  /** The topics' spans lie inside a text of `length` characters, each longer than 100
      characters, in ascending order without overlap, none starting before `from`. */
  predicate Spanned(topics: seq<Topic>, from: int, length: int) {
    topics == []
    || (&& from <= topics[0].positionStart
        && topics[0].positionStart + MinSectionLength < topics[0].positionEnd <= length
        && Spanned(topics[1..], topics[0].positionEnd, length))
  }

  lemma {:induction false} SpannedWeaken(topics: seq<Topic>, from: int, from': int, length: int)
    requires Spanned(topics, from, length) && from' <= from
    ensures Spanned(topics, from', length)
  {
  }

  /** The span of every scanned topic is where `indexOf` found its trimmed section. */
  lemma {:induction false} ScanSpans(conversation: String, sections: seq<Piece>, position: int)
    requires 0 <= position && Laid(conversation, sections, position)
    ensures Spanned(Scan(conversation, sections, position), position, |conversation|)
    decreases |sections|
  {
    if sections != [] {
      var p := sections[0];
      var trimmed := Trim(p.text);
      var tail := sections[1..];
      if |trimmed| > MinSectionLength {
        var sectionStart, sectionEnd := FoundInPlace(conversation, p, position);
        LaidWeaken(conversation, tail, End(p), sectionEnd);
        ScanSpans(conversation, tail, sectionEnd);
        var topic := SectionTopic(conversation, trimmed, position);
        var rest := Scan(conversation, tail, sectionEnd);
        assert Scan(conversation, sections, position) == (if HasText(topic) then [topic] else []) + rest;
        if HasText(topic) {
          assert ([topic] + rest)[1..] == rest;
        } else {
          SpannedWeaken(rest, sectionEnd, position, |conversation|);
        }
      } else {
        LaidWeaken(conversation, tail, End(p), position);
        ScanSpans(conversation, tail, position);
      }
    }
  }

  /** The recursive layout read as pairwise facts. */
  lemma {:induction false} SpannedPairwise(topics: seq<Topic>, from: int, length: int)
    requires Spanned(topics, from, length)
    ensures forall k :: 0 <= k < |topics| ==>
              from <= topics[k].positionStart && topics[k].positionStart + MinSectionLength < topics[k].positionEnd <= length
    ensures forall k, k' :: 0 <= k < k' < |topics| ==> topics[k].positionEnd <= topics[k'].positionStart
  {
    if topics != [] {
      SpannedPairwise(topics[1..], topics[0].positionEnd, length);
      forall k | 0 < k < |topics| ensures topics[0].positionEnd <= topics[k].positionStart {
        assert topics[k] == topics[1..][k - 1];
      }
    }
  }

  lemma {:induction false} SpannedPrefix(topics: seq<Topic>, from: int, length: int, n: nat)
    requires Spanned(topics, from, length) && n <= |topics|
    ensures Spanned(topics[..n], from, length)
  {
    if n > 0 {
      assert topics[..n][1..] == topics[1..][..n - 1];
      SpannedPrefix(topics[1..], topics[0].positionEnd, length, n - 1);
    }
  }

  /** A located piece is found by the forward search from any position at or before it: the
      hit starts at or after the search position and ends no later than the piece does. */
  lemma FoundInPlace(conversation: String, p: Piece, position: int)
      returns (sectionStart: int, sectionEnd: int)
    requires 0 <= position <= p.at && Located(conversation, p)
    ensures sectionStart == IndexOf(conversation, Trim(p.text), position)
    ensures sectionEnd == SectionEnd(conversation, Trim(p.text), position)
    ensures position <= sectionStart && sectionEnd <= End(p) && sectionEnd == sectionStart + |Trim(p.text)|
    ensures var t := SectionTopic(conversation, Trim(p.text), position);
            t.positionStart == sectionStart && t.positionEnd == sectionEnd
  {
    var trimmed := Trim(p.text);
    var o := TrimOffset(p.text);
    var a := p.at + o;
    TrimOccurs(p.text);
    OccursInside(conversation, p.text, p.at, trimmed, o);
    sectionStart := IndexOf(conversation, trimmed, position);
    assert sectionStart != -1 && position <= sectionStart <= a;
    sectionEnd := sectionStart + |trimmed|;
  }

  /** The topic a section whose trimmed text is `trimmed` gives: a title from its first 20
      words, a summary from its text, and a span that is exactly where that text stands in the
      conversation. */
  predicate Describes(conversation: String, t: Topic, trimmed: String) {
    && t.title == TopicTitle(TakeWords(trimmed, 20))
    && t.summary == TopicSummary(trimmed)
    && 0 <= t.positionStart <= t.positionEnd <= |conversation|
    && conversation[t.positionStart..t.positionEnd] == trimmed
  }

  /** A qualifying located section searched for from at or before it gives a topic that
      describes it, and the search moves on to where it ends. */
  lemma SectionDescribed(conversation: String, p: Piece, position: int) returns (sectionEnd: int)
    requires 0 <= position <= p.at && Located(conversation, p)
    ensures sectionEnd == SectionEnd(conversation, Trim(p.text), position) && sectionEnd <= End(p)
    ensures HasText(SectionTopic(conversation, Trim(p.text), position))
    ensures Describes(conversation, SectionTopic(conversation, Trim(p.text), position), Trim(p.text))
  {
    var sectionStart;
    sectionStart, sectionEnd := FoundInPlace(conversation, p, position);
    assert OccursAt(conversation, Trim(p.text), sectionStart);
  }

  /** A relation that holds between two lists index by index still does after a related pair
      is put in front of them. */
  lemma PairwiseCons<A, B>(related: (A, B) -> bool, a: A, xs: seq<A>, b: B, ys: seq<B>)
    requires related(a, b) && |xs| == |ys|
    requires forall k :: 0 <= k < |ys| ==> related(xs[k], ys[k])
    ensures |[a] + xs| == |[b] + ys|
    ensures forall k :: 0 <= k < |[b] + ys| ==> related(([a] + xs)[k], ([b] + ys)[k])
  {
    forall k | 0 <= k < |[b] + ys| ensures related(([a] + xs)[k], ([b] + ys)[k]) {
      if k > 0 {
        assert ([a] + xs)[k] == xs[k - 1] && ([b] + ys)[k] == ys[k - 1];
      }
    }
  }

  /** A topic describing a section, put in front of topics describing sections index by
      index, keeps them describing index by index. */
  lemma DescribesCons(conversation: String, topic: Topic, rest: seq<Topic>, p: Piece, q: seq<Piece>)
    requires Describes(conversation, topic, Trim(p.text)) && |rest| == |q|
    requires forall k :: 0 <= k < |q| ==> Describes(conversation, rest[k], Trim(q[k].text))
    ensures |[topic] + rest| == |[p] + q|
    ensures forall k :: 0 <= k < |[p] + q| ==> Describes(conversation, ([topic] + rest)[k], Trim(([p] + q)[k].text))
  {
    PairwiseCons((t: Topic, piece: Piece) => Describes(conversation, t, Trim(piece.text)), topic, rest, p, q);
  }

  /** The k-th scanned topic comes from the k-th qualifying section: it carries that
      section's title and summary, and its span is that section's trimmed text. */
  lemma {:induction false} ScanTopics(conversation: String, sections: seq<Piece>, position: int)
    requires 0 <= position && Laid(conversation, sections, position)
    ensures |Scan(conversation, sections, position)| == |Qualifying(sections)|
    ensures forall k :: 0 <= k < |Qualifying(sections)| ==>
              Describes(conversation, Scan(conversation, sections, position)[k], Trim(Qualifying(sections)[k].text))
    decreases |sections|
  {
    if sections != [] {
      var p := sections[0];
      var trimmed := Trim(p.text);
      var tail := sections[1..];
      if |trimmed| > MinSectionLength {
        var sectionEnd := SectionDescribed(conversation, p, position);
        LaidWeaken(conversation, tail, End(p), sectionEnd);
        ScanTopics(conversation, tail, sectionEnd);
        var topic := SectionTopic(conversation, trimmed, position);
        var rest := Scan(conversation, tail, sectionEnd);
        var q := Qualifying(tail);
        assert Scan(conversation, sections, position) == [topic] + rest;
        assert Qualifying(sections) == [p] + q;
        DescribesCons(conversation, topic, rest, p, q);
      } else {
        LaidWeaken(conversation, tail, End(p), position);
        ScanTopics(conversation, tail, position);
        assert Qualifying(sections) == Qualifying(tail);
      }
    }
  }

  /** When some section qualifies, the heuristic topics are the first (at most 8) qualifying
      sections' topics, in order. */
  lemma HeuristicTopics(conversation: String)
    ensures var q := Qualifying(Sections(conversation));
            var topics := HeuristicExtraction(conversation).topics;
            q != [] ==> forall k :: 0 <= k < |topics| ==> Describes(conversation, topics[k], Trim(q[k].text))
  {
    SectionsLaid(conversation);
    ScanTopics(conversation, Sections(conversation), 0);
  }

  /** Every heuristic topic satisfies 0 <= start <= end <= |conversation|, and successive
      topics have ascending, non-overlapping spans. */
  lemma HeuristicSpans(conversation: String)
    ensures var topics := HeuristicExtraction(conversation).topics;
      && (forall k :: 0 <= k < |topics| ==>
            0 <= topics[k].positionStart <= topics[k].positionEnd <= |conversation|)
      && (forall k, k' :: 0 <= k < k' < |topics| ==> topics[k].positionEnd <= topics[k'].positionStart)
  {
    var sections := Sections(conversation);
    SectionsLaid(conversation);
    ScanSpans(conversation, sections, 0);
    CappedSpans(Scan(conversation, sections, 0), conversation);
  }

  lemma CappedSpans(found: seq<Topic>, conversation: String)
    requires Spanned(found, 0, |conversation|)
    ensures var topics := Capped(found, conversation);
      && (forall k :: 0 <= k < |topics| ==>
            0 <= topics[k].positionStart <= topics[k].positionEnd <= |conversation|)
      && (forall k, k' :: 0 <= k < k' < |topics| ==> topics[k].positionEnd <= topics[k'].positionStart)
  {
    if found != [] {
      SpannedPrefix(found, 0, |conversation|, Min(MaxTopics, |found|));
      SpannedPairwise(Capped(found, conversation), 0, |conversation|);
    }
  }

  /** One step of the scan: the section at `i` contributes its topic, if any, ahead of what
      the sections after it contribute. */
  lemma ScanStep(conversation: String, sections: seq<Piece>, i: nat, position: int)
    requires i < |sections|
    ensures var trimmed := Trim(sections[i].text);
            var topic := SectionTopic(conversation, trimmed, position);
            Scan(conversation, sections[i..], position)
            == if |trimmed| > MinSectionLength
               then (if HasText(topic) then [topic] else []) + Scan(conversation, sections[i + 1..], SectionEnd(conversation, trimmed, position))
               else Scan(conversation, sections[i + 1..], position)
  {
    assert sections[i..][1..] == sections[i + 1..];
  }

  /** Lines 103-109: locate a qualifying section's trimmed text from `currentPosition` on and
      build its topic; also returns where the section ends. */
  method LocateSection(conversation: String, trimmed: String, currentPosition: int)
      returns (topic: Topic, sectionEnd: int)
    ensures topic == SectionTopic(conversation, trimmed, currentPosition)
    ensures sectionEnd == SectionEnd(conversation, trimmed, currentPosition)
  {
    var sectionStart := IndexOf(conversation, trimmed, currentPosition);
    sectionEnd := sectionStart + |trimmed|;
    var words := TakeWords(trimmed, 20);
    var title := TopicTitle(words);
    var summary := TopicSummary(trimmed);
    topic := Topic(title, summary, Max(0, sectionStart), Min(|conversation|, sectionEnd));
  }

  /** The callback at lines 102-121 for section `i`: when its trimmed text is longer than
      100 characters, locate it from `currentPosition` on, push its topic and move the search
      past it. What was pushed plus what the later sections give is what this and the later
      sections give from the old position. */
  method VisitSection(conversation: String, sections: seq<Piece>, i: nat, topics: seq<Topic>, currentPosition: int)
      returns (topics': seq<Topic>, currentPosition': int)
    requires i < |sections|
    ensures topics' + Scan(conversation, sections[i + 1..], currentPosition')
            == topics + Scan(conversation, sections[i..], currentPosition)
  {
    ScanStep(conversation, sections, i, currentPosition);
    topics', currentPosition' := topics, currentPosition;
    var trimmed := Trim(sections[i].text);
    if |trimmed| > MinSectionLength {
      var topic, sectionEnd := LocateSection(conversation, trimmed, currentPosition);
      if topic.title != [] && topic.summary != [] {
        AppendAssoc(topics, [topic], Scan(conversation, sections[i + 1..], sectionEnd));
        topics' := topics' + [topic];
      }
      currentPosition' := sectionEnd;
    }
  }

  /** The `forEach` at lines 101-122: walks the sections with a mutable search position,
      pushing a topic per qualifying section. */
  method CollectTopics(conversation: String, sections: seq<Piece>) returns (topics: seq<Topic>)
    ensures topics == Scan(conversation, sections, 0)
  {
    topics := [];
    var currentPosition := 0;
    for i := 0 to |sections|
      invariant topics + Scan(conversation, sections[i..], currentPosition) == Scan(conversation, sections, 0)
    {
      topics, currentPosition := VisitSection(conversation, sections, i, topics, currentPosition);
    }
    assert sections[|sections|..] == [];
  }

  /** Lines 125-134: the default topic when nothing was collected, then the first 8. */
  method CapTopics(conversation: String, found: seq<Topic>) returns (topics: seq<Topic>)
    ensures topics == Capped(found, conversation)
  {
    topics := found;
    if |topics| == 0 {
      topics := topics + [DefaultTopic(conversation)];
    }
    topics := topics[..Min(MaxTopics, |topics|)];
  }

  /** `getMockTopicExtraction` (lines 92-138): the topics of the qualifying sections, the
      default topic when there are none, at most 8, and the fixed conversation summary. */
  method MockTopicExtraction(conversation: String) returns (r: ExtractionResult)
    ensures r == HeuristicExtraction(conversation)
  {
    var sections := Sections(conversation);
    var found := CollectTopics(conversation, sections);
    var topics := CapTopics(conversation, found);
    r := ExtractionResult(topics, MockSummary);
  }

  // ---------------------------------------------------------------------------
  // validateAndCleanResult
  // ---------------------------------------------------------------------------

  /** The filter at lines 170-175: truthy title and summary, numeric positions. */
  predicate Usable(c: RawTopic) {
    c.title != [] && c.summary != [] && c.positionStart.Some? && c.positionEnd.Some?
  }

  /** A topic as the cleaner leaves it. */
  predicate Cleaned(t: Topic, length: nat) {
    0 < |t.title| <= 50 && 0 < |t.summary| <= 150 && 0 <= t.positionStart && t.positionEnd <= length
  }

  /** Lines 176-181: truncate title and summary, clamp start below at 0 and end above at the
      conversation length. */
  function CleanTopic(c: RawTopic, length: nat): (t: Topic)
    requires Usable(c)
    ensures Cleaned(t, length)
    ensures |t.title| == Min(50, |c.title|) && t.title == c.title[..|t.title|]
    ensures |t.summary| == Min(150, |c.summary|) && t.summary == c.summary[..|t.summary|]
    ensures t.positionStart == (if c.positionStart.value < 0 then 0 else c.positionStart.value)
    ensures t.positionEnd == (if c.positionEnd.value > length then length else c.positionEnd.value)
  {
    Topic(Take(c.title, 50), Take(c.summary, 150), Max(0, c.positionStart.value), Min(length, c.positionEnd.value))
  }

  /** The cleaner clamps each end on its own side only: a reversed span stays reversed, and a
      start beyond the conversation stays beyond it. */
  lemma CleanedSpanUnordered(length: nat)
    ensures var t := CleanTopic(RawTopic("t", "s", Some(10), Some(5)), length);
      t.positionStart == 10 && t.positionEnd <= 5 && t.positionStart > t.positionEnd
    ensures CleanTopic(RawTopic("t", "s", Some(length + 1), Some(length + 2)), length).positionStart > length
  {
  }

  /** The usable candidates, cleaned, in input order; no cap on their number. */
  function CleanTopics(candidates: seq<RawTopic>, length: nat): (topics: seq<Topic>)
    ensures |topics| <= |candidates|
    ensures forall k :: 0 <= k < |topics| ==> Cleaned(topics[k], length)
    ensures topics == [] <==> forall k :: 0 <= k < |candidates| ==> !Usable(candidates[k])
    ensures (forall k :: 0 <= k < |candidates| ==> Usable(candidates[k])) ==> |topics| == |candidates|
  {
    if candidates == [] then []
    else
      (if Usable(candidates[0]) then [CleanTopic(candidates[0], length)] else [])
      + CleanTopics(candidates[1..], length)
  }

  /** Cleaning works candidate by candidate: cleaning a concatenation concatenates the
      cleaned parts, so the kept topics stay in input order. */
  lemma {:induction false} CleanTopicsAppend(a: seq<RawTopic>, b: seq<RawTopic>, length: nat)
    ensures CleanTopics(a + b, length) == CleanTopics(a, length) + CleanTopics(b, length)
  {
    if a != [] {
      assert (a + b)[0] == a[0];
      assert (a + b)[1..] == a[1..] + b;
      CleanTopicsAppend(a[1..], b, length);
      var head := if Usable(a[0]) then [CleanTopic(a[0], length)] else [];
      assert CleanTopics(a + b, length) == head + CleanTopics(a[1..] + b, length);
      assert CleanTopics(a, length) == head + CleanTopics(a[1..], length);
      AppendAssoc(head, CleanTopics(a[1..], length), CleanTopics(b, length));
    } else {
      assert a + b == b;
    }
  }

  /** A topic turned back into a reply record. */
  function ToRaw(t: Topic): RawTopic {
    RawTopic(t.title, t.summary, Some(t.positionStart), Some(t.positionEnd))
  }

  function AsRaw(topics: seq<Topic>): (r: seq<RawTopic>)
    ensures |r| == |topics|
  {
    if topics == [] then [] else [ToRaw(topics[0])] + AsRaw(topics[1..])
  }

  /** A topic with non-empty texts and in-range positions, as every cleaned topic is. */
  predicate Recleanable(t: Topic, length: nat) {
    t.title != [] && t.summary != [] && 0 <= t.positionStart && t.positionEnd <= length
  }

  /** A topic whose texts the cleaner would not cut. */
  predicate WithinLimits(t: Topic) {
    |t.title| <= 50 && |t.summary| <= 150
  }

  /** Re-cleaning such topics gives them back unchanged exactly when no title exceeds 50 and
      no summary exceeds 150 characters. */
  lemma {:induction false} RecleanIdentity(topics: seq<Topic>, length: nat)
    requires forall k :: 0 <= k < |topics| ==> Recleanable(topics[k], length)
    ensures CleanTopics(AsRaw(topics), length) == topics <==> forall k :: 0 <= k < |topics| ==> WithinLimits(topics[k])
  {
    if topics != [] {
      var tail := topics[1..];
      assert forall k :: 0 <= k < |tail| ==> tail[k] == topics[k + 1];
      RecleanIdentity(tail, length);
      var raw := AsRaw(topics);
      assert raw == [ToRaw(topics[0])] + AsRaw(tail);
      assert raw[1..] == AsRaw(tail);
      var head := CleanTopic(ToRaw(topics[0]), length);
      var rest := CleanTopics(AsRaw(tail), length);
      assert CleanTopics(raw, length) == [head] + rest;
      RecleanOne(topics[0], length);
      assert ([head] + rest == topics) <==> (head == topics[0] && rest == tail) by {
        assert topics == [topics[0]] + tail;
        if [head] + rest == topics {
          assert ([head] + rest)[0] == head;
          assert ([head] + rest)[1..] == rest;
        }
      }
      assert (forall k :: 0 <= k < |topics| ==> WithinLimits(topics[k]))
             <==> WithinLimits(topics[0]) && forall k :: 0 <= k < |tail| ==> WithinLimits(tail[k]) by {
        if WithinLimits(topics[0]) && forall k :: 0 <= k < |tail| ==> WithinLimits(tail[k]) {
          forall k | 0 <= k < |topics| ensures WithinLimits(topics[k]) {
            if k > 0 { assert topics[k] == tail[k - 1]; }
          }
        }
      }
    }
  }

  /** One topic comes back from cleaning unchanged exactly when its texts are within the
      limits. */
  lemma RecleanOne(t: Topic, length: nat)
    requires Recleanable(t, length)
    ensures CleanTopic(ToRaw(t), length) == t <==> WithinLimits(t)
  {
    var c := CleanTopic(ToRaw(t), length);
    if |t.title| > 50 {
      assert |c.title| == 50;
    } else if |t.summary| > 150 {
      assert |c.summary| == 150;
    }
  }

  /** Cleaning an already cleaned list changes nothing. */
  lemma CleanTopicsIdempotent(candidates: seq<RawTopic>, length: nat)
    ensures CleanTopics(AsRaw(CleanTopics(candidates, length)), length) == CleanTopics(candidates, length)
  {
    RecleanIdentity(CleanTopics(candidates, length), length);
  }

  function CleanedCandidates(reply: ParsedReply, length: nat): seq<Topic> {
    match reply.topics
    case None => []
    case Some(candidates) => CleanTopics(candidates, length)
  }

  /** `validateAndCleanResult`, as a value: the cleaned candidates, or the whole heuristic
      topic list when none survives; the reply's summary, or a fixed one. */
  function CleanedResult(reply: ParsedReply, conversation: String): (r: ExtractionResult)
    ensures |r.topics| >= 1 && r.conversationSummary != []
    ensures CleanedCandidates(reply, |conversation|) != [] ==> r.topics == CleanedCandidates(reply, |conversation|)
    ensures CleanedCandidates(reply, |conversation|) == [] ==> r.topics == HeuristicExtraction(conversation).topics
  {
    var cleaned := CleanedCandidates(reply, |conversation|);
    ExtractionResult(
      if cleaned != [] then cleaned else HeuristicExtraction(conversation).topics,
      if reply.conversationSummary != [] then reply.conversationSummary else CleanedSummaryFallback)
  }

  /** When the reply has no topic list, or none of its candidates is usable, the topics are
      the whole heuristic list; otherwise they are exactly the usable candidates, cleaned, in
      input order. The summary is
      the reply's own unless that is empty. */
  lemma CleanedFallback(reply: ParsedReply, conversation: String)
    ensures var r := CleanedResult(reply, conversation);
      && ((reply.topics.None? || forall k :: 0 <= k < |reply.topics.value| ==> !Usable(reply.topics.value[k]))
            ==> r.topics == HeuristicExtraction(conversation).topics)
      && ((reply.topics.Some? && exists k :: 0 <= k < |reply.topics.value| && Usable(reply.topics.value[k]))
            ==> r.topics == CleanTopics(reply.topics.value, |conversation|)
                && forall k :: 0 <= k < |r.topics| ==> Cleaned(r.topics[k], |conversation|))
      && (reply.conversationSummary != [] ==> r.conversationSummary == reply.conversationSummary)
      && (reply.conversationSummary == [] ==> r.conversationSummary == CleanedSummaryFallback)
  {
  }

  /** A result the cleaner built from surviving candidates, fed back to it, comes out unchanged. */
  lemma CleanedResultIdempotent(reply: ParsedReply, conversation: String)
    requires CleanedCandidates(reply, |conversation|) != []
    ensures var r := CleanedResult(reply, conversation);
            CleanedResult(ParsedReply(Some(AsRaw(r.topics)), r.conversationSummary), conversation) == r
  {
    var r := CleanedResult(reply, conversation);
    CleanTopicsIdempotent(reply.topics.value, |conversation|);
    assert AsRaw(r.topics) != [];
  }

  /** One more candidate adds its cleaned form at the end when it is usable. */
  lemma CleanTopicsSnoc(candidates: seq<RawTopic>, c: RawTopic, length: nat)
    ensures CleanTopics(candidates + [c], length)
            == CleanTopics(candidates, length) + (if Usable(c) then [CleanTopic(c, length)] else [])
  {
    CleanTopicsAppend(candidates, [c], length);
    assert [c][1..] == [];
    assert CleanTopics([c], length) == (if Usable(c) then [CleanTopic(c, length)] else []) + CleanTopics([], length);
  }

  /** Lines 168-183: keep the usable candidates, cleaned, in input order. */
  method CleanCandidates(candidates: seq<RawTopic>, length: nat) returns (topics: seq<Topic>)
    ensures topics == CleanTopics(candidates, length)
  {
    topics := [];
    for i := 0 to |candidates|
      invariant topics == CleanTopics(candidates[..i], length)
    {
      assert candidates[..i + 1] == candidates[..i] + [candidates[i]];
      CleanTopicsSnoc(candidates[..i], candidates[i], length);
      var topic := candidates[i];
      if Usable(topic) {
        topics := topics + [CleanTopic(topic, length)];
      }
    }
    assert candidates[..|candidates|] == candidates;
  }

  /** `validateAndCleanResult` (lines 164-190). */
  method ValidateAndCleanResult(result: ParsedReply, conversation: String) returns (r: ExtractionResult)
    ensures r == CleanedResult(result, conversation)
  {
    var topics: seq<Topic> := [];
    if result.topics.Some? {
      topics := CleanCandidates(result.topics.value, |conversation|);
    }
    if |topics| == 0 {
      var mock := MockTopicExtraction(conversation);
      topics := mock.topics;
    }
    var summary := if result.conversationSummary != [] then result.conversationSummary else CleanedSummaryFallback;
    r := ExtractionResult(topics, summary);
  }

  // ---------------------------------------------------------------------------
  // extractTopics
  // ---------------------------------------------------------------------------

  /** `extractTopics` (lines 18-90) with the remote exchange given as `reply`: no usable reply
      falls back to the heuristic result, a parsed one is cleaned. Never an empty topic list. */
  function ExtractTopics(conversation: String, reply: Reply): (r: ExtractionResult)
    ensures |r.topics| >= 1
    ensures reply.NoReply? ==> r == HeuristicExtraction(conversation)
    ensures reply.Parsed? ==> r == CleanedResult(reply.reply, conversation)
    ensures reply.Parsed? && CleanedCandidates(reply.reply, |conversation|) != [] ==>
              r.topics == CleanedCandidates(reply.reply, |conversation|)
    ensures reply.Parsed? && CleanedCandidates(reply.reply, |conversation|) == [] ==>
              r.topics == HeuristicExtraction(conversation).topics
    ensures reply.Parsed? ==> r.conversationSummary != []
  {
    match reply
    case NoReply => HeuristicExtraction(conversation)
    case Parsed(parsed) => CleanedResult(parsed, conversation)
  }
}
