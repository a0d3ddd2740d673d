/** String helpers with the meaning JavaScript's String methods give them.
    A string is a sequence of UTF-16 code units, idealised here as `seq<char>`. */
module Text {

  type String = seq<char>

  /** A value that may be missing (`undefined`, `null` or a failed lookup). */
  datatype Option<T> = None | Some(value: T)

  function Min(a: int, b: int): int { if a <= b then a else b }
  function Max(a: int, b: int): int { if a >= b then a else b }

  /** The characters `String.prototype.trim` removes: ECMAScript WhiteSpace and LineTerminator. */
  predicate IsWhitespace(c: char) {
    || c == ' ' || c == '\t' || c == '\n' || c == '\r'
    || c == '\U{000B}' || c == '\U{000C}' || c == '\U{00A0}' || c == '\U{1680}'
    || ('\U{2000}' <= c <= '\U{200A}')
    || c == '\U{2028}' || c == '\U{2029}' || c == '\U{202F}' || c == '\U{205F}'
    || c == '\U{3000}' || c == '\U{FEFF}'
  }

  /** `s.trimStart()`: `s` without its leading whitespace. */
  function TrimStart(s: String): (r: String)
    ensures |r| <= |s|
  {
    if s != [] && IsWhitespace(s[0]) then TrimStart(s[1..]) else s
  }

  /** What `trimStart` leaves is a suffix that does not start with whitespace, and what it
      drops is whitespace. */
  lemma {:induction false} TrimStartSuffix(s: String)
    ensures var r := TrimStart(s);
      && r == s[|s| - |r|..]
      && (r == [] || !IsWhitespace(r[0]))
      && forall i :: 0 <= i < |s| - |r| ==> IsWhitespace(s[i])
  {
    if s != [] && IsWhitespace(s[0]) {
      TrimStartSuffix(s[1..]);
    }
  }

  /** `s.trimEnd()`: `s` without its trailing whitespace. */
  function TrimEnd(s: String): (r: String)
    ensures |r| <= |s|
  {
    if s != [] && IsWhitespace(s[|s| - 1]) then TrimEnd(s[..|s| - 1]) else s
  }

  /** What `trimEnd` leaves is a prefix that does not end with whitespace, and what it drops
      is whitespace. */
  lemma {:induction false} TrimEndPrefix(s: String)
    ensures var r := TrimEnd(s);
      && r == s[..|r|]
      && (r == [] || !IsWhitespace(r[|r| - 1]))
      && forall i :: |r| <= i < |s| ==> IsWhitespace(s[i])
  {
    if s != [] && IsWhitespace(s[|s| - 1]) {
      TrimEndPrefix(s[..|s| - 1]);
    }
  }

  /** Number of leading whitespace characters, i.e. where `s.trim()` starts in `s`. */
  function TrimOffset(s: String): (k: nat)
    ensures k <= |s|
  {
    |s| - |TrimStart(s)|
  }

  /** `s.trim()`. */
  function Trim(s: String): (r: String)
    ensures TrimOffset(s) + |r| <= |s|
  {
    TrimEnd(TrimStart(s))
  }

  /** `s.trim()` is the contiguous part of `s` at `TrimOffset(s)` that neither starts nor ends
      with whitespace, and what it removed is whitespace. */
  lemma TrimSpec(s: String)
    ensures var r := Trim(s);
      && r == s[TrimOffset(s)..TrimOffset(s) + |r|]
      && (r == [] || (!IsWhitespace(r[0]) && !IsWhitespace(r[|r| - 1])))
      && (forall i :: 0 <= i < TrimOffset(s) ==> IsWhitespace(s[i]))
      && (forall i :: TrimOffset(s) + |r| <= i < |s| ==> IsWhitespace(s[i]))
  {
    var t := TrimStart(s);
    var r := TrimEnd(t);
    TrimStartSuffix(s);
    TrimEndPrefix(t);
    forall i | TrimOffset(s) + |r| <= i < |s| ensures IsWhitespace(s[i]) {
      assert s[i] == t[i - TrimOffset(s)];
    }
  }

  /** `s.trim()` is empty exactly when every character of `s` is whitespace (JS: `!s.trim()`). */
  predicate IsBlank(s: String) {
    Trim(s) == []
  }

  lemma BlankIffAllWhitespace(s: String)
    ensures IsBlank(s) <==> forall i :: 0 <= i < |s| ==> IsWhitespace(s[i])
  {
    TrimSpec(s);
    if !IsBlank(s) {
      assert !IsWhitespace(s[TrimOffset(s)]);
    }
  }

  /** ASCII case mapping; the model does not apply Unicode case folding. */
  function LowerChar(c: char): char {
    if 'A' <= c <= 'Z' then (c as int + 32) as char else c
  }

  function UpperChar(c: char): char {
    if 'a' <= c <= 'z' then (c as int - 32) as char else c
  }

  /** `s.toLowerCase()`, restricted to ASCII letters. */
  function AsciiLower(s: String): (r: String)
    ensures |r| == |s|
  {
    if s == [] then [] else [LowerChar(s[0])] + AsciiLower(s[1..])
  }

  /** Lower-casing works character by character. */
  lemma {:induction false} AsciiLowerAt(s: String)
    ensures forall i :: 0 <= i < |s| ==> AsciiLower(s)[i] == LowerChar(s[i])
  {
    if s != [] {
      AsciiLowerAt(s[1..]);
    }
  }

  predicate StartsWith(s: String, prefix: String) {
    |prefix| <= |s| && s[..|prefix|] == prefix
  }

  /** `s.slice(0, n)` for n >= 0. */
  function Take(s: String, n: nat): (r: String)
    ensures |r| == Min(n, |s|) && r == s[..|r|]
  {
    if n <= |s| then s[..n] else s
  }

  /** Concatenation is associative (stated once so that provers need not rediscover it for
      sequences of records). */
  lemma AppendAssoc<T>(a: seq<T>, b: seq<T>, c: seq<T>)
    ensures (a + b) + c == a + (b + c)
  {
  }

  /** `s.substring(start)`: the suffix from `start`, clamped into `[0, |s|]`. */
  function Substring(s: String, start: int): (r: String)
    ensures 0 <= start <= |s| ==> r == s[start..]
    ensures start < 0 ==> r == s
    ensures start > |s| ==> r == []
  {
    s[Min(Max(start, 0), |s|)..]
  }

  /** `p` occurs in `s` starting at index `i`. */
  predicate OccursAt(s: String, p: String, i: int) {
    0 <= i && i + |p| <= |s| && s[i..i + |p|] == p
  }

  /** An occurrence inside an occurrence is an occurrence. */
  lemma OccursInside(s: String, q: String, i: int, r: String, j: int)
    requires OccursAt(s, q, i) && OccursAt(q, r, j)
    ensures OccursAt(s, r, i + j)
  {
    forall k | 0 <= k < |r| ensures s[i + j + k] == r[k] {
      assert r[k] == q[j + k];
      assert q[j + k] == s[i + j + k];
    }
    assert s[i + j..i + j + |r|] == r;
  }

  lemma TrimOccurs(s: String)
    ensures OccursAt(s, Trim(s), TrimOffset(s))
  {
    TrimSpec(s);
  }

  /** `s.indexOf(p, from)`: the first index at or after the clamped start where `p` occurs,
      or -1 when there is none. */
  function IndexOf(s: String, p: String, from: int): (r: int)
    ensures r == -1 || (Min(Max(from, 0), |s|) <= r && OccursAt(s, p, r))
    ensures forall i :: Min(Max(from, 0), |s|) <= i && (r == -1 || i < r) ==> !OccursAt(s, p, i)
    decreases |s| - from
  {
    var k := Min(Max(from, 0), |s|);
    if k + |p| > |s| then -1
    else if s[k..k + |p|] == p then k
    else IndexOf(s, p, k + 1)
  }

  /** `s.includes(p)`. */
  predicate Contains(s: String, p: String) {
    IndexOf(s, p, 0) != -1
  }

  /** A pattern whose first character does not occur in `s` is not found in it. */
  lemma {:induction false} NotFoundWithoutFirstChar(s: String, p: String, from: int)
    requires p != [] && p[0] !in s
    ensures IndexOf(s, p, from) == -1
    decreases |s| - from
  {
    var k := Min(Max(from, 0), |s|);
    if k + |p| <= |s| {
      assert s[k..k + |p|][0] == s[k];
      NotFoundWithoutFirstChar(s, p, k + 1);
    }
  }

  /** Number of occurrences of `c` in `s`. */
  function Count(s: String, c: char): nat {
    if s == [] then 0 else (if s[0] == c then 1 else 0) + Count(s[1..], c)
  }

  lemma {:induction false} CountAbsent(s: String, c: char)
    requires c !in s
    ensures Count(s, c) == 0
  {
    if s != [] { CountAbsent(s[1..], c); }
  }

  /** `s.split(c)` for a one-character separator: the maximal runs between separators,
      empty runs included. */
  function SplitOn(s: String, c: char): (parts: seq<String>)
    ensures |parts| == Count(s, c) + 1
    ensures forall k :: 0 <= k < |parts| ==> c !in parts[k]
  {
    if s == [] then [[]]
    else
      var rest := SplitOn(s[1..], c);
      if s[0] == c then [[]] + rest else [[s[0]] + rest[0]] + rest[1..]
  }

  /** `parts.join(c)`. */
  function Join(parts: seq<String>, c: char): String {
    if parts == [] then []
    else if |parts| == 1 then parts[0]
    else parts[0] + [c] + Join(parts[1..], c)
  }

  lemma JoinPrepend(x: String, parts: seq<String>, c: char)
    requires parts != []
    ensures Join([x + parts[0]] + parts[1..], c) == x + Join(parts, c)
  {
    if |parts| > 1 {
      assert ([x + parts[0]] + parts[1..])[1..] == parts[1..];
    }
  }

  /** Splitting and joining again with the same separator gives back the string. */
  lemma {:induction false} JoinSplit(s: String, c: char)
    ensures Join(SplitOn(s, c), c) == s
  {
    if s != [] {
      var rest := SplitOn(s[1..], c);
      JoinSplit(s[1..], c);
      if s[0] == c {
        assert ([[]] + rest)[1..] == rest;
      } else {
        JoinPrepend([s[0]], rest, c);
      }
    }
  }

  /** `s.split(" ").slice(0, k).join(" ")`: the first `k` space-separated words. */
  function TakeWords(s: String, k: nat): String {
    var parts := SplitOn(s, ' ');
    Join(parts[..Min(k, |parts|)], ' ')
  }

  /** Taking words from a non-empty text: a leading space ends the first word. */
  lemma TakeWordsCons(s: String, k: nat)
    requires s != [] && k >= 1
    ensures s[0] == ' ' && k == 1 ==> TakeWords(s, k) == []
    ensures s[0] == ' ' && k > 1 ==> TakeWords(s, k) == [' '] + TakeWords(s[1..], k - 1)
    ensures s[0] != ' ' ==> TakeWords(s, k) == [s[0]] + TakeWords(s[1..], k)
  {
    var parts := SplitOn(s, ' ');
    var rest := SplitOn(s[1..], ' ');
    var m := Min(k, |parts|);
    if s[0] == ' ' {
      assert parts == [[]] + rest;
      if k == 1 {
        assert parts[..1] == [[]];
      } else {
        assert parts[..m] == [[]] + rest[..m - 1];
        assert Min(k - 1, |rest|) == m - 1;
        assert (parts[..m])[1..] == rest[..m - 1];
      }
    } else {
      assert |parts| == |rest|;
      assert parts[..m] == [[s[0]] + rest[..m][0]] + rest[..m][1..];
      JoinPrepend([s[0]], rest[..m], ' ');
    }
  }

  /** For k >= 1 the first `k` words are the prefix of `s` that stops just before the k-th
      space (or all of `s` when it has fewer spaces). */
  lemma {:induction false} TakeWordsIsPrefix(s: String, k: nat)
    requires k >= 1
    ensures var r := TakeWords(s, k);
      && StartsWith(s, r)
      && Count(r, ' ') == Min(k - 1, Count(s, ' '))
      && (|r| == |s| || s[|r|] == ' ')
  {
    var r := TakeWords(s, k);
    if s != [] {
      TakeWordsCons(s, k);
      if s[0] == ' ' && k > 1 {
        TakeWordsIsPrefix(s[1..], k - 1);
        var r' := TakeWords(s[1..], k - 1);
        assert r[1..] == r';
        assert s == [' '] + s[1..];
      } else if s[0] != ' ' {
        TakeWordsIsPrefix(s[1..], k);
        var r' := TakeWords(s[1..], k);
        assert r[1..] == r';
        assert s == [s[0]] + s[1..];
      }
    }
  }
}
