/** `safeJsonParse` of services/geminiService.ts: the tolerant reader that turns a model reply
    into a JSON value or `null`. Each cleaning step is one function here, in the order the
    source applies them: drop code-fence markers, trim, drop `//` comments, drop block
    comments, keep only the span from the first opening bracket to the last matching closer,
    delete trailing commas, and hand the rest to JSON.parse (a parameter). */
module Sanitiser {
  import opened Maybe
  import opened JsString
  import opened JsonValue

  const Fence := "```"
  const TaggedFence := "```json"
  const LineOpener := "//"
  const BlockOpener := "/*"
  const BlockCloser := "*/"

  predicate NoChar(s: string, c: char) {
    forall i | 0 <= i < |s| :: s[i] != c
  }

  predicate Absent(s: string, pat: string) {
    forall i | 0 <= i < |s| :: !OccursAt(s, i, pat)
  }

  // ---------------------------------------------------------------------------------------
  // Step 1: code fences

  /** `replace(/```(?:json)?|```/g, '')`: the regex is tried left to right at every position,
      the tagged form first, and each match is deleted. */
  function StripFences(s: string): (r: string)
    ensures |r| <= |s|
    decreases |s|
  {
    if StartsWith(s, TaggedFence) then StripFences(s[|TaggedFence|..])
    else if StartsWith(s, Fence) then StripFences(s[|Fence|..])
    else if |s| == 0 then ""
    else [s[0]] + StripFences(s[1..])
  }

  /** A leading character other than a backtick is kept in front. */
  lemma StripFencesKeepsHead(s: string)
    requires |s| > 0 && s[0] != '`'
    ensures StripFences(s) == [s[0]] + StripFences(s[1..])
  {
    FirstCharDecides(s, TaggedFence);
    FirstCharDecides(s, Fence);
  }

  /** Text that does not open with a fence keeps its first character in front. */
  lemma StripFencesNoFenceKeepsHead(s: string)
    requires |s| > 0 && !StartsWith(s, Fence)
    ensures StripFences(s) == [s[0]] + StripFences(s[1..])
  {
    TaggedStartsPlain(s);
  }

  /** Text opening with a tagged fence opens with a plain one. */
  lemma TaggedStartsPlain(s: string)
    ensures StartsWith(s, TaggedFence) ==> StartsWith(s, Fence)
  {
    if StartsWith(s, TaggedFence) {
      assert s[..3] == s[..7][..3];
      assert TaggedFence[..3] == Fence;
    }
  }

  /** A run of three backticks at the front shows in the first three characters. */
  lemma FenceInFront(r: string)
    ensures OccursAt(r, 0, Fence) ==> |r| >= 3 && r[0] == '`' && r[1] == '`' && r[2] == '`'
  {
    if OccursAt(r, 0, Fence) {
      var w := r[..3];
      assert w == Fence;
      assert r[0] == w[0] && r[1] == w[1] && r[2] == w[2];
    }
  }

  /** When the text does not open with a fence, the fence step does not put one in front. */
  lemma NoFenceInFront(s: string)
    requires |s| > 0 && !StartsWith(s, Fence)
    ensures var r := [s[0]] + StripFences(s[1..]);
            |r| < 3 || r[0] != '`' || r[1] != '`' || r[2] != '`'
  {
    var tail := s[1..];
    var r := [s[0]] + StripFences(tail);
    if s[0] == '`' && |s| > 2 {
      if s[1] != '`' {
        StripFencesKeepsHead(tail);
        assert r[1] == s[1];
      } else {
        assert s[2] != '`';
        StripFencesNoFenceKeepsHead(tail);
        assert tail[1..] == s[2..];
        StripFencesKeepsHead(s[2..]);
        assert r[2] == s[2];
      }
    } else if s[0] == '`' && |s| == 2 && s[1] != '`' {
      StripFencesKeepsHead(tail);
      assert r[1] == s[1];
    }
  }

  /** No run of three backticks survives the fence step. */
  lemma {:induction false} StripFencesLeavesNoFence(s: string)
    ensures Absent(StripFences(s), Fence)
    decreases |s|
  {
    if StartsWith(s, TaggedFence) {
      StripFencesLeavesNoFence(s[|TaggedFence|..]);
    } else if StartsWith(s, Fence) {
      StripFencesLeavesNoFence(s[|Fence|..]);
    } else if |s| > 0 {
      var rest := StripFences(s[1..]);
      var r := [s[0]] + rest;
      StripFencesLeavesNoFence(s[1..]);
      StripFencesNoFenceKeepsHead(s);
      OccursAtShift(s[0], rest, Fence);
      NoFenceInFront(s);
      FenceInFront(r);
    }
  }

  /** Text with no backtick passes through the fence step unchanged in front of whatever
      follows it. */
  lemma {:induction false} StripFencesPlainPrefix(t: string, u: string)
    requires NoChar(t, '`')
    ensures StripFences(t + u) == t + StripFences(u)
    decreases |t|
  {
    if |t| > 0 {
      var v, tail := t + u, t[1..];
      HeadTail(t, u, StripFences(u));
      assert v[0] != '`';
      StripFencesKeepsHead(v);
      StripFencesPlainPrefix(tail, u);
    } else {
      assert t + u == u;
    }
  }

  /** Text with no backtick is left as it is by the fence step. */
  lemma {:induction false} StripFencesPlain(t: string)
    requires NoChar(t, '`')
    ensures StripFences(t) == t
    decreases |t|
  {
    if |t| > 0 {
      StripFencesKeepsHead(t);
      StripFencesPlain(t[1..]);
    }
  }

  /** An opening tagged fence is deleted whole. */
  lemma StripFencesSkipsTaggedFence(rest: string)
    ensures StripFences(TaggedFence + rest) == StripFences(rest)
  {
    var t := TaggedFence + rest;
    assert t[..|TaggedFence|] == TaggedFence;
    assert t[|TaggedFence|..] == rest;
  }

  /** A plain fence is deleted whole, unless the word `json` follows it, in which case the
      regex takes the tagged form and deletes the word too. */
  lemma StripFencesSkipsFence(rest: string)
    requires !StartsWith(rest, "json")
    ensures StripFences(Fence + rest) == StripFences(rest)
  {
    var t := Fence + rest;
    TaggedNeedsJson(rest);
    assert t[..|Fence|] == Fence;
    assert t[|Fence|..] == rest;
  }

  /** A plain fence followed by anything but `json` is not a tagged fence. */
  lemma TaggedNeedsJson(rest: string)
    ensures StartsWith(Fence + rest, TaggedFence) ==> StartsWith(rest, "json")
  {
    var t := Fence + rest;
    if StartsWith(t, TaggedFence) {
      var w := t[..7];
      assert w == TaggedFence;
      assert rest[..4] == w[3..7];
      assert TaggedFence[3..7] == "json";
    }
  }

  /** A fenced block whose body has no backtick comes out as its body, with the prose around
      it kept, as long as the text after the closing fence does not begin with `json`. */
  lemma FencedBlockUnwrapped(a: string, body: string, b: string)
    requires NoChar(a, '`') && NoChar(body, '`') && NoChar(b, '`')
    requires !StartsWith(b, "json")
    ensures StripFences(a + TaggedFence + body + Fence + b) == a + body + b
  {
    var closing := Fence + b;
    var inner := body + closing;
    var tail := TaggedFence + inner;
    AppendAssoc5(a, TaggedFence, body, Fence, b);
    calc {
      StripFences(a + tail);
      { StripFencesPlainPrefix(a, tail); }
      a + StripFences(tail);
      { StripFencesSkipsTaggedFence(inner); }
      a + StripFences(inner);
      { StripFencesPlainPrefix(body, closing); }
      a + (body + StripFences(closing));
      { StripFencesSkipsFence(b); StripFencesPlain(b); }
      a + (body + b);
    }
  }

  /** Regrouping a five-piece concatenation. */
  lemma AppendAssoc5<T>(a: seq<T>, f: seq<T>, body: seq<T>, g: seq<T>, b: seq<T>)
    ensures a + f + body + g + b == a + (f + (body + (g + b)))
  {
  }

  // ---------------------------------------------------------------------------------------
  // Step 2a: line comments

  /** Index of the first line terminator at or after `i`, or the length of `s`. */
  function LineEnd(s: string, i: nat): (k: nat)
    requires i <= |s|
    ensures i <= k <= |s|
    decreases |s| - i
  {
    if i == |s| || IsLineTerminator(s[i]) then i else LineEnd(s, i + 1)
  }

  /** `LineEnd` stops at the first line terminator from `i` on. */
  lemma {:induction false} LineEndStops(s: string, i: nat)
    requires i <= |s|
    ensures LineEnd(s, i) < |s| ==> IsLineTerminator(s[LineEnd(s, i)])
    ensures forall j | i <= j < LineEnd(s, i) :: !IsLineTerminator(s[j])
    decreases |s| - i
  {
    if i < |s| && !IsLineTerminator(s[i]) {
      LineEndStops(s, i + 1);
    }
  }

  /** `replace(/\/\/.*$/gm, '')`: from every `//` to the end of its line is deleted, wherever
      the `//` stands, inside a JSON string too. */
  function StripLineComments(s: string): (r: string)
    ensures |r| <= |s|
    decreases |s|
  {
    if StartsWith(s, LineOpener) then StripLineComments(s[LineEnd(s, 2)..])
    else if |s| == 0 then ""
    else [s[0]] + StripLineComments(s[1..])
  }

  lemma StripLineCommentsKeepsHead(s: string)
    requires |s| > 0 && s[0] != '/'
    ensures StripLineComments(s) == [s[0]] + StripLineComments(s[1..])
  {
    FirstCharDecides(s, LineOpener);
  }

  /** No `//` survives the line-comment step. */
  lemma {:induction false} StripLineCommentsLeavesNoOpener(s: string)
    ensures Absent(StripLineComments(s), LineOpener)
    decreases |s|
  {
    if StartsWith(s, LineOpener) {
      StripLineCommentsLeavesNoOpener(s[LineEnd(s, 2)..]);
    } else if |s| > 0 {
      var rest := StripLineComments(s[1..]);
      StripLineCommentsLeavesNoOpener(s[1..]);
      var r := [s[0]] + rest;
      OccursAtShift(s[0], rest, LineOpener);
      if |s| > 1 && s[0] == '/' {
        assert s[1] != '/';
        StripLineCommentsKeepsHead(s[1..]);
      }
    }
  }

  /** The line terminators of a text, in order. */
  function LineBreaks(s: string): string {
    Filter(s, IsLineTerminator)
  }

  /** A line comment holds no line terminator. */
  lemma CommentHasNoBreaks(s: string)
    requires StartsWith(s, LineOpener)
    ensures LineBreaks(s[..LineEnd(s, 2)]) == ""
  {
    var k := LineEnd(s, 2);
    var head := s[..k];
    LineEndStops(s, 2);
    forall i | 0 <= i < |head| ensures !IsLineTerminator(head[i]) {
      if i < 2 {
        assert s[i] == LineOpener[i];
      }
    }
    FilterNothing(head, IsLineTerminator);
  }

  /** The line-comment step keeps every line terminator, in order: the text keeps its lines. */
  lemma {:induction false} StripLineCommentsKeepsLines(s: string)
    ensures LineBreaks(StripLineComments(s)) == LineBreaks(s)
    decreases |s|
  {
    if StartsWith(s, LineOpener) {
      StripLineCommentsKeepsLines(s[LineEnd(s, 2)..]);
      CommentKeepsLines(s);
    } else if |s| > 0 {
      StripLineCommentsKeepsLines(s[1..]);
      PlainHeadKeepsLines(s);
    }
  }

  /** A comment in front removes no line terminator when the rest keeps its own. */
  lemma CommentKeepsLines(s: string)
    requires StartsWith(s, LineOpener)
    requires var tail := s[LineEnd(s, 2)..];
             LineBreaks(StripLineComments(tail)) == LineBreaks(tail)
    ensures LineBreaks(StripLineComments(s)) == LineBreaks(s)
  {
    var k := LineEnd(s, 2);
    var head, tail := s[..k], s[k..];
    calc {
      LineBreaks(StripLineComments(s));
      { StripLineCommentsSkipsComment(s); }
      LineBreaks(StripLineComments(tail));
      LineBreaks(tail);
      { CommentHasNoBreaks(s); }
      LineBreaks(head) + LineBreaks(tail);
      { FilterAppend(head, tail, IsLineTerminator); }
      LineBreaks(head + tail);
      { CutThree(s, k, 0); }
      LineBreaks(s);
    }
  }

  /** A first character outside a comment is kept with its line terminator, if it is one. */
  lemma PlainHeadKeepsLines(s: string)
    requires |s| > 0 && !StartsWith(s, LineOpener)
    requires LineBreaks(StripLineComments(s[1..])) == LineBreaks(s[1..])
    ensures LineBreaks(StripLineComments(s)) == LineBreaks(s)
  {
    var c, rest := s[0], s[1..];
    var out := StripLineComments(rest);
    assert StripLineComments(s) == [c] + out;
    HeadRest(s);
    FilterAppend([c], rest, IsLineTerminator);
    FilterAppend([c], out, IsLineTerminator);
  }

  /** Text with no slash passes through the line-comment step unchanged in front of whatever
      follows it. */
  lemma {:induction false} StripLineCommentsPlainPrefix(t: string, u: string)
    requires NoChar(t, '/')
    ensures StripLineComments(t + u) == t + StripLineComments(u)
    decreases |t|
  {
    if |t| > 0 {
      var v, tail := t + u, t[1..];
      HeadTail(t, u, StripLineComments(u));
      assert v[0] != '/';
      StripLineCommentsKeepsHead(v);
      StripLineCommentsPlainPrefix(tail, u);
    } else {
      assert t + u == u;
    }
  }

  /** Text with no slash is left as it is by the line-comment step. */
  lemma {:induction false} StripLineCommentsPlain(t: string)
    requires NoChar(t, '/')
    ensures StripLineComments(t) == t
    decreases |t|
  {
    if |t| > 0 {
      StripLineCommentsKeepsHead(t);
      StripLineCommentsPlain(t[1..]);
    }
  }

  /** A text opening with `//` loses everything up to the end of its first line. */
  lemma StripLineCommentsSkipsComment(u: string)
    requires StartsWith(u, LineOpener)
    ensures StripLineComments(u) == StripLineComments(u[LineEnd(u, 2)..])
  {
  }

  /** A line of text ends where its first line terminator, or the text, ends. */
  lemma {:induction false} LineEndAt(s: string, i: nat, n: nat)
    requires i <= n <= |s|
    requires forall j | i <= j < n :: !IsLineTerminator(s[j])
    requires n == |s| || IsLineTerminator(s[n])
    ensures LineEnd(s, i) == n
    decreases n - i
  {
    if i < n {
      LineEndAt(s, i + 1, n);
    }
  }

  /** A `//` comment at the start of the text is deleted up to the end of its line. */
  lemma LeadingLineCommentRemoved(comment: string, b: string)
    requires forall i | 0 <= i < |comment| :: !IsLineTerminator(comment[i])
    requires |b| == 0 || IsLineTerminator(b[0])
    ensures StripLineComments(LineOpener + comment + b) == StripLineComments(b)
  {
    var u := LineOpener + comment + b;
    CommentLineEnd(comment, b);
    OuterPieces(LineOpener, comment, b);
    StripLineCommentsSkipsComment(u);
  }

  /** The line a leading comment opens ends right after the comment. */
  lemma CommentLineEnd(comment: string, b: string)
    requires forall i | 0 <= i < |comment| :: !IsLineTerminator(comment[i])
    requires |b| == 0 || IsLineTerminator(b[0])
    ensures LineEnd(LineOpener + comment + b, 2) == 2 + |comment|
  {
    var u := LineOpener + comment + b;
    var n := 2 + |comment|;
    forall j | 2 <= j < n ensures !IsLineTerminator(u[j]) {
      assert u[j] == comment[j - 2];
    }
    if n < |u| {
      assert u[n] == b[0];
    }
    LineEndAt(u, 2, n);
  }

  /** A `//` comment is deleted up to, and not including, the end of its line. */
  lemma LineCommentRemoved(a: string, comment: string, b: string)
    requires NoChar(a, '/')
    requires forall i | 0 <= i < |comment| :: !IsLineTerminator(comment[i])
    requires |b| == 0 || IsLineTerminator(b[0])
    ensures StripLineComments(a + LineOpener + comment + b) == a + StripLineComments(b)
  {
    var u := LineOpener + comment + b;
    assert a + LineOpener + comment + b == a + u;
    StripLineCommentsPlainPrefix(a, u);
    LeadingLineCommentRemoved(comment, b);
  }

  /** The `//` of a URL inside a JSON string is taken for a comment too: the rest of the line
      goes, closing quote and brace included. */
  lemma UrlInStringIsCut()
    ensures StripLineComments("{\"u\":\"http://x\"}") == "{\"u\":\"http:"
  {
    var a := "{\"u\":\"http:";
    assert "{\"u\":\"http://x\"}" == a + LineOpener + "x\"}" + "";
    LineCommentRemoved(a, "x\"}", "");
  }

  // ---------------------------------------------------------------------------------------
  // Step 2b: block comments

  /** The block-comment regex (lazy, global): each opener is deleted together with everything
      up to the first closer after it; an opener with no closer after it stays. */
  function StripBlockComments(s: string): (r: string)
    ensures |r| <= |s|
    decreases |s|
  {
    if StartsWith(s, BlockOpener) && Find(s, BlockCloser, 2) >= 0 then
      StripBlockComments(s[Find(s, BlockCloser, 2) + 2..])
    else if |s| == 0 then ""
    else [s[0]] + StripBlockComments(s[1..])
  }

  lemma StripBlockCommentsKeepsHead(s: string)
    requires |s| > 0 && s[0] != '/'
    ensures StripBlockComments(s) == [s[0]] + StripBlockComments(s[1..])
  {
    FirstCharDecides(s, BlockOpener);
  }

  /** Text with no slash passes through the block-comment step unchanged in front of whatever
      follows it. */
  lemma {:induction false} StripBlockCommentsPlainPrefix(t: string, u: string)
    requires NoChar(t, '/')
    ensures StripBlockComments(t + u) == t + StripBlockComments(u)
    decreases |t|
  {
    if |t| > 0 {
      var v, tail := t + u, t[1..];
      HeadTail(t, u, StripBlockComments(u));
      assert v[0] != '/';
      StripBlockCommentsKeepsHead(v);
      StripBlockCommentsPlainPrefix(tail, u);
    } else {
      assert t + u == u;
    }
  }

  /** Text with no slash is left as it is by the block-comment step. */
  lemma {:induction false} StripBlockCommentsPlain(t: string)
    requires NoChar(t, '/')
    ensures StripBlockComments(t) == t
    decreases |t|
  {
    if |t| > 0 {
      FirstCharDecides(t, BlockOpener);
      StripBlockCommentsPlain(t[1..]);
    }
  }

  /** A closed block comment at the start of the text is deleted through the first closer. */
  lemma LeadingBlockCommentRemoved(comment: string, b: string)
    requires !Contains(comment, BlockCloser)
    ensures StripBlockComments(BlockOpener + comment + BlockCloser + b) == StripBlockComments(b)
  {
    FindAfterFree(BlockOpener, comment, BlockCloser, b);
    FourPieces(BlockOpener, comment, BlockCloser, b);
  }

  /** A closed block comment is deleted through the first closer after its opener. */
  lemma BlockCommentRemoved(a: string, comment: string, b: string)
    requires NoChar(a, '/')
    requires !Contains(comment, BlockCloser)
    ensures StripBlockComments(a + BlockOpener + comment + BlockCloser + b)
         == a + StripBlockComments(b)
  {
    var u := BlockOpener + comment + BlockCloser + b;
    assert a + BlockOpener + comment + BlockCloser + b == a + u;
    StripBlockCommentsPlainPrefix(a, u);
    LeadingBlockCommentRemoved(comment, b);
  }

  // ---------------------------------------------------------------------------------------
  // Step 3: the object or array span

  predicate IsFirst(s: string, i: int, c: char) {
    0 <= i < |s| && s[i] == c && forall k | 0 <= k < i :: s[k] != c
  }

  predicate IsLast(s: string, j: int, c: char) {
    0 <= j < |s| && s[j] == c && forall k | j < k < |s| :: s[k] != c
  }

  predicate IsOpener(c: char) {
    c == '{' || c == '['
  }

  /** The closer that matches an opener. */
  function CloserOf(open: char): (c: char)
    requires IsOpener(open)
    ensures IsCloser(c)
  {
    if open == '{' then '}' else ']'
  }

  /** The other kind of opener. */
  function Rival(open: char): (c: char)
    requires IsOpener(open)
    ensures IsOpener(c) && c != open
  {
    if open == '{' then '[' else '{'
  }

  /** The start and end indices the source computes: a `{` that comes before every `[` opens an
      object, closed by the last `}`; otherwise the first `[` opens an array, closed by the last
      `]`. -1 stands for "not found". */
  function SpanBounds(s: string): (b: (int, int))
    ensures -1 <= b.0 < |s| && -1 <= b.1 < |s|
  {
    var brace := IndexOfChar(s, '{');
    var bracket := IndexOfChar(s, '[');
    var objectFirst := brace != -1 && (bracket == -1 || brace < bracket);
    var start := if objectFirst then brace else bracket;
    var end :=
      if objectFirst then LastIndexOf(s, '}')
      else if bracket != -1 then LastIndexOf(s, ']')
      else -1;
    (start, end)
  }

  /** `text.substring(start, end + 1)` when both ends were found, else the text unchanged. */
  function SliceStructure(s: string): (r: string)
    ensures |r| <= |s|
  {
    var (start, end) := SpanBounds(s);
    if start != -1 && end != -1 then Substring(s, start, end + 1) else s
  }

  /** Whichever opener comes first decides: the span starts there and ends at the last matching
      closer. */
  lemma FirstOpenerDecides(s: string, open: char, i: int)
    requires IsOpener(open) && IsFirst(s, i, open) && NoChar(s[..i], Rival(open))
    ensures SpanBounds(s) == (i, LastIndexOf(s, CloserOf(open)))
  {
    forall k | 0 <= k < i ensures s[k] != Rival(open) {
      assert s[..i][k] == s[k];
    }
  }

  /** The last occurrence of a character is the one `LastIndexOf` reports. */
  lemma LastIndexOfIsLast(s: string, j: int, c: char)
    requires IsLast(s, j, c)
    ensures LastIndexOf(s, c) == j
  {
  }

  /** With a closer after the first opener, the structure is cut out from opener to last closer
      inclusive; when every closer comes before the opener, `substring` swaps its arguments and
      the text strictly between the last closer and the opener comes out instead. */
  lemma SliceSpan(s: string, open: char, i: int, j: int)
    requires IsOpener(open) && IsFirst(s, i, open) && NoChar(s[..i], Rival(open))
    requires IsLast(s, j, CloserOf(open))
    ensures i < j ==> SliceStructure(s) == s[i..j + 1]
    ensures j < i ==> SliceStructure(s) == s[j + 1..i]
  {
    FirstOpenerDecides(s, open, i);
    LastIndexOfIsLast(s, j, CloserOf(open));
  }

  /** With no matching closer anywhere, nothing is cut. */
  lemma SliceUnclosed(s: string, open: char, i: int)
    requires IsOpener(open) && IsFirst(s, i, open) && NoChar(s[..i], Rival(open))
    requires NoChar(s, CloserOf(open))
    ensures SliceStructure(s) == s
  {
    FirstOpenerDecides(s, open, i);
  }

  /** With no opener at all, nothing is cut. */
  lemma SliceNoOpener(s: string)
    requires NoChar(s, '{') && NoChar(s, '[')
    ensures SliceStructure(s) == s
  {
  }

  // ---------------------------------------------------------------------------------------
  // Step 4: trailing commas

  predicate IsCloser(c: char) {
    c == '}' || c == ']'
  }

  /** Length of the run of white space that `s` starts with. */
  function SpaceRun(s: string): (n: nat)
    ensures n <= |s|
    ensures forall k | 0 <= k < n :: IsSpace(s[k])
    ensures n < |s| ==> !IsSpace(s[n])
  {
    if |s| > 0 && IsSpace(s[0]) then 1 + SpaceRun(s[1..]) else 0
  }

  /** A comma at `i` that only white space separates from a following `}` or `]`. */
  predicate TrailingCommaAt(s: string, i: int) {
    0 <= i < |s| && s[i] == ',' &&
    var k := i + 1 + SpaceRun(s[i + 1..]);
    k < |s| && IsCloser(s[k])
  }

  /** `replace(/,\s*([}\]])/g, '$1')`: a comma and the white space after it are deleted when a
      closer follows; scanning resumes after the closer. */
  function RemoveTrailingCommas(s: string): (r: string)
    ensures |r| <= |s|
    decreases |s|
  {
    if |s| == 0 then ""
    else if TrailingCommaAt(s, 0) then
      var k := 1 + SpaceRun(s[1..]);
      [s[k]] + RemoveTrailingCommas(s[k + 1..])
    else [s[0]] + RemoveTrailingCommas(s[1..])
  }

  /** What the trailing-comma step may not change: every character other than a comma or
      white space. */
  predicate Essential(c: char) {
    c != ',' && !IsSpace(c)
  }

  /** What a trailing comma takes with it, the comma and the white space after it, holds nothing
      essential. */
  lemma TrailingCommaRunInessential(s: string)
    requires TrailingCommaAt(s, 0)
    ensures Filter(s[..1 + SpaceRun(s[1..])], Essential) == ""
  {
    var k := 1 + SpaceRun(s[1..]);
    forall i | 0 <= i < k ensures !Essential(s[..k][i]) {
      if i > 0 {
        assert s[..k][i] == s[1..][i - 1];
      }
    }
    FilterNothing(s[..k], Essential);
  }

  /** Keeping the first character in front preserves the essential characters of the rest. */
  lemma FilterKeepsHead(c: char, t: string, t': string)
    requires Filter(t', Essential) == Filter(t, Essential)
    ensures Filter([c] + t', Essential) == Filter([c] + t, Essential)
  {
    FilterAppend([c], t, Essential);
    FilterAppend([c], t', Essential);
  }

  /** The trailing-comma step deletes only commas and white space: every other character,
      brackets included, is kept in order. */
  lemma {:induction false} TrailingCommasKeepEssentials(s: string)
    ensures Filter(RemoveTrailingCommas(s), Essential) == Filter(s, Essential)
    decreases |s|
  {
    if |s| > 0 {
      if TrailingCommaAt(s, 0) {
        var k := 1 + SpaceRun(s[1..]);
        TrailingCommasKeepEssentials(s[k + 1..]);
        TrailingCommaKeepsEssentials(s, k);
      } else {
        TrailingCommasKeepEssentials(s[1..]);
        FilterKeepsHead(s[0], s[1..], RemoveTrailingCommas(s[1..]));
        HeadRest(s);
      }
    }
  }

  /** One trailing comma removed at the front keeps the essential characters when the rest
      does. */
  lemma TrailingCommaKeepsEssentials(s: string, k: nat)
    requires TrailingCommaAt(s, 0) && k == 1 + SpaceRun(s[1..])
    requires Filter(RemoveTrailingCommas(s[k + 1..]), Essential) == Filter(s[k + 1..], Essential)
    ensures Filter(RemoveTrailingCommas(s), Essential) == Filter(s, Essential)
  {
    FilterKeepsHead(s[k], s[k + 1..], RemoveTrailingCommas(s[k + 1..]));
    CutAround(s, k);
    FilterAppend(s[..k], [s[k]] + s[k + 1..], Essential);
    TrailingCommaRunInessential(s);
  }

  /** Text with no trailing comma is left exactly as it is. */
  lemma {:induction false} NoTrailingCommaUnchanged(s: string)
    requires forall i | 0 <= i < |s| :: !TrailingCommaAt(s, i)
    ensures RemoveTrailingCommas(s) == s
    decreases |s|
  {
    if |s| > 0 {
      assert !TrailingCommaAt(s, 0);
      NoTrailingCommaTail(s);
      NoTrailingCommaUnchanged(s[1..]);
    }
  }

  /** Dropping the first character creates no trailing comma. */
  lemma NoTrailingCommaTail(s: string)
    requires |s| > 0
    requires forall i | 0 <= i < |s| :: !TrailingCommaAt(s, i)
    ensures forall i | 0 <= i < |s| - 1 :: !TrailingCommaAt(s[1..], i)
  {
    forall i | 0 <= i < |s| - 1 ensures !TrailingCommaAt(s[1..], i) {
      assert !TrailingCommaAt(s, i + 1);
      assert s[1..][i + 1..] == s[i + 2..];
    }
  }

  /** The run of white space over a concatenation stops inside the left part unless that part
      is all white space. */
  lemma {:induction false} SpaceRunAppend(a: string, b: string)
    ensures SpaceRun(a + b) == if SpaceRun(a) < |a| then SpaceRun(a) else |a| + SpaceRun(b)
    decreases |a|
  {
    if |a| == 0 {
      assert a + b == b;
    } else {
      SpaceRunAppend(a[1..], b);
      assert (a + b)[0] == a[0];
      assert (a + b)[1..] == a[1..] + b;
    }
  }

  /** Every comma of a text without a trailing comma stays when the text continues with a
      character that is neither white space nor a closer: the regex cannot reach across. */
  lemma {:induction false} TrailingCommasPlainPrefix(p: string, u: string)
    requires forall i | 0 <= i < |p| :: !TrailingCommaAt(p, i)
    requires |u| > 0 && !IsSpace(u[0]) && !IsCloser(u[0])
    ensures RemoveTrailingCommas(p + u) == p + RemoveTrailingCommas(u)
    decreases |p|
  {
    if |p| == 0 {
      assert p + u == u;
    } else {
      HeadTail(p, u, RemoveTrailingCommas(u));
      PlainPrefixHead(p, u);
      NoTrailingCommaTail(p);
      TrailingCommasPlainPrefix(p[1..], u);
    }
  }

  /** The first comma of such a text is no trailing comma of the text continued. */
  lemma PlainPrefixHead(p: string, u: string)
    requires |p| > 0 && !TrailingCommaAt(p, 0)
    requires |u| > 0 && !IsSpace(u[0]) && !IsCloser(u[0])
    ensures !TrailingCommaAt(p + u, 0)
  {
    var s := p + u;
    HeadTail(p, u, u);
    SpaceRunAppend(p[1..], u);
    var k := 1 + SpaceRun(s[1..]);
    if k < |p| {
      assert s[k] == p[k];
    } else {
      assert s[k] == u[0];
    }
  }

  /** A comma, then white space, then a closing brace or bracket at the front: the comma and
      the white space go, the closer stays. */
  lemma TrailingCommaInFront(w: string, c: char, q: string)
    requires AllSpace(w)
    requires IsCloser(c)
    ensures RemoveTrailingCommas([','] + (w + ([c] + q))) == [c] + RemoveTrailingCommas(q)
  {
    var v := [c] + q;
    var u := [','] + (w + v);
    assert u[1..] == w + v;
    SpaceRunAppend(w, v);
    assert SpaceRun(v) == 0;
    assert (w + v)[|w|] == c;
    assert TrailingCommaAt(u, 0);
    assert u[1 + |w| + 1..] == q;
  }

  /** A comma, then white space, then a closing brace or bracket: the comma and the white space
      go, the closer stays, and the text before is untouched. */
  lemma TrailingCommaRemoved(p: string, w: string, c: char, q: string)
    requires forall i | 0 <= i < |p| :: !TrailingCommaAt(p, i)
    requires AllSpace(w)
    requires IsCloser(c)
    ensures RemoveTrailingCommas(p + "," + w + [c] + q) == p + [c] + RemoveTrailingCommas(q)
  {
    var u := [','] + (w + ([c] + q));
    calc {
      p + "," + w + [c] + q;
      { AppendAssoc(p + "," + w, [c], q); }
      p + "," + w + ([c] + q);
      { AppendAssoc(p + ",", w, [c] + q); }
      p + "," + (w + ([c] + q));
      { AppendAssoc(p, ",", w + ([c] + q)); }
      p + u;
    }
    TrailingCommasPlainPrefix(p, u);
    TrailingCommaInFront(w, c, q);
    AppendAssoc(p, [c], RemoveTrailingCommas(q));
  }

  // ---------------------------------------------------------------------------------------
  // The whole parser

  /** The text that reaches JSON.parse: every cleaning step only deletes, so it is never longer
      than the reply. */
  function Candidate(text: string): (r: string)
    ensures |r| <= |text|
  {
    RemoveTrailingCommas(SliceStructure(StripBlockComments(StripLineComments(Trim(StripFences(text))))))
  }

  /** `safeJsonParse(text)`: `null` (None) for the empty string and whenever JSON.parse throws;
      a value only when JSON.parse accepted the cleaned candidate. */
  function SafeJsonParse(text: string, parse: string -> Option<Json>): (r: Option<Json>)
    ensures text == "" ==> r == None
    ensures text != "" ==> r == parse(Candidate(text))
  {
    if text == "" then None else parse(Candidate(text))
  }

  /** Without any bracket, fence, slash or comma, the whole trimmed text reaches JSON.parse, so a
      bare scalar reply can parse. */
  lemma BareScalarReachesParser(text: string, parse: string -> Option<Json>)
    requires text != "" && !IsSpace(text[0]) && !IsSpace(text[|text| - 1])
    requires NoChar(text, '`') && NoChar(text, '/') && NoChar(text, ',')
    requires NoChar(text, '{') && NoChar(text, '[')
    ensures SafeJsonParse(text, parse) == parse(text)
  {
    StripFencesPlain(text);
    StripLineCommentsPlain(text);
    StripBlockCommentsPlain(text);
    forall i | 0 <= i < |text| ensures !TrailingCommaAt(text, i) {
      assert text[i] != ',';
    }
    NoTrailingCommaUnchanged(text);
  }

  /** The `[]` put in for an empty reply reaches JSON.parse as it is. */
  lemma EmptyArrayReachesParser(parse: string -> Option<Json>)
    ensures SafeJsonParse("[]", parse) == parse("[]")
  {
    BracketPairReachesParser("[]", parse);
  }

  /** The `{}` put in for an empty re-analysis reply reaches the parser unchanged. */
  lemma EmptyObjectReachesParser(parse: string -> Option<Json>)
    ensures SafeJsonParse("{}", parse) == parse("{}")
  {
    BracketPairReachesParser("{}", parse);
  }

  /** An opener right before its closer. */
  predicate IsBracketPair(t: string) {
    |t| == 2 && IsOpener(t[0]) && t[1] == CloserOf(t[0])
  }

  lemma BracketPairReachesParser(t: string, parse: string -> Option<Json>)
    requires IsBracketPair(t)
    ensures SafeJsonParse(t, parse) == parse(t)
  {
    forall i | 0 <= i < |t| ensures t[i] != '`' && t[i] != '/' {
    }
    assert !IsSpace(t[0]) && !IsSpace(t[1]);
    calc {
      Candidate(t);
      RemoveTrailingCommas(SliceStructure(StripBlockComments(StripLineComments(Trim(StripFences(t))))));
      { StripFencesPlain(t); }
      RemoveTrailingCommas(SliceStructure(StripBlockComments(StripLineComments(Trim(t)))));
      RemoveTrailingCommas(SliceStructure(StripBlockComments(StripLineComments(t))));
      { StripLineCommentsPlain(t); StripBlockCommentsPlain(t); }
      RemoveTrailingCommas(SliceStructure(t));
      { BracketPairSlice(t); }
      RemoveTrailingCommas(t);
      { BracketPairNoTrailingComma(t); }
      t;
    }
  }

  lemma BracketPairSlice(t: string)
    requires IsBracketPair(t)
    ensures SliceStructure(t) == t
  {
    assert IsFirst(t, 0, t[0]) && IsLast(t, 1, CloserOf(t[0]));
    assert t[..0] == [];
    SliceSpan(t, t[0], 0, 1);
    assert t[0..2] == t;
  }

  lemma BracketPairNoTrailingComma(t: string)
    requires IsBracketPair(t)
    ensures RemoveTrailingCommas(t) == t
  {
    forall i | 0 <= i < |t| ensures !TrailingCommaAt(t, i) {
      assert t[i] != ',';
    }
    NoTrailingCommaUnchanged(t);
  }
}
