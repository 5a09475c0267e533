/** The report renderer of components/MarkdownRenderer.tsx: the report is cut into lines, and
    each trimmed line becomes one block, chosen by the first of eight line rules that applies.
    A block here is the data the JSX element is built from; the HTML of a list item is produced
    as the string the renderer hands to `dangerouslySetInnerHTML`. */
module Markdown {
  import opened Maybe
  import opened JsString
  import opened Sanitiser

  const TitleMark := "# \U{1F4CA}"
  const SectionMark := "## "
  const ListMark := "- **"
  const Bold := "**"

  // ---------------------------------------------------------------------------------------
  // Signal lines

  datatype SignalTone = Default | Buy | Sell | Hold | Wait

  /** The signal text names a word: the English word in any case, or its Chinese form. */
  predicate Names(x: string, word: string, hanzi: string) {
    ContainsIgnoreCase(x, word) || Contains(x, hanzi)
  }

  /** The chain of case-insensitive tests on the signal text: BUY or 买入 first, then SELL or
      卖出, then HOLD or 持有, then WAIT or 观望. Each tone is chosen exactly when its word is
      named and no earlier word is. */
  function ToneOfSignal(x: string): (t: SignalTone)
    ensures t == Buy <==> Names(x, "BUY", "买入")
    ensures t == Sell <==> !Names(x, "BUY", "买入") && Names(x, "SELL", "卖出")
    ensures t == Hold <==> !Names(x, "BUY", "买入") && !Names(x, "SELL", "卖出") &&
                           Names(x, "HOLD", "持有")
    ensures t == Wait <==> !Names(x, "BUY", "买入") && !Names(x, "SELL", "卖出") &&
                           !Names(x, "HOLD", "持有") && Names(x, "WAIT", "观望")
    ensures t == Default <==> !Names(x, "BUY", "买入") && !Names(x, "SELL", "卖出") &&
                              !Names(x, "HOLD", "持有") && !Names(x, "WAIT", "观望")
  {
    if Names(x, "BUY", "买入") then Buy
    else if Names(x, "SELL", "卖出") then Sell
    else if Names(x, "HOLD", "持有") then Hold
    else if Names(x, "WAIT", "观望") then Wait
    else Default
  }

  predicate NoAsciiLetter(w: string) {
    forall j | 0 <= j < |w| :: !('a' <= w[j] <= 'z') && !('A' <= w[j] <= 'Z')
  }

  /** A word without ASCII letters occurs in the upper-cased text exactly where it occurs in
      the text. */
  lemma UpperKeepsWord(x: string, w: string)
    requires NoAsciiLetter(w)
    ensures Contains(ToUpperAscii(x), w) <==> Contains(x, w)
  {
    var u := ToUpperAscii(x);
    forall i ensures OccursAt(u, i, w) <==> OccursAt(x, i, w) {
      UpperKeepsWordAt(x, w, i);
    }
    ContainsIff(u, w);
    ContainsIff(x, w);
  }

  /** The same, at one position. */
  lemma UpperKeepsWordAt(x: string, w: string, i: int)
    requires NoAsciiLetter(w)
    ensures OccursAt(ToUpperAscii(x), i, w) <==> OccursAt(x, i, w)
  {
    var u := ToUpperAscii(x);
    if 0 <= i && i + |w| <= |x| {
      var su, sx := u[i..i + |w|], x[i..i + |w|];
      if su == w {
        forall j | 0 <= j < |w| ensures sx[j] == w[j] {
          assert u[i + j] == w[j];
        }
      }
      if sx == w {
        forall j | 0 <= j < |w| ensures su[j] == w[j] {
          assert x[i + j] == w[j];
        }
      }
    }
  }

  /** The tone of a signal does not depend on the letter case of its text. */
  lemma ToneOfSignalIgnoresCase(x: string)
    ensures ToneOfSignal(ToUpperAscii(x)) == ToneOfSignal(x)
  {
    var u := ToUpperAscii(x);
    assert ToUpperAscii(u) == u;
    UpperKeepsWord(x, "买入");
    UpperKeepsWord(x, "卖出");
    UpperKeepsWord(x, "持有");
    UpperKeepsWord(x, "观望");
  }

  predicate IsColon(c: char) {
    c == ':' || c == '\U{FF1A}'
  }

  /** What `^\*\*(Signal|信号)(:|：)\*\*(.*)` captures. */
  datatype SignalMatch = SignalMatch(tag: string, colon: char, rest: string)

  function SignalTag(u: string): (tag: string)
    ensures tag == "" || tag == "Signal" || tag == "信号"
    ensures tag != "" ==> StartsWith(u, tag)
    ensures tag == "" ==> !StartsWith(u, "Signal") && !StartsWith(u, "信号")
    ensures StartsWith(u, "信号") ==> tag == "信号"
  {
    FirstCharDecides(u, "Signal");
    FirstCharDecides(u, "信号");
    if StartsWith(u, "Signal") then "Signal"
    else if StartsWith(u, "信号") then "信号"
    else ""
  }

  /** The line opens with `**`, the tag, a colon and `**` again. */
  predicate HeadWith(t: string, tag: string) {
    StartsWith(t, Bold + tag) && |tag| + 2 < |t| && IsColon(t[|tag| + 2]) &&
    OccursAt(t, |tag| + 3, Bold)
  }

  /** What `^\*\*(Signal|信号)(:|：)\*\*` asks of the start of a line. */
  predicate SignalHead(t: string) {
    HeadWith(t, "Signal") || HeadWith(t, "信号")
  }

  /** `HeadWith` read off in the order the matcher tests it: the opening `**`, the tag after
      it, then the colon and the closing `**`. */
  lemma HeadWithSteps(t: string, tag: string)
    ensures HeadWith(t, tag) <==>
              StartsWith(t, Bold) && StartsWith(t[2..], tag) && 2 + |tag| + 3 <= |t| &&
              IsColon(t[2 + |tag|]) && t[2 + |tag| + 1..2 + |tag| + 3] == Bold
  {
    if StartsWith(t, Bold + tag) {
      assert t[..2] == (Bold + tag)[..2];
      assert t[2..][..|tag|] == t[..2 + |tag|][2..];
    }
    if StartsWith(t, Bold) && StartsWith(t[2..], tag) {
      assert t[..2 + |tag|] == t[..2] + t[2..][..|tag|];
    }
  }

  /** `SignalHead` in the matcher's terms: the tag is the one `SignalTag` finds after the
      opening `**`. */
  lemma SignalHeadSteps(t: string)
    ensures SignalHead(t) <==>
              StartsWith(t, Bold) &&
              var tag := SignalTag(t[2..]);
              tag != "" && 2 + |tag| + 3 <= |t| && IsColon(t[2 + |tag|]) &&
              t[2 + |tag| + 1..2 + |tag| + 3] == Bold
  {
    HeadWithSteps(t, "Signal");
    HeadWithSteps(t, "信号");
  }

  /** The regex match on a trimmed line: `**`, a tag, a colon, `**`, and then everything up
      to the first line terminator, since `.` does not cross one. There is a match exactly
      when the line opens that way. */
  function MatchSignal(t: string): (m: Option<SignalMatch>)
    ensures m.Some? <==> SignalHead(t)
    ensures !StartsWith(t, Bold) ==> m.None?
    ensures m.Some? ==> IsColon(m.value.colon) && (m.value.tag == "Signal" || m.value.tag == "信号")
    ensures m.Some? ==> StartsWith(t, Bold + m.value.tag + [m.value.colon] + Bold + m.value.rest)
    ensures m.Some? ==> NoTerminator(m.value.rest)
    ensures m.Some? ==> var end := |Bold + m.value.tag| + 3 + |m.value.rest|;
                        end == |t| || IsLineTerminator(t[end])
  {
    SignalHeadSteps(t);
    if !StartsWith(t, Bold) then None
    else
      var tag := SignalTag(t[2..]);
      var n := 2 + |tag|;
      if tag == "" || n + 3 > |t| || !IsColon(t[n]) || t[n + 1..n + 3] != Bold then None
      else
        var u := t[n + 3..];
        var e := LineEnd(u, 0);
        LineHasNoTerminator(u);
        LineEndStops(u, 0);
        SignalPrefix(t, tag, e);
        assert e < |u| ==> t[n + 3 + e] == u[e];
        Some(SignalMatch(tag, t[n], u[..e]))
  }

  /** The text up to the first line terminator holds none. */
  lemma LineHasNoTerminator(u: string)
    ensures NoTerminator(u[..LineEnd(u, 0)])
  {
    LineEndStops(u, 0);
    var e := LineEnd(u, 0);
    forall j | 0 <= j < e ensures !IsLineTerminator(u[..e][j]) {
      assert u[..e][j] == u[j];
    }
  }

  /** The pieces the signal pattern matched, put back together, open the line. */
  lemma SignalPrefix(t: string, tag: string, e: nat)
    requires StartsWith(t, Bold) && StartsWith(t[2..], tag)
    requires 2 + |tag| + 3 + e <= |t| && t[2 + |tag| + 1..2 + |tag| + 3] == Bold
    ensures StartsWith(t, Bold + tag + [t[2 + |tag|]] + Bold + t[2 + |tag| + 3..][..e])
  {
    var n := 2 + |tag|;
    CutFive(t, 2, n, n + 1, n + 3, n + 3 + e);
    assert t[2..n] == t[2..][..|tag|];
    assert t[n..n + 1] == [t[n]];
    assert t[n + 3..n + 3 + e] == t[n + 3..][..e];
  }

  /** A line made of the marker and any text is matched, and the text is captured up to its
      first line terminator: the whole text when it holds none. */
  lemma MatchSignalLine(tag: string, colon: char, x: string)
    requires tag == "Signal" || tag == "信号"
    requires IsColon(colon)
    ensures MatchSignal(Bold + tag + [colon] + Bold + x) ==
            Some(SignalMatch(tag, colon, x[..LineEnd(x, 0)]))
    ensures NoTerminator(x) ==> x[..LineEnd(x, 0)] == x
  {
    var t := Bold + tag + [colon] + Bold + x;
    var n := 2 + |tag|;
    assert t[2..] == tag + [colon] + Bold + x;
    assert StartsWith(t[2..], tag) by {
      assert t[2..][..|tag|] == tag;
    }
    assert SignalTag(t[2..]) == tag;
    assert t[n] == colon && t[n + 1..n + 3] == Bold;
    var u := t[n + 3..];
    assert u == x;
    LineEndStops(x, 0);
    assert !(tag == "" || n + 3 > |t| || !IsColon(t[n]) || t[n + 1..n + 3] != Bold);
    if NoTerminator(x) {
      assert LineEnd(x, 0) == |x|;
    }
  }

  // ---------------------------------------------------------------------------------------
  // List items

  /** One step of the global `\*\*(.*?)\*\*` replacement: a character copied over, or a bold run
      whose inner text the regex captured. */
  datatype Piece = Lit(c: char) | Strong(text: string)

  predicate NoTerminator(s: string) {
    forall i | 0 <= i < |s| :: !IsLineTerminator(s[i])
  }

  /** The end of the lazy bold run opened at the start of `u`: the first `**` after the opener,
      provided no line terminator stands before it; -1 when the regex fails here. */
  function CloseOf(u: string): (j: int)
    requires StartsWith(u, Bold)
    ensures j == -1 || (2 <= j && OccursAt(u, j, Bold) && NoTerminator(u[2..j]))
    ensures j != -1 ==> forall i | 2 <= i < j :: !OccursAt(u, i, Bold)
    ensures j == -1 ==> forall k | 2 <= k && OccursAt(u, k, Bold) :: !NoTerminator(u[2..k])
  {
    var j := Find(u, Bold, 2);
    if j >= 0 && NoTerminator(u[2..j]) then j
    else if j >= 0 then TerminatorStays(u, 2, j); -1
    else -1
  }

  /** A line terminator between `a` and `j` stands between `a` and any later end too. */
  lemma TerminatorStays(u: string, a: nat, j: nat)
    requires a <= j <= |u| && !NoTerminator(u[a..j])
    ensures forall k | j <= k <= |u| :: !NoTerminator(u[a..k])
  {
    var i :| 0 <= i < j - a && IsLineTerminator(u[a..j][i]);
    forall k | j <= k <= |u| ensures !NoTerminator(u[a..k]) {
      assert u[a..k][i] == u[a..j][i];
    }
  }

  /** The global replacement read left to right: where a bold run matches it is taken whole,
      and the scan goes on after its closer; elsewhere one character is copied. */
  function Scan(u: string): (ps: seq<Piece>)
    ensures Unscan(ps) == u
    decreases |u|
  {
    if |u| == 0 then []
    else if StartsWith(u, Bold) && CloseOf(u) >= 0 then
      var j := CloseOf(u);
      var p, tail := Strong(u[2..j]), Scan(u[j + 2..]);
      UnscanCons(p, tail);
      UnscanOne(p);
      AroundClose(u, j);
      [p] + tail
    else
      var p, tail := Lit(u[0]), Scan(u[1..]);
      UnscanCons(p, tail);
      UnscanOne(p);
      assert u == [u[0]] + u[1..];
      [p] + tail
  }

  /** The source text a piece stands for. */
  function Unscan(ps: seq<Piece>): string {
    if |ps| == 0 then ""
    else (match ps[0] case Lit(c) => [c] case Strong(x) => Bold + x + Bold) + Unscan(ps[1..])
  }

  lemma UnscanCons(p: Piece, ps: seq<Piece>)
    ensures Unscan([p] + ps) == Unscan([p]) + Unscan(ps)
  {
    assert ([p] + ps)[1..] == ps;
    assert [p][1..] == [];
  }

  /** The text a single piece stands for. */
  lemma UnscanOne(p: Piece)
    ensures p.Lit? ==> Unscan([p]) == [p.c]
    ensures p.Strong? ==> Unscan([p]) == Bold + p.text + Bold
  {
    assert [p][1..] == [];
  }

  /** A text opening with `**` and holding `**` again at `j` is the two markers around the text
      between them, and the rest. */
  lemma AroundClose(u: string, j: int)
    requires StartsWith(u, Bold) && 2 <= j && OccursAt(u, j, Bold)
    ensures u == Bold + u[2..j] + Bold + u[j + 2..]
  {
    assert u[..2] == Bold;
    assert u[j..j + 2] == Bold;
    assert u == u[..2] + u[2..j] + u[j..j + 2] + u[j + 2..];
  }

  /** The text of a bold run holds no `**`: its closer is the first one after the opener. */
  lemma NoBoldInRun(u: string)
    requires StartsWith(u, Bold) && CloseOf(u) >= 0
    ensures !Contains(u[2..CloseOf(u)], Bold)
  {
    var j := CloseOf(u);
    var x := u[2..j];
    forall i | 0 <= i ensures !OccursAt(x, i, Bold) {
      BoldAt(x, i);
      BoldAt(u, 2 + i);
      if i + 2 <= |x| {
        assert u[2 + i] == x[i] && u[3 + i] == x[i + 1];
      }
    }
    ContainsIff(x, Bold);
  }

  /** A bold text holds neither a line terminator nor `**`: the run is lazy and stays on its
      line. */
  lemma {:induction false} StrongTextsClean(u: string)
    ensures forall k | 0 <= k < |Scan(u)| && Scan(u)[k].Strong? ::
              NoTerminator(Scan(u)[k].text) && !Contains(Scan(u)[k].text, Bold)
    decreases |u|
  {
    if |u| > 0 {
      if StartsWith(u, Bold) && CloseOf(u) >= 0 {
        StrongTextsClean(u[CloseOf(u) + 2..]);
        NoBoldInRun(u);
      } else {
        StrongTextsClean(u[1..]);
      }
    }
  }

  /** Text without `**` is copied character by character. */
  lemma {:induction false} ScanPlain(u: string)
    requires !Contains(u, Bold)
    ensures |Scan(u)| == |u|
    ensures forall k | 0 <= k < |u| :: Scan(u)[k] == Lit(u[k])
    decreases |u|
  {
    if |u| > 0 {
      ContainsIff(u, Bold);
      assert !OccursAt(u, 0, Bold);
      OccursAtShift(u[0], u[1..], Bold);
      assert [u[0]] + u[1..] == u;
      forall i ensures !OccursAt(u[1..], i, Bold) {
        if i >= 0 {
          assert OccursAt(u, i + 1, Bold) <==> OccursAt(u[1..], i, Bold);
        }
      }
      ContainsIff(u[1..], Bold);
      ScanPlain(u[1..]);
      assert Scan(u) == [Lit(u[0])] + Scan(u[1..]);
    }
  }

  /** The closer of a clean bold run at the front is the `**` right after its text. */
  lemma CloseOfStrong(x: string, rest: string)
    requires NoTerminator(x) && !Contains(x, Bold) && !(|x| > 0 && x[|x| - 1] == '*')
    ensures StartsWith(Bold + x + Bold + rest, Bold)
    ensures CloseOf(Bold + x + Bold + rest) == 2 + |x|
  {
    var u := Bold + x + Bold + rest;
    var n := 2 + |x|;
    assert u[..2] == Bold;
    assert u[n..n + 2] == Bold;
    NoBoldInside(x, rest);
    FindAt(u, Bold, 2, n);
    assert u[2..n] == x;
  }

  /** `**` at `i` is two stars there. */
  lemma BoldAt(s: string, i: int)
    ensures OccursAt(s, i, Bold) <==> 0 <= i && i + 2 <= |s| && s[i] == '*' && s[i + 1] == '*'
  {
    if 0 <= i && i + 2 <= |s| {
      assert s[i..i + 2] == [s[i], s[i + 1]];
    }
  }

  lemma NoBoldInside(x: string, rest: string)
    requires !Contains(x, Bold) && !(|x| > 0 && x[|x| - 1] == '*')
    ensures forall i | 2 <= i < 2 + |x| :: !OccursAt(Bold + x + Bold + rest, i, Bold)
  {
    var u := Bold + x + Bold + rest;
    var n := 2 + |x|;
    forall i | 2 <= i < n ensures !OccursAt(u, i, Bold) {
      BoldAt(u, i);
      if i + 2 <= n {
        assert !OccursAt(x, i - 2, Bold);
        BoldAt(x, i - 2);
        assert u[i] == x[i - 2] && u[i + 1] == x[i - 1];
      } else {
        assert u[i] == x[|x| - 1];
      }
    }
  }

  /** A bold run with a clean inner text at the front is one strong piece. */
  lemma ScanStrongFirst(x: string, rest: string)
    requires NoTerminator(x) && !Contains(x, Bold) && !(|x| > 0 && x[|x| - 1] == '*')
    ensures Scan(Bold + x + Bold + rest) == [Strong(x)] + Scan(rest)
  {
    var u := Bold + x + Bold + rest;
    CloseOfStrong(x, rest);
    assert u[2..2 + |x|] == x;
    assert u[2 + |x| + 2..] == rest;
  }

  predicate NoStar(p: string) {
    forall i | 0 <= i < |p| :: p[i] != '*'
  }

  /** Each character of `p` as a literal piece. */
  function Lits(p: string): (ps: seq<Piece>)
    ensures |ps| == |p| && forall k | 0 <= k < |p| :: ps[k] == Lit(p[k])
  {
    seq(|p|, k requires 0 <= k < |p| => Lit(p[k]))
  }

  /** Text without a star in front of anything is copied character by character, and the scan
      goes on after it as if it were not there. */
  lemma {:induction false} ScanPlainPrefix(p: string, tail: string)
    requires NoStar(p)
    ensures Scan(p + tail) == Lits(p) + Scan(tail)
    decreases |p|
  {
    if |p| > 0 {
      var ls, st := Lits(p[1..]), Scan(tail);
      calc {
        Scan(p + tail);
        { ScanLitHead(p, tail); }
        [Lit(p[0])] + Scan(p[1..] + tail);
        { ScanPlainPrefix(p[1..], tail); }
        [Lit(p[0])] + (ls + st);
        { LitsCons(p); ConsAppendPieces(Lit(p[0]), ls, st); }
        Lits(p) + st;
      }
    } else {
      assert p + tail == tail;
    }
  }

  /** A first character other than a star is copied. */
  lemma ScanLitHead(p: string, tail: string)
    requires |p| > 0 && p[0] != '*'
    ensures Scan(p + tail) == [Lit(p[0])] + Scan(p[1..] + tail)
  {
    var u := p + tail;
    assert u[0] == p[0];
    FirstCharDecides(u, Bold);
    assert u[1..] == p[1..] + tail;
  }

  lemma LitsCons(p: string)
    requires |p| > 0
    ensures Lits(p) == [Lit(p[0])] + Lits(p[1..])
  {
  }

  lemma ConsAppendPieces(x: Piece, a: seq<Piece>, b: seq<Piece>)
    ensures [x] + (a + b) == ([x] + a) + b
  {
  }

  /** A bold run after plain text is recognised too: the replacement is global. */
  lemma ScanStrongAfterPlain(p: string, x: string, rest: string)
    requires NoStar(p)
    requires NoTerminator(x) && !Contains(x, Bold) && !(|x| > 0 && x[|x| - 1] == '*')
    ensures Scan(p + Bold + x + Bold + rest) == Lits(p) + [Strong(x)] + Scan(rest)
  {
    assert p + Bold + x + Bold + rest == p + (Bold + x + Bold + rest);
    ScanPlainPrefix(p, Bold + x + Bold + rest);
    ScanStrongFirst(x, rest);
  }

  datatype Highlight = White | Blue | Rose | Emerald

  predicate EntryWord(x: string) {
    ContainsIgnoreCase(x, "ENTRY") || ContainsIgnoreCase(x, "BUY") || Contains(x, "建仓") ||
    Contains(x, "买入") || Contains(x, "策略")
  }

  predicate StopWord(x: string) {
    ContainsIgnoreCase(x, "STOP") || ContainsIgnoreCase(x, "LOSS") || Contains(x, "止损")
  }

  predicate TargetWord(x: string) {
    ContainsIgnoreCase(x, "TARGET") || ContainsIgnoreCase(x, "PROFIT") || Contains(x, "止盈")
  }

  /** The colour of a bold run: three tests in a row, each overwriting the colour when its
      words occur, so the last one that matches wins. */
  function KeywordColour(x: string): (c: Highlight)
    ensures c == Emerald <==> TargetWord(x)
    ensures c == Rose <==> StopWord(x) && !TargetWord(x)
    ensures c == Blue <==> EntryWord(x) && !StopWord(x) && !TargetWord(x)
    ensures c == White <==> !EntryWord(x) && !StopWord(x) && !TargetWord(x)
  {
    var c0 := White;
    var c1 := if EntryWord(x) then Blue else c0;
    var c2 := if StopWord(x) then Rose else c1;
    if TargetWord(x) then Emerald else c2
  }

  function ColourClass(c: Highlight): string {
    match c
    case White => "text-white"
    case Blue => "text-blue-400"
    case Rose => "text-rose-400"
    case Emerald => "text-emerald-400"
  }

  /** The replacement string of one bold run. */
  function StrongHtml(x: string): (h: string)
    ensures StartsWith(h, "<strong class=\"")
  {
    var open := "<strong class=\"";
    var tail := ColourClass(KeywordColour(x)) + "\">" + x + "</strong>";
    OuterPieces(open, tail, []);
    open + tail
  }

  /** The HTML of the list item: literal characters are copied, so pieces without bold runs
      give back the text they stand for. */
  function ItemHtml(ps: seq<Piece>): (h: string)
    ensures (forall k | 0 <= k < |ps| :: ps[k].Lit?) ==> h == Unscan(ps)
  {
    if |ps| == 0 then ""
    else (match ps[0] case Lit(c) => [c] case Strong(x) => StrongHtml(x)) + ItemHtml(ps[1..])
  }

  /** A bold run at the front becomes its `strong` element; the rest follows. */
  lemma ItemHtmlStrongFirst(x: string, rest: string)
    requires NoTerminator(x) && !Contains(x, Bold) && !(|x| > 0 && x[|x| - 1] == '*')
    ensures ItemHtml(Scan(Bold + x + Bold + rest)) == StrongHtml(x) + ItemHtml(Scan(rest))
  {
    ScanStrongFirst(x, rest);
    assert ([Strong(x)] + Scan(rest))[1..] == Scan(rest);
  }

  /** Plain text before a bold run is copied, then the run becomes its `strong` element: in
      `- **Entry:** buy at **10**` the `10` is shown bold and coloured too. */
  lemma ItemHtmlStrongAfterPlain(p: string, x: string, rest: string)
    requires NoStar(p)
    requires NoTerminator(x) && !Contains(x, Bold) && !(|x| > 0 && x[|x| - 1] == '*')
    ensures ItemHtml(Scan(p + Bold + x + Bold + rest)) == p + StrongHtml(x) + ItemHtml(Scan(rest))
  {
    var ls, tail := Lits(p), Scan(rest);
    calc {
      ItemHtml(Scan(p + Bold + x + Bold + rest));
      { ScanStrongAfterPlain(p, x, rest); }
      ItemHtml(ls + [Strong(x)] + tail);
      { AppendAssocPieces(ls, [Strong(x)], tail); }
      ItemHtml(ls + ([Strong(x)] + tail));
      { ItemHtmlAppend(ls, [Strong(x)] + tail); ItemHtmlLits(p); }
      p + ItemHtml([Strong(x)] + tail);
      { ItemHtmlStrongHead(x, tail); }
      p + (StrongHtml(x) + ItemHtml(tail));
    }
  }

  lemma ItemHtmlStrongHead(x: string, tail: seq<Piece>)
    ensures ItemHtml([Strong(x)] + tail) == StrongHtml(x) + ItemHtml(tail)
  {
    assert ([Strong(x)] + tail)[1..] == tail;
  }

  lemma AppendAssocPieces(a: seq<Piece>, b: seq<Piece>, c: seq<Piece>)
    ensures a + b + c == a + (b + c)
  {
  }

  /** The HTML of pieces one after the other is their HTML one after the other. */
  lemma {:induction false} ItemHtmlAppend(a: seq<Piece>, b: seq<Piece>)
    ensures ItemHtml(a + b) == ItemHtml(a) + ItemHtml(b)
    decreases |a|
  {
    if |a| == 0 {
      assert a + b == b;
    } else {
      assert (a + b)[1..] == a[1..] + b;
      assert (a + b)[0] == a[0];
      ItemHtmlAppend(a[1..], b);
    }
  }

  /** Literal pieces are their own characters. */
  lemma {:induction false} ItemHtmlLits(p: string)
    ensures ItemHtml(Lits(p)) == p
    decreases |p|
  {
    if |p| > 0 {
      LitsCons(p);
      assert Lits(p)[1..] == Lits(p[1..]);
      ItemHtmlLits(p[1..]);
    }
  }

  /** A list item without bold text is its own HTML. */
  lemma {:induction false} ItemHtmlPlain(u: string)
    requires !Contains(u, Bold)
    ensures ItemHtml(Scan(u)) == u
    decreases |u|
  {
    ScanPlain(u);
  }

  // ---------------------------------------------------------------------------------------
  // Lines

  /** What one line of the report becomes. */
  datatype Block =
    | Title(text: string)
    | Section(text: string)
    | Signal(tag: string, text: string, tone: SignalTone)
    | KeyValue(key: string, value: string)
    | ListItem(pieces: seq<Piece>)
    | Disclaimer(text: string)
    | Spacer
    | Paragraph(text: string)

  predicate IsKeyValueLine(t: string) {
    StartsWith(t, Bold) && (Contains(t, ":**") || Contains(t, "\U{FF1A}**"))
  }

  /** A string the separator occurs in splits into at least two pieces. */
  lemma SplitAtOccurrence(s: string, sep: string)
    requires |sep| > 0 && Contains(s, sep)
    ensures |Split(s, sep)| >= 2
    ensures Split(s, sep)[0] == s[..IndexOf(s, sep)]
  {
  }

  /** `**Key:** Value`: the ASCII separator is preferred; the key is the first piece without its
      `**`, the value the second piece. */
  function KeyValueOf(t: string): (b: Block)
    requires IsKeyValueLine(t)
    ensures b.KeyValue?
  {
    var sep := if Contains(t, ":**") then ":**" else "\U{FF1A}**";
    SplitAtOccurrence(t, sep);
    var parts := Split(t, sep);
    KeyValue(ReplaceFirst(parts[0], Bold, ""), parts[1])
  }

  predicate IsDisclaimer(t: string) {
    StartsWith(t, "*Disclaimer") || StartsWith(t, "*免责声明")
  }

  /** A title or section heading. */
  predicate IsHeading(t: string) {
    StartsWith(t, TitleMark) || StartsWith(t, SectionMark)
  }

  /** A trimmed line tested against the rules in the renderer's order: each kind of block is
      chosen exactly when its rule matches and no earlier rule does. */
  function BlockOf(t: string): (b: Block)
    ensures b.Title? <==> StartsWith(t, TitleMark)
    ensures b.Title? ==> b.text == t[1..]
    ensures b.Section? <==> !StartsWith(t, TitleMark) && StartsWith(t, SectionMark)
    ensures b.Section? ==> b.text == t[3..]
    ensures b.Signal? <==> !IsHeading(t) && MatchSignal(t).Some?
    ensures b.Signal? ==> MatchSignal(t).Some? && b.tag == MatchSignal(t).value.tag &&
                          b.text == Trim(MatchSignal(t).value.rest) && b.tone == ToneOfSignal(b.text)
    ensures b.KeyValue? <==> !IsHeading(t) && MatchSignal(t).None? && IsKeyValueLine(t)
    ensures b.KeyValue? ==> IsKeyValueLine(t) && b == KeyValueOf(t)
    ensures b.ListItem? <==> !IsHeading(t) && MatchSignal(t).None? && !IsKeyValueLine(t) &&
                             StartsWith(t, ListMark)
    ensures b.ListItem? ==> |t| >= 2 && b.pieces == Scan(t[2..]) && Unscan(b.pieces) == t[2..]
    ensures b.Disclaimer? <==> !IsHeading(t) && MatchSignal(t).None? && !IsKeyValueLine(t) &&
                               !StartsWith(t, ListMark) && IsDisclaimer(t)
    ensures b.Disclaimer? ==> b.text == t
    ensures b.Spacer? <==> t == ""
    ensures b.Paragraph? <==> !IsHeading(t) && MatchSignal(t).None? && !IsKeyValueLine(t) &&
                              !StartsWith(t, ListMark) && !IsDisclaimer(t) && t != ""
    ensures b.Paragraph? ==> b.text == t
  {
    if StartsWith(t, TitleMark) then
      ReplacePrefix(t, "#");
      Title(ReplaceFirst(t, "#", ""))
    else if StartsWith(t, SectionMark) then
      ReplacePrefix(t, SectionMark);
      Section(ReplaceFirst(t, SectionMark, ""))
    else if MatchSignal(t).Some? then
      var m := MatchSignal(t).value;
      var x := Trim(m.rest);
      Signal(m.tag, x, ToneOfSignal(x))
    else if IsKeyValueLine(t) then KeyValueOf(t)
    else if StartsWith(t, ListMark) then
      ReplacePrefix(t, "- ");
      var u := ReplaceFirst(t, "- ", "");
      ListItem(Scan(u))
    else if IsDisclaimer(t) then Disclaimer(t)
    else if t == "" then Spacer
    else Paragraph(t)
  }

  /** One line of the report: its trimmed text decides. A line of white space only is a
      spacer. */
  function Classify(line: string): (b: Block)
    ensures b.Spacer? <==> AllSpace(line)
    ensures b.Paragraph? ==> b.text == Trim(line)
  {
    BlockOf(Trim(line))
  }

  /** A trimmed line needs no further trimming. */
  predicate Trimmed(t: string) {
    |t| == 0 || (!IsSpace(t[0]) && !IsSpace(t[|t| - 1]))
  }

  /** A trimmed line starting with `*` is no title and no section. */
  lemma StarIsNoHeading(t: string)
    requires |t| > 0 && t[0] == '*'
    ensures !StartsWith(t, TitleMark) && !StartsWith(t, SectionMark)
  {
    FirstCharDecides(t, TitleMark);
    FirstCharDecides(t, SectionMark);
  }

  /** A signal line shows its text trimmed and toned by it. */
  lemma SignalLineShown(tag: string, colon: char, x: string)
    requires tag == "Signal" || tag == "信号"
    requires IsColon(colon)
    requires Trimmed(Bold + tag + [colon] + Bold + x)
    ensures var v := Trim(x[..LineEnd(x, 0)]);
            Classify(Bold + tag + [colon] + Bold + x) == Signal(tag, v, ToneOfSignal(v))
  {
    var t := Bold + tag + [colon] + Bold + x;
    var v := Trim(x[..LineEnd(x, 0)]);
    calc {
      Classify(t);
      { TrimmedIsFixed(t); }
      BlockOf(t);
      { SignalBlock(tag, colon, x); }
      Signal(tag, v, ToneOfSignal(v));
    }
  }

  lemma TrimmedIsFixed(t: string)
    requires Trimmed(t)
    ensures Classify(t) == BlockOf(t)
  {
    assert Trim(t) == t;
  }

  lemma SignalBlock(tag: string, colon: char, x: string)
    requires tag == "Signal" || tag == "信号"
    requires IsColon(colon)
    ensures var v := Trim(x[..LineEnd(x, 0)]);
            BlockOf(Bold + tag + [colon] + Bold + x) == Signal(tag, v, ToneOfSignal(v))
  {
    var t := Bold + tag + [colon] + Bold + x;
    MatchSignalLine(tag, colon, x);
    StarIsNoHeading(t);
  }

  predicate NoColon(s: string) {
    forall i | 0 <= i < |s| :: !IsColon(s[i])
  }

  /** A text that continues a colon-free word `k` with a colon does not start with another
      colon-free word `w` followed by a colon. */
  lemma NoOtherWord(u: string, k: string, w: string)
    requires NoColon(w) && NoColon(k) && k != w
    requires |k| < |u| && u[..|k|] == k && u[|k|] == ':'
    ensures !(StartsWith(u, w) && |w| < |u| && IsColon(u[|w|]))
  {
    if |k| < |w| {
      assert !IsColon(w[|k|]);
      assert |w| > |u| || u[..|w|][|k|] != w[|k|];
    } else if |k| == |w| {
      assert u[..|w|] != w;
    } else {
      assert u[|w|] == k[|w|];
    }
  }

  /** A key other than a signal tag does not make the line a signal line. */
  lemma KeyIsNoSignal(k: string, v: string)
    requires NoColon(k)
    requires k != "Signal" && k != "信号"
    ensures MatchSignal(Bold + k + ":**" + v).None?
  {
    var t := Bold + k + ":**" + v;
    var u := t[2..];
    assert u == k + ":**" + v;
    assert u[..|k|] == k && u[|k|] == ':';
    NoOtherWord(u, k, "Signal");
    NoOtherWord(u, k, "信号");
    assert StartsWith(t, Bold) by {
      assert t[..2] == Bold;
    }
  }

  /** The key and the value of `**k:**v` with a colon-free key and a value without `:**`. */
  lemma KeyValueSplit(k: string, v: string)
    requires NoColon(k)
    requires !Contains(v, ":**")
    ensures IsKeyValueLine(Bold + k + ":**" + v)
    ensures KeyValueOf(Bold + k + ":**" + v) == KeyValue(k, v)
  {
    var t := Bold + k + ":**" + v;
    var n := 2 + |k|;
    assert t[n..n + 3] == ":**";
    forall i | 0 <= i < n ensures !OccursAt(t, i, ":**") {
      if i + 3 <= |t| {
        assert t[i..i + 3][0] == t[i];
      }
      if i >= 2 {
        assert t[i] == k[i - 2];
      }
    }
    FindAt(t, ":**", 0, n);
    assert StartsWith(t, Bold) by {
      assert t[..2] == Bold;
    }
    assert t[n + 3..] == v;
    assert Split(t, ":**") == [t[..n]] + Split(v, ":**");
    assert Split(v, ":**") == [v];
    assert t[..n] == Bold + k;
    ReplacePrefix(Bold + k, Bold);
    assert (Bold + k)[2..] == k;
  }

  /** A colon-free text followed by `:**` is the first piece of the split. */
  lemma SplitAfterColonFree(head: string, rest: string)
    requires NoChar(head, ':')
    ensures IndexOf(head + ":**" + rest, ":**") == |head|
    ensures Split(head + ":**" + rest, ":**") == [head] + Split(rest, ":**")
  {
    var t := head + ":**" + rest;
    var n := |head|;
    assert t[n..n + 3] == ":**";
    forall i | 0 <= i < n ensures t[i] != ':' {
      assert t[i] == head[i];
    }
    SplitCut(t, ":**", n);
    OuterPieces(head, ":**", rest);
  }

  /** Only the piece between the first and the second separator is the value: whatever follows
      a second `:**` is dropped. */
  lemma KeyValueParts(key: string, v: string, w: string)
    requires NoChar(key, ':') && NoChar(v, ':')
    ensures IsKeyValueLine(Bold + key + ":**" + v + ":**" + w)
    ensures KeyValueOf(Bold + key + ":**" + v + ":**" + w) == KeyValue(key, v)
  {
    var head := Bold + key;
    var rest := v + ":**" + w;
    var t := Bold + key + ":**" + v + ":**" + w;
    calc {
      t;
      head + ":**" + v + ":**" + w;
      { AppendAssoc(head + ":**", v + ":**", w); AppendAssoc(head + ":**", v, ":**"); }
      head + ":**" + rest;
    }
    forall i | 0 <= i < |head| ensures head[i] != ':' {
      if i >= 2 {
        assert head[i] == key[i - 2];
      }
    }
    SplitAfterColonFree(head, rest);
    SplitAfterColonFree(v, w);
    assert StartsWith(t, Bold) by {
      assert t[..2] == Bold;
    }
    ReplacePrefix(head, Bold);
    assert head[2..] == key;
  }

  /** When both separators occur, the ASCII one wins even if the full-width one comes first:
      the full-width separator then stays inside the key. */
  lemma KeyValueAsciiWins(k: string, u: string, v: string, w: string)
    requires NoChar(k, ':') && NoChar(u, ':') && NoChar(v, ':')
    ensures IsKeyValueLine(Bold + k + "\U{FF1A}**" + u + ":**" + v + ":**" + w)
    ensures KeyValueOf(Bold + k + "\U{FF1A}**" + u + ":**" + v + ":**" + w)
         == KeyValue(k + "\U{FF1A}**" + u, v)
  {
    var key := k + "\U{FF1A}**" + u;
    forall i | 0 <= i < |key| ensures key[i] != ':' {
      if i >= |k| + 3 {
        assert key[i] == u[i - |k| - 3];
      } else if i < |k| {
        assert key[i] == k[i];
      }
    }
    assert Bold + k + "\U{FF1A}**" + u + ":**" + v + ":**" + w == Bold + key + ":**" + v + ":**" + w;
    KeyValueParts(key, v, w);
  }

  /** A `- **` line is a list item, whatever follows. */
  lemma ListLineBlock(t: string)
    requires StartsWith(t, ListMark)
    ensures BlockOf(t) == ListItem(Scan(t[2..]))
  {
    CharDecides(t, ListMark, 0);
    FirstCharDecides(t, TitleMark);
    FirstCharDecides(t, SectionMark);
    FirstCharDecides(t, Bold);
  }

  /** A disclaimer line starts with one star and then a letter. */
  lemma DisclaimerStart(t: string)
    requires IsDisclaimer(t)
    ensures |t| >= 2 && t[0] == '*' && t[1] != '*' && t[1] != '-'
  {
    CharDecides(t, "*Disclaimer", 0);
    CharDecides(t, "*Disclaimer", 1);
    CharDecides(t, "*免责声明", 0);
    CharDecides(t, "*免责声明", 1);
  }

  /** A `*Disclaimer` or `*免责声明` line is shown as the disclaimer, whatever follows. */
  lemma DisclaimerBlock(t: string)
    requires IsDisclaimer(t)
    ensures BlockOf(t) == Disclaimer(t)
  {
    DisclaimerStart(t);
    StarIsNoHeading(t);
    CharDecides(t, Bold, 1);
    FirstCharDecides(t, ListMark);
  }

  /** `**Key:** Value` with a colon-free key other than a signal tag and a value free of the
      separator shows that key and that value. */
  lemma KeyValueLineShown(k: string, v: string)
    requires NoColon(k)
    requires k != "Signal" && k != "信号"
    requires !Contains(v, ":**")
    requires Trimmed(Bold + k + ":**" + v)
    ensures Classify(Bold + k + ":**" + v) == KeyValue(k, v)
  {
    TrimmedIsFixed(Bold + k + ":**" + v);
    KeyValueBlock(k, v);
  }

  lemma KeyValueBlock(k: string, v: string)
    requires NoColon(k)
    requires k != "Signal" && k != "信号"
    requires !Contains(v, ":**")
    ensures BlockOf(Bold + k + ":**" + v) == KeyValue(k, v)
  {
    var t := Bold + k + ":**" + v;
    assert t[0] == '*';
    StarIsNoHeading(t);
    KeyIsNoSignal(k, v);
    KeyValueSplit(k, v);
  }

  // ---------------------------------------------------------------------------------------
  // Whole report

  /** `content.split('\n').map(...)`: one block per line. */
  function Render(content: string): (bs: seq<Block>)
    ensures |bs| == |Split(content, "\n")|
    ensures forall k | 0 <= k < |bs| :: bs[k] == Classify(Split(content, "\n")[k])
  {
    var lines := Split(content, "\n");
    seq(|lines|, k requires 0 <= k < |lines| => Classify(lines[k]))
  }

  /** There is one block per line: one more than the number of newlines. */
  lemma RenderCountsLines(content: string)
    ensures |Render(content)| == CountChar(content, '\n') + 1
  {
    SplitCount(content, '\n');
  }

  /** An empty report renders as a single spacer. */
  lemma EmptyReportIsSpacer()
    ensures Render("") == [Spacer]
  {
    assert Split("", "\n") == [""];
    assert AllSpace("");
  }
}
