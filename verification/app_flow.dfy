/** The decision logic of App.tsx around an analysis: splitting the search box into codes,
    choosing between image, discovery, single and batch analysis, colouring the signal of a batch
    row, replacing a re-analysed row in the batch cache, and the chat-history updaters of a
    follow-up question. */
module AppFlow {
  import opened Maybe
  import opened JsString
  import opened JsonValue
  import opened GeminiService
  import opened Portfolio

  // ---------------------------------------------------------------------------------------
  // Code input

  /** One character of the class `[\s,，]`: white space, an ASCII comma or a full-width comma. */
  predicate IsCodeSeparator(c: char) {
    IsSpace(c) || c == ',' || c == '\U{FF0C}'
  }

  predicate NoSeparator(s: string) {
    forall i | 0 <= i < |s| :: !IsCodeSeparator(s[i])
  }

  /** Index of the first separator, or the length of `s`. */
  function FirstSeparator(s: string): (k: nat)
    ensures k <= |s|
    ensures k < |s| ==> IsCodeSeparator(s[k])
    ensures NoSeparator(s[..k])
  {
    if |s| == 0 || IsCodeSeparator(s[0]) then 0
    else
      var k := 1 + FirstSeparator(s[1..]);
      assert forall i | 1 <= i < k :: s[..k][i] == s[1..][..k - 1][i - 1];
      k
  }

  /** Length of the run of separators `s` starts with. */
  function SeparatorRun(s: string): (n: nat)
    ensures n <= |s|
    ensures n < |s| ==> !IsCodeSeparator(s[n])
  {
    if |s| > 0 && IsCodeSeparator(s[0]) then 1 + SeparatorRun(s[1..]) else 0
  }

  /** `s.split(/[\s,，]+/)`: the pieces between maximal runs of separators, with an empty piece
      in front when `s` starts with a separator and one at the end when it ends with one. */
  function SplitCodes(s: string): (parts: seq<string>)
    ensures |parts| >= 1
    decreases |s|
  {
    var k := FirstSeparator(s);
    if k == |s| then [s]
    else [s[..k]] + SplitCodes(s[k + SeparatorRun(s[k..])..])
  }

  /** `.filter(c => c.trim().length > 0)` */
  function DropBlank(parts: seq<string>): (r: seq<string>)
    ensures |r| <= |parts|
  {
    if |parts| == 0 then []
    else (if |Trim(parts[0])| > 0 then [parts[0]] else []) + DropBlank(parts[1..])
  }

  /** The code list `handleSearch` builds from the search box: every code is a token. */
  function Tokenise(s: string): (codes: seq<string>)
    ensures forall k | 0 <= k < |codes| :: IsToken(codes[k])
  {
    SplitCodesPiecesClean(s);
    DropBlankKeepsTokens(SplitCodes(s));
    DropBlank(SplitCodes(s))
  }

  /** A token is a non-empty run of characters none of which is a separator. */
  predicate IsToken(t: string) {
    t != "" && NoSeparator(t)
  }

  function IsCodeChar(c: char): bool {
    !IsCodeSeparator(c)
  }

  lemma ConcatOne(x: string)
    ensures Concat([x]) == x
  {
    assert [x][..0] == [];
  }

  /** A piece without separators is blank exactly when it is empty. */
  lemma CleanBlankIsEmpty(p: string)
    requires NoSeparator(p)
    ensures |Trim(p)| > 0 <==> p != ""
  {
    if p != "" {
      assert !IsSpace(p[0]);
      assert !AllSpace(p);
    }
  }

  /** The pieces of the split hold no separator. */
  lemma {:induction false} SplitCodesPiecesClean(s: string)
    ensures forall k | 0 <= k < |SplitCodes(s)| :: NoSeparator(SplitCodes(s)[k])
    decreases |s|
  {
    var k := FirstSeparator(s);
    if k < |s| {
      SplitCodesPiecesClean(s[k + SeparatorRun(s[k..])..]);
    }
  }

  /** Dropping the blank pieces of separator-free pieces leaves tokens only. */
  lemma {:induction false} DropBlankKeepsTokens(parts: seq<string>)
    requires forall k | 0 <= k < |parts| :: NoSeparator(parts[k])
    ensures forall k | 0 <= k < |DropBlank(parts)| :: IsToken(DropBlank(parts)[k])
    decreases |parts|
  {
    if |parts| > 0 {
      assert NoSeparator(parts[0]);
      DropBlankKeepsTokens(parts[1..]);
      DropBlankKeepsTokensStep(parts);
    }
  }

  /** The inductive step of `DropBlankKeepsTokens`: a kept first piece is a token. */
  lemma DropBlankKeepsTokensStep(parts: seq<string>)
    requires |parts| > 0 && NoSeparator(parts[0])
    requires forall k | 0 <= k < |DropBlank(parts[1..])| :: IsToken(DropBlank(parts[1..])[k])
    ensures forall k | 0 <= k < |DropBlank(parts)| :: IsToken(DropBlank(parts)[k])
  {
    var p := parts[0];
    var dr := DropBlank(parts[1..]);
    CleanBlankIsEmpty(p);
    DropBlankCons(parts);
    if p != "" {
      var all := [p] + dr;
      forall k | 0 <= k < |all| ensures IsToken(all[k]) {
        if k > 0 {
          assert all[k] == dr[k - 1];
        }
      }
    }
  }

  /** Dropping blank pieces loses no character. */
  lemma {:induction false} DropBlankConcat(parts: seq<string>)
    requires forall k | 0 <= k < |parts| :: NoSeparator(parts[k])
    ensures Concat(DropBlank(parts)) == Concat(parts)
    decreases |parts|
  {
    if |parts| > 0 {
      assert NoSeparator(parts[0]);
      DropBlankConcat(parts[1..]);
      DropBlankConcatStep(parts);
    }
  }

  /** The inductive step of `DropBlankConcat`: the first piece is kept, or it is empty. */
  lemma DropBlankConcatStep(parts: seq<string>)
    requires |parts| > 0 && NoSeparator(parts[0])
    requires Concat(DropBlank(parts[1..])) == Concat(parts[1..])
    ensures Concat(DropBlank(parts)) == Concat(parts)
  {
    var p, rest := parts[0], parts[1..];
    var head := if |Trim(p)| > 0 then [p] else [];
    CleanBlankIsEmpty(p);
    DropBlankCons(parts);
    HeadRest(parts);
    ConcatKeptHead(head, p, DropBlank(rest), rest);
  }

  lemma DropBlankCons(parts: seq<string>)
    requires |parts| > 0
    ensures DropBlank(parts) == (if |Trim(parts[0])| > 0 then [parts[0]] else []) + DropBlank(parts[1..])
    ensures |Trim(parts[0])| > 0 ==> DropBlank(parts) == [parts[0]] + DropBlank(parts[1..])
    ensures |Trim(parts[0])| == 0 ==> DropBlank(parts) == DropBlank(parts[1..])
  {
    var dr := DropBlank(parts[1..]);
    assert [] + dr == dr;
  }

  /** Keeping a piece, or dropping it when it is empty, gives the same characters. */
  lemma ConcatKeptHead(head: seq<string>, p: string, dr: seq<string>, rest: seq<string>)
    requires head == [p] || (head == [] && p == "")
    requires Concat(dr) == Concat(rest)
    ensures Concat(head + dr) == Concat([p] + rest)
  {
    ConcatAppend(head, dr);
    ConcatAppend([p], rest);
    ConcatOne(p);
    assert Concat(head) == p by {
      if head == [] { assert Concat(head) == ""; }
    }
  }

  /** The leading run of separators is made of separators. */
  lemma {:induction false} SeparatorRunIsSeparators(s: string)
    ensures forall i | 0 <= i < SeparatorRun(s) :: IsCodeSeparator(s[i])
    decreases |s|
  {
    if |s| > 0 && IsCodeSeparator(s[0]) {
      SeparatorRunIsSeparators(s[1..]);
    }
  }

  /** Text without a separator is kept whole. */
  lemma {:induction false} FilterAllCodeChars(s: string)
    requires NoSeparator(s)
    ensures Filter(s, IsCodeChar) == s
    decreases |s|
  {
    if |s| > 0 {
      FilterAllCodeChars(s[1..]);
    }
  }

  /** The characters kept from a piece without separators, a run of separators and a rest. */
  lemma FilterThree(a: string, b: string, c: string)
    requires NoSeparator(a)
    requires forall i | 0 <= i < |b| :: IsCodeSeparator(b[i])
    ensures Filter(a + b + c, IsCodeChar) == a + Filter(c, IsCodeChar)
  {
    var keep := IsCodeChar;
    assert forall i | 0 <= i < |b| :: !keep(b[i]);
    FilterNothing(b, keep);
    FilterAllCodeChars(a);
    var fa, fb, fc := Filter(a, keep), Filter(b, keep), Filter(c, keep);
    assert Filter(a + b + c, keep) == Filter(a + b, keep) + fc by {
      FilterAppend(a + b, c, keep);
    }
    assert Filter(a + b, keep) == fa + fb by {
      FilterAppend(a, b, keep);
    }
    assert fa == a && fb == [];
    assert fa + fb == fa;
  }

  /** The characters kept from a piece, a separator run and the rest. */
  lemma FilterPieceRunRest(s: string, k: nat, n: nat)
    requires k + n <= |s|
    requires NoSeparator(s[..k])
    requires forall i | 0 <= i < n :: IsCodeSeparator(s[k..][i])
    ensures Filter(s, IsCodeChar) == s[..k] + Filter(s[k + n..], IsCodeChar)
  {
    var head, tail, run, rest := s[..k], s[k..], s[k..k + n], s[k + n..];
    forall i | 0 <= i < |run| ensures IsCodeSeparator(run[i]) {
      assert run[i] == tail[i];
    }
    CutThree(s, k, n);
    FilterThree(head, run, rest);
  }

  /** The pieces of the split, put back together, are the text with its separators removed. */
  lemma {:induction false} SplitCodesConcat(s: string)
    ensures Concat(SplitCodes(s)) == Filter(s, IsCodeChar)
    decreases |s|
  {
    var k := FirstSeparator(s);
    if k == |s| {
      assert s[..k] == s;
      FilterAllCodeChars(s);
      ConcatOne(s);
    } else {
      var n := SeparatorRun(s[k..]);
      var head, rest := s[..k], s[k + n..];
      calc {
        Concat(SplitCodes(s));
        Concat([head] + SplitCodes(rest));
        { ConcatAppend([head], SplitCodes(rest)); ConcatOne(head); }
        head + Concat(SplitCodes(rest));
        { SplitCodesConcat(rest); }
        head + Filter(rest, IsCodeChar);
        { SeparatorRunIsSeparators(s[k..]); FilterPieceRunRest(s, k, n); }
        Filter(s, IsCodeChar);
      }
    }
  }

  /** The codes, put back together, are the search text with its separators removed: no
      character of a code is lost or invented. */
  lemma TokensKeepCodeChars(s: string)
    ensures Concat(Tokenise(s)) == Filter(s, IsCodeChar)
  {
    SplitCodesPiecesClean(s);
    DropBlankConcat(SplitCodes(s));
    SplitCodesConcat(s);
  }

  /** Tokens put together are empty exactly when there are none. */
  lemma ConcatTokensEmpty(ts: seq<string>)
    requires forall k | 0 <= k < |ts| :: IsToken(ts[k])
    ensures Concat(ts) == "" <==> ts == []
  {
    if |ts| > 0 {
      assert IsToken(ts[|ts| - 1]);
    }
  }

  /** Nothing kept means every character was dropped. */
  lemma {:induction false} FilterEmptyMeansNone(s: string)
    requires Filter(s, IsCodeChar) == ""
    ensures forall i | 0 <= i < |s| :: IsCodeSeparator(s[i])
    decreases |s|
  {
    if |s| > 0 {
      FilterEmptyMeansNone(s[1..]);
      forall i | 0 <= i < |s| ensures IsCodeSeparator(s[i]) {
        if i > 0 {
          assert s[i] == s[1..][i - 1];
        }
      }
    }
  }

  /** The search text yields no code exactly when it is made of separators only. */
  lemma NoTokensIffSeparatorsOnly(s: string)
    ensures Tokenise(s) == [] <==> forall i | 0 <= i < |s| :: IsCodeSeparator(s[i])
  {
    ConcatTokensEmpty(Tokenise(s));
    TokensKeepCodeChars(s);
    if Filter(s, IsCodeChar) == "" {
      FilterEmptyMeansNone(s);
    }
    if forall i | 0 <= i < |s| :: IsCodeSeparator(s[i]) {
      FilterNothing(s, IsCodeChar);
    }
  }

  lemma {:induction false} FirstSeparatorOfClean(c: string)
    requires NoSeparator(c)
    ensures FirstSeparator(c) == |c|
    decreases |c|
  {
    if |c| > 0 {
      FirstSeparatorOfClean(c[1..]);
    }
  }

  /** A single token comes back as itself. */
  lemma TokeniseOne(c: string)
    requires IsToken(c)
    ensures Tokenise(c) == [c]
  {
    FirstSeparatorOfClean(c);
    CleanBlankIsEmpty(c);
  }

  /** A join of strings starts with the first one. */
  lemma JoinStartsWithFirst(codes: seq<string>)
    requires |codes| > 0 && codes[0] != ""
    ensures |Join(codes, " ")| > 0 && Join(codes, " ")[0] == codes[0][0]
  {
  }

  /** The first separator of `c + t` is the first of `t`, shifted, when `c` has none. */
  lemma {:induction false} FirstSeparatorPrefix(c: string, t: string)
    requires NoSeparator(c)
    requires |t| > 0 && IsCodeSeparator(t[0])
    ensures FirstSeparator(c + t) == |c|
    decreases |c|
  {
    if |c| > 0 {
      FirstSeparatorPrefix(c[1..], t);
      assert (c + t)[1..] == c[1..] + t;
    } else {
      assert c + t == t;
    }
  }

  /** One step of the split of `c + " " + rest`. */
  lemma SplitJoinStep(c: string, rest: string)
    requires IsToken(c)
    requires |rest| > 0 && !IsCodeSeparator(rest[0])
    ensures SplitCodes(c + " " + rest) == [c] + SplitCodes(rest)
  {
    var s := c + " " + rest;
    assert s == c + (" " + rest);
    FirstSeparatorPrefix(c, " " + rest);
    var t := s[|c|..];
    assert t == " " + rest;
    assert t[1..] == rest;
    assert SeparatorRun(t) == 1;
    assert s[|c| + 1..] == rest;
    assert s[..|c|] == c;
  }

  /** A token in front survives the dropping of blanks. */
  lemma DropBlankToken(c: string, parts: seq<string>)
    requires IsToken(c)
    ensures DropBlank([c] + parts) == [c] + DropBlank(parts)
  {
    CleanBlankIsEmpty(c);
    assert ([c] + parts)[1..] == parts;
  }

  /** Codes written out with one space between them come back as the same codes. */
  lemma {:induction false} TokeniseJoin(codes: seq<string>)
    requires forall k | 0 <= k < |codes| :: IsToken(codes[k])
    ensures Tokenise(Join(codes, " ")) == codes
    decreases |codes|
  {
    if |codes| == 0 {
      assert Trim("") == "";
    } else if |codes| == 1 {
      TokeniseOne(codes[0]);
    } else {
      var c := codes[0];
      var rest := Join(codes[1..], " ");
      assert IsToken(c) && IsToken(codes[1..][0]);
      TokeniseJoin(codes[1..]);
      JoinStartsWithFirst(codes[1..]);
      SplitJoinStep(c, rest);
      DropBlankToken(c, SplitCodes(rest));
      assert codes == [c] + codes[1..];
    }
  }

  /** A run of separators ends where the separators end. */
  lemma {:induction false} SeparatorRunOf(r: string, b: string)
    requires forall i | 0 <= i < |r| :: IsCodeSeparator(r[i])
    requires |b| == 0 || !IsCodeSeparator(b[0])
    ensures SeparatorRun(r + b) == |r|
    decreases |r|
  {
    if |r| == 0 {
      assert r + b == b;
    } else {
      SeparatorRunOf(r[1..], b);
      assert (r + b)[1..] == r[1..] + b;
    }
  }

  /** A piece without separators is split off whole in front of a separator run, and the
      split goes on after the run: the pieces are the text between maximal separator runs. */
  lemma SplitCodesAtRun(a: string, r: string, b: string)
    requires NoSeparator(a)
    requires |r| > 0 && forall i | 0 <= i < |r| :: IsCodeSeparator(r[i])
    requires |b| == 0 || !IsCodeSeparator(b[0])
    ensures SplitCodes(a + r + b) == [a] + SplitCodes(b)
  {
    var s := a + r + b;
    assert s == a + (r + b);
    FirstSeparatorPrefix(a, r + b);
    assert s[..|a|] == a;
    assert s[|a|..] == r + b;
    SeparatorRunOf(r, b);
    assert s[|a| + |r|..] == b;
  }

  /** Text without separators is a single piece. */
  lemma SplitCodesClean(a: string)
    requires NoSeparator(a)
    ensures SplitCodes(a) == [a]
  {
    FirstSeparatorOfClean(a);
    assert a[..|a|] == a;
  }

  /** Leading separators yield an empty piece, which the blank filter drops. */
  lemma TokeniseSkipsRun(t: string)
    requires |t| > 0 && IsCodeSeparator(t[0])
    ensures Tokenise(t) == Tokenise(t[SeparatorRun(t)..])
  {
    assert FirstSeparator(t) == 0;
    assert t[0..] == t;
    assert Trim("") == "";
    DropBlankCons(SplitCodes(t));
  }

  /** A separator in front of the text changes nothing. */
  lemma TokeniseDropsSeparator(t: string)
    requires |t| > 0 && IsCodeSeparator(t[0])
    ensures Tokenise(t) == Tokenise(t[1..])
  {
    TokeniseSkipsRun(t);
    var u := t[1..];
    if |u| > 0 && IsCodeSeparator(u[0]) {
      TokeniseSkipsRun(u);
      assert t[SeparatorRun(t)..] == u[SeparatorRun(u)..];
    } else {
      assert SeparatorRun(t) == 1;
    }
  }

  /** A piece without separators in front of a separator is split off whole. */
  lemma SplitTokenFirst(a: string, t: string)
    requires NoSeparator(a) && |t| > 0 && IsCodeSeparator(t[0])
    ensures SplitCodes(a + t) == [a] + SplitCodes(t[SeparatorRun(t)..])
  {
    FirstSeparatorPrefix(a, t);
    AppendSlices(a, t, SeparatorRun(t));
    SplitCodesUnfold(a + t, |a|, SeparatorRun(t), a, t[SeparatorRun(t)..]);
  }

  /** The pieces of an append, cut where the first part ends. */
  lemma AppendSlices(a: string, t: string, n: nat)
    requires n <= |t|
    ensures (a + t)[..|a|] == a && (a + t)[|a|..] == t && (a + t)[|a| + n..] == t[n..]
  {
  }

  /** One step of the split: the piece before the first separator, then the split of the text
      after the run that separator starts. */
  lemma SplitCodesUnfold(s: string, k: nat, n: nat, head: string, rest: string)
    requires k == FirstSeparator(s) < |s| && n == SeparatorRun(s[k..])
    requires head == s[..k] && rest == s[k + n..]
    ensures SplitCodes(s) == [head] + SplitCodes(rest)
  {
    var ps := SplitCodes(s);
    assert ps[0] == head;
    assert ps[1..] == SplitCodes(rest);
    HeadRest(ps);
  }

  /** A token followed by a separator is the first code, and the rest follows. */
  lemma TokeniseTokenFirst(a: string, c: char, b: string)
    requires IsToken(a) && IsCodeSeparator(c)
    ensures Tokenise(a + [c] + b) == [a] + Tokenise(b)
  {
    var t := [c] + b;
    var rest := t[SeparatorRun(t)..];
    calc {
      Tokenise(a + [c] + b);
      { assert a + [c] + b == a + t; }
      DropBlank(SplitCodes(a + t));
      { SplitTokenFirst(a, t); }
      DropBlank([a] + SplitCodes(rest));
      { DropBlankToken(a, SplitCodes(rest)); }
      [a] + Tokenise(rest);
      { TokeniseSkipsRun(t); TokeniseDropsSeparator(t); assert t[1..] == b; }
      [a] + Tokenise(b);
    }
  }

  /** The code list splits at every separator: the codes of the text on either side of it,
      one after the other. */
  lemma {:induction false} TokeniseAtSeparator(a: string, c: char, b: string)
    requires IsCodeSeparator(c)
    ensures Tokenise(a + [c] + b) == Tokenise(a) + Tokenise(b)
    decreases |a|
  {
    if |a| == 0 {
      TokeniseAtSeparatorEmpty(c, b);
    } else if IsCodeSeparator(a[0]) {
      TokeniseAtSeparator(a[1..], c, b);
      TokeniseAtSeparatorSkip(a, c, b);
    } else {
      var k := FirstSeparator(a);
      assert a[0] == a[..k][0];
      if k == |a| {
        assert a[..k] == a;
        TokeniseTokenFirst(a, c, b);
        TokeniseOne(a);
      } else {
        TokeniseAtSeparator(a[k + 1..], c, b);
        TokeniseAtSeparatorToken(a, k, c, b);
      }
    }
  }

  /** Two codes with a separator between them come out as those two codes. */
  lemma TwoCodes(x: string, c: char, y: string)
    requires IsToken(x) && IsCodeSeparator(c) && IsToken(y)
    ensures Tokenise(x + [c] + y) == [x, y]
  {
    TokeniseAtSeparator(x, c, y);
    TokeniseOne(x);
    TokeniseOne(y);
  }

  /** A comma between two codes keeps them apart. */
  lemma CommaSplitsCodes()
    ensures Tokenise("A,B") == ["A", "B"]
  {
    TwoCodes("A", ',', "B");
    assert "A" + [','] + "B" == "A,B";
  }

  /** `TokeniseAtSeparator` with nothing before the separator. */
  lemma TokeniseAtSeparatorEmpty(c: char, b: string)
    requires IsCodeSeparator(c)
    ensures Tokenise([] + [c] + b) == Tokenise([]) + Tokenise(b)
  {
    TokeniseEmpty();
    TailOfThree([c], c, b);
    TokeniseDropsSeparator([c] + b);
  }

  /** The empty search text has no codes. */
  lemma TokeniseEmpty()
    ensures Tokenise([]) == []
  {
    assert Trim("") == "";
  }

  /** `TokeniseAtSeparator` for a text that starts with a separator, from the text after it. */
  lemma TokeniseAtSeparatorSkip(a: string, c: char, b: string)
    requires IsCodeSeparator(c) && |a| > 0 && IsCodeSeparator(a[0])
    requires Tokenise(a[1..] + [c] + b) == Tokenise(a[1..]) + Tokenise(b)
    ensures Tokenise(a + [c] + b) == Tokenise(a) + Tokenise(b)
  {
    var s := a + [c] + b;
    TailOfThree(a, c, b);
    TokeniseDropsSeparator(s);
    TokeniseDropsSeparator(a);
  }

  lemma AroundIndex(a: string, k: nat, c: char, b: string)
    requires k < |a|
    ensures a == a[..k] + [a[k]] + a[k + 1..]
    ensures a + [c] + b == a[..k] + [a[k]] + (a[k + 1..] + [c] + b)
  {
    assert a == a[..k] + [a[k]] + a[k + 1..];
  }

  lemma TailOfThree(a: string, c: char, b: string)
    requires |a| > 0
    ensures (a + [c] + b)[1..] == a[1..] + [c] + b
    ensures [] + [c] + b == [c] + b && ([c] + b)[1..] == b
  {
  }

  /** `TokeniseAtSeparator` for a text whose first piece is a token, from the text after the
      separator that ends it. */
  lemma TokeniseAtSeparatorToken(a: string, k: nat, c: char, b: string)
    requires IsCodeSeparator(c) && 0 < k < |a|
    requires NoSeparator(a[..k]) && IsCodeSeparator(a[k])
    requires Tokenise(a[k + 1..] + [c] + b) == Tokenise(a[k + 1..]) + Tokenise(b)
    ensures Tokenise(a + [c] + b) == Tokenise(a) + Tokenise(b)
  {
    AroundIndex(a, k, c, b);
    TokenFirstThenSeparator(a[..k], a[k], a[k + 1..], c, b);
  }

  /** The same, with the text given as the token, its separator and the rest. */
  lemma TokenFirstThenSeparator(x: string, d: char, y: string, c: char, b: string)
    requires IsToken(x) && IsCodeSeparator(d) && IsCodeSeparator(c)
    requires Tokenise(y + [c] + b) == Tokenise(y) + Tokenise(b)
    ensures Tokenise(x + [d] + (y + [c] + b)) == Tokenise(x + [d] + y) + Tokenise(b)
  {
    TokeniseTokenFirst(x, d, y + [c] + b);
    TokeniseTokenFirst(x, d, y);
    ConsAppend(x, Tokenise(y), Tokenise(b));
  }

  lemma ConsAppend<T>(x: T, p: seq<T>, q: seq<T>)
    ensures [x] + (p + q) == ([x] + p) + q
  {
  }

  // ---------------------------------------------------------------------------------------
  // Dispatch

  datatype Language = En | Zh

  datatype SearchMode = Code | Discovery

  /** What `handleSearch` does with the search box. */
  datatype SearchAction =
    | Ignore
    | AnalyseImage(text: string, image: string)
    | Discover(theme: string)
    | Analyse(codes: seq<string>)

  /** A present, non-empty value, as `if (selectedImage)` tests it. */
  predicate Given(v: Option<string>) {
    v.Some? && v.value != ""
  }

  /** `handleSearch`: nothing for blank input without image; an image wins over everything and
      goes with the raw text; discovery mode sends the raw text as a theme; otherwise the codes
      of the box, unless there are none. */
  function HandleSearch(stockCode: string, image: Option<string>, mode: SearchMode)
    : (a: SearchAction)
    ensures a.Ignore? <==> (!Given(image) && (AllSpace(stockCode) ||
                                              (mode == Code && Tokenise(stockCode) == [])))
    ensures a.AnalyseImage? <==> Given(image)
    ensures a.AnalyseImage? ==> a.text == stockCode && a.image == image.value
    ensures a.Discover? ==> mode == Discovery && a.theme == stockCode && !AllSpace(stockCode)
    ensures a.Analyse? ==> mode == Code && a.codes == Tokenise(stockCode) && a.codes != []
  {
    if Trim(stockCode) == "" && !Given(image) then Ignore
    else if Given(image) then AnalyseImage(stockCode, image.value)
    else if mode == Discovery then Discover(stockCode)
    else
      var codes := Tokenise(stockCode);
      if codes == [] then
        assert !Given(image) && mode == Code && Tokenise(stockCode) == [];
        Ignore
      else
        assert mode == Code;
        assert codes != [];
        Analyse(codes)
  }

  /** After discovery: no codes found falls back to a single analysis of the theme text. */
  function AfterDiscovery(theme: string, discovered: seq<string>): (codes: seq<string>)
    ensures codes != []
    ensures discovered == [] ==> codes == [theme]
    ensures discovered != [] ==> codes == discovered
  {
    if |discovered| == 0 then [theme] else discovered
  }

  /** `codes.length > 1 && !imageBase64` */
  predicate IsBatchRequest(codes: seq<string>, image: Option<string>) {
    |codes| > 1 && !Given(image)
  }

  /** How `runAnalysis` proceeds. */
  datatype Run = Batch(codes: seq<string>) | Single(symbol: string, image: Option<string>)

  /** `runAnalysis`: a batch for several codes without image, else a single analysis of the
      first code, or of the image label when that code is missing or empty. */
  function RunAnalysis(codes: seq<string>, image: Option<string>, lang: Language): (r: Run)
    ensures r.Batch? <==> |codes| > 1 && !Given(image)
    ensures r.Batch? ==> r.codes == codes
    ensures r.Single? && |codes| > 0 && codes[0] != "" ==> r.symbol == codes[0]
    ensures r.Single? ==> r.symbol != ""
    ensures r.Single? && (|codes| == 0 || codes[0] == "") ==>
              r.symbol == (if lang == Zh then "图片分析" else "Image Analysis")
    ensures r.Single? ==> r.image == image
  {
    if IsBatchRequest(codes, image) then Batch(codes)
    else
      var first := if |codes| > 0 then codes[0] else "";
      Single(if first != "" then first
             else if lang == Zh then "图片分析" else "Image Analysis", image)
  }

  /** An image always forces a single analysis, whatever the codes. */
  lemma ImageForcesSingle(stockCode: string, image: Option<string>, mode: SearchMode,
                          lang: Language)
    requires Given(image)
    ensures var a := HandleSearch(stockCode, image, mode);
            a.AnalyseImage? && RunAnalysis([a.text], image, lang).Single?
  {
  }

  // ---------------------------------------------------------------------------------------
  // Batch signal colour

  datatype Tone = Neutral | Bullish | Bearish | Hold

  /** `getBatchSignalColor`: the upper-cased signal is tested for BUY, then SELL, then HOLD. */
  function BatchSignalTone(sig: string): (t: Tone)
    ensures sig == "" ==> t == Neutral
    ensures t == Bullish <==> sig != "" && Contains(ToUpperAscii(sig), "BUY")
    ensures t == Bearish <==> sig != "" && !Contains(ToUpperAscii(sig), "BUY") &&
                              Contains(ToUpperAscii(sig), "SELL")
    ensures t == Hold <==> sig != "" && !Contains(ToUpperAscii(sig), "BUY") &&
                              !Contains(ToUpperAscii(sig), "SELL") &&
                              Contains(ToUpperAscii(sig), "HOLD")
  {
    if sig == "" then Neutral
    else
      var s := ToUpperAscii(sig);
      if Contains(s, "BUY") then Bullish
      else if Contains(s, "SELL") then Bearish
      else if Contains(s, "HOLD") then Hold
      else Neutral
  }

  /** Upper-casing twice is upper-casing once. */
  lemma ToUpperAsciiIdempotent(s: string)
    ensures ToUpperAscii(ToUpperAscii(s)) == ToUpperAscii(s)
  {
  }

  /** The colour does not depend on the letter case of the signal. */
  lemma BatchSignalToneIgnoresCase(sig: string)
    ensures BatchSignalTone(ToUpperAscii(sig)) == BatchSignalTone(sig)
  {
    ToUpperAsciiIdempotent(sig);
  }

  /** A signal mentioning both words counts as a buy: the BUY test comes first. */
  lemma MixedSignalIsBullish()
    ensures BatchSignalTone("sell, then buy") == Bullish
  {
    var u := ToUpperAscii("sell, then buy");
    assert u == "SELL, THEN BUY";
    assert OccursAt(u, 11, "BUY");
    ContainsIff(u, "BUY");
  }

  // ---------------------------------------------------------------------------------------
  // Batch cache

  /** `item.code === code` on a non-null row: only an object with that string code matches. */
  predicate RowHasCode(row: Json, code: string) {
    row.JObj? && "code" in row.fields && row.fields["code"] == JStr(code)
  }

  /** The new batch rows: the matching rows replaced, or the TypeError of reading `code` off a
      null row. */
  function ReplaceRows(rows: seq<Json>, code: string, updated: Json): (r: Result<seq<Json>>)
    ensures r.Err? <==> HasNull(rows)
    ensures r.Ok? ==> |r.value| == |rows|
    ensures r.Ok? ==> forall k | 0 <= k < |rows| ::
                        r.value[k] == (if RowHasCode(rows[k], code) then updated else rows[k])
  {
    if HasNull(rows) then Err(NullRowError)
    else Ok(seq(|rows|, k requires 0 <= k < |rows| =>
                          if RowHasCode(rows[k], code) then updated else rows[k]))
  }

  /** `saveEditPrice`'s cache updater: no cache, or a cache without batch rows, is returned as
      it is; otherwise its rows are replaced and the rest of the record kept. */
  function UpdateCache(cache: Option<Analysis>, code: string, updated: Json)
    : (r: Result<Option<Analysis>>)
    ensures cache.None? || cache.value.batchData.None? ==> r == Ok(cache)
    ensures cache.Some? && cache.value.batchData.Some? ==>
              match ReplaceRows(cache.value.batchData.value, code, updated)
              case Err(e) => r == Err(e)
              case Ok(rows) => r == Ok(Some(cache.value.(batchData := Some(rows))))
  {
    if cache.None? || cache.value.batchData.None? then Ok(cache)
    else
      match ReplaceRows(cache.value.batchData.value, code, updated)
      case Err(e) => Err(e)
      case Ok(rows) => Ok(Some(cache.value.(batchData := Some(rows))))
  }

  /** Re-analysing a code absent from the table changes nothing. */
  lemma ReplaceAbsentCode(rows: seq<Json>, code: string, updated: Json)
    requires !HasNull(rows)
    requires forall k | 0 <= k < |rows| :: !RowHasCode(rows[k], code)
    ensures ReplaceRows(rows, code, updated) == Ok(rows)
  {
    assert ReplaceRows(rows, code, updated).value == rows;
  }

  // ---------------------------------------------------------------------------------------
  // Names from a batch

  const NullRowError := "TypeError: Cannot read properties of null (reading 'code')"

  /** `batchData.find(b => b.code === code)`: the first row with that code, or the TypeError of
      a null row met before one is found. */
  function FindRow(rows: seq<Json>, code: string): (r: Result<Option<Json>>)
    ensures r.Err? ==> HasNull(rows)
    ensures r.Ok? && r.value.Some? ==> RowHasCode(r.value.value, code)
    ensures r == Ok(None) <==> forall k | 0 <= k < |rows| :: !rows[k].JNull? && !RowHasCode(rows[k], code)
  {
    if |rows| == 0 then Ok(None)
    else if rows[0].JNull? then Err(NullRowError)
    else if RowHasCode(rows[0], code) then Ok(Some(rows[0]))
    else
      var r := FindRow(rows[1..], code);
      assert forall k | 1 <= k < |rows| :: rows[k] == rows[1..][k - 1];
      r
  }

  /** The first matching row is found when every row before it is neither null nor a match. */
  lemma {:induction false} FindRowFirst(rows: seq<Json>, code: string, k: nat)
    requires k < |rows| && RowHasCode(rows[k], code)
    requires forall j | 0 <= j < k :: !rows[j].JNull? && !RowHasCode(rows[j], code)
    ensures FindRow(rows, code) == Ok(Some(rows[k]))
    decreases k
  {
    if k > 0 {
      FindRowFirst(rows[1..], code, k - 1);
    }
  }

  /** A row's `name` as the updater takes it: a non-empty string. */
  function RowName(row: Json): (n: Option<string>)
    ensures n.Some? <==> row.JObj? && "name" in row.fields && row.fields["name"].JStr? &&
                         row.fields["name"].s != ""
    ensures n.Some? ==> row.fields["name"] == JStr(n.value)
  {
    if row.JObj? && "name" in row.fields && row.fields["name"].JStr? && row.fields["name"].s != ""
    then Some(row.fields["name"].s) else None
  }

  /** One entry after the batch: renamed when its row carries a name. */
  function Rename(p: PortfolioItem, found: Option<Json>): PortfolioItem {
    if found.Some? && RowName(found.value).Some? then p.(name := RowName(found.value)) else p
  }

  /** The portfolio updater run after a batch: every entry whose code has a row with a name takes
      that name; nothing else about an entry changes. A null row before a match throws. */
  function NameFromBatch(items: seq<PortfolioItem>, rows: seq<Json>)
    : (r: Result<seq<PortfolioItem>>)
    ensures r.Err? <==> exists k | 0 <= k < |items| :: FindRow(rows, items[k].code).Err?
    ensures r.Ok? ==> |r.value| == |items|
    ensures r.Ok? ==> forall k | 0 <= k < |items| ::
                        r.value[k].(name := items[k].name) == items[k]
    ensures r.Ok? ==> forall k | 0 <= k < |items| ::
                        r.value[k].name == items[k].name ||
                        exists j | 0 <= j < |rows| ::
                          RowHasCode(rows[j], items[k].code) && r.value[k].name == RowName(rows[j])
    ensures r.Ok? ==> forall k | 0 <= k < |items| ::
                        var found := FindRow(rows, items[k].code);
                        found.Ok? &&
                        (found.value.Some? && RowName(found.value.value).Some? ==>
                           r.value[k].name == RowName(found.value.value)) &&
                        (found.value.None? || RowName(found.value.value).None? ==>
                           r.value[k].name == items[k].name)
  {
    if exists k | 0 <= k < |items| :: FindRow(rows, items[k].code).Err? then Err(NullRowError)
    else
      var out := seq(|items|, k requires 0 <= k < |items| =>
                                Rename(items[k], FindRow(rows, items[k].code).value));
      forall k | 0 <= k < |items|
        ensures out[k].name == items[k].name ||
                exists j | 0 <= j < |rows| ::
                  RowHasCode(rows[j], items[k].code) && out[k].name == RowName(rows[j])
      {
        RenameFromARow(items[k], rows);
      }
      Ok(out)
  }

  /** An entry takes the name of the first row carrying its code, when no null row comes
      before that row and the row has a name. */
  lemma NameFromFirstMatch(items: seq<PortfolioItem>, rows: seq<Json>, k: nat, j: nat)
    requires NameFromBatch(items, rows).Ok?
    requires k < |items| && j < |rows|
    requires RowHasCode(rows[j], items[k].code) && RowName(rows[j]).Some?
    requires forall i | 0 <= i < j :: !rows[i].JNull? && !RowHasCode(rows[i], items[k].code)
    ensures NameFromBatch(items, rows).value[k].name == RowName(rows[j])
  {
    FindRowFirst(rows, items[k].code, j);
  }

  /** An entry keeps its name or takes the name of a row with its code. */
  lemma RenameFromARow(p: PortfolioItem, rows: seq<Json>)
    requires FindRow(rows, p.code).Ok?
    ensures var q := Rename(p, FindRow(rows, p.code).value);
            q.name == p.name ||
            exists j | 0 <= j < |rows| :: RowHasCode(rows[j], p.code) && q.name == RowName(rows[j])
  {
    var f := FindRow(rows, p.code).value;
    if f.Some? && RowName(f.value).Some? {
      var j := FoundIsARow(rows, p.code);
      assert RowHasCode(rows[j], p.code);
    }
  }

  /** A row `find` returns is one of the rows. */
  lemma {:induction false} FoundIsARow(rows: seq<Json>, code: string) returns (j: nat)
    requires FindRow(rows, code).Ok? && FindRow(rows, code).value.Some?
    ensures j < |rows| && rows[j] == FindRow(rows, code).value.value
  {
    if rows[0].JNull? || RowHasCode(rows[0], code) {
      j := 0;
    } else {
      var i := FoundIsARow(rows[1..], code);
      j := i + 1;
    }
  }

  /** Naming twice from the same batch names nothing new: the update is idempotent. */
  lemma NameFromBatchIdempotent(items: seq<PortfolioItem>, rows: seq<Json>)
    requires NameFromBatch(items, rows).Ok?
    ensures NameFromBatch(NameFromBatch(items, rows).value, rows) == NameFromBatch(items, rows)
  {
    var once := NameFromBatch(items, rows).value;
    assert forall k | 0 <= k < |items| :: once[k].code == items[k].code by {
      forall k | 0 <= k < |items| ensures once[k].code == items[k].code {
        assert once[k].(name := items[k].name) == items[k];
      }
    }
    var twice := NameFromBatch(once, rows);
    assert twice.Ok?;
    assert twice.value == once;
  }

  /** Naming keeps the codes, so a portfolio without duplicates stays without. */
  lemma NameFromBatchKeepsUnique(items: seq<PortfolioItem>, rows: seq<Json>)
    requires UniqueCodes(items) && NameFromBatch(items, rows).Ok?
    ensures UniqueCodes(NameFromBatch(items, rows).value)
  {
    var once := NameFromBatch(items, rows).value;
    forall k | 0 <= k < |items| ensures once[k].code == items[k].code {
      assert once[k].(name := items[k].name) == items[k];
    }
  }

  // ---------------------------------------------------------------------------------------
  // Follow-up chat

  datatype Role = User | Model

  datatype ChatMessage = ChatMessage(role: Role, content: string, timestamp: string)

  /** `customText || followUpInput`, refused when blank; the chat session must exist. */
  function FollowUpText(custom: Option<string>, input: string, hasSession: bool): (r: Option<string>)
    ensures r.Some? ==> hasSession && !AllSpace(r.value)
    ensures r.Some? ==> r.value == (if Given(custom) then custom.value else input)
    ensures hasSession && !AllSpace(if Given(custom) then custom.value else input) ==> r.Some?
  {
    var text := if Given(custom) then custom.value else input;
    if Trim(text) == "" || !hasSession then None else Some(text)
  }

  /** The two updaters run before streaming: the question, then an empty answer to fill. */
  function OpenFollowUp(history: seq<ChatMessage>, question: string, now: string)
    : (h: seq<ChatMessage>)
    ensures |h| == |history| + 2 && h[..|history|] == history
    ensures h[|history|] == ChatMessage(User, question, now)
    ensures h[|history| + 1] == ChatMessage(Model, "", now)
  {
    history + [ChatMessage(User, question, now)] + [ChatMessage(Model, "", now)]
  }

  /** The stream callback's updater: the last message gets the text, only if the model wrote
      it. */
  function StreamUpdate(history: seq<ChatMessage>, text: string): (h: seq<ChatMessage>)
    ensures |h| == |history|
    ensures forall k | 0 <= k < |history| - 1 :: h[k] == history[k]
    ensures |history| > 0 && history[|history| - 1].role == Model ==>
              h[|history| - 1] == history[|history| - 1].(content := text)
    ensures |history| == 0 || history[|history| - 1].role != Model ==> h == history
  {
    if |history| > 0 && history[|history| - 1].role == Model then
      history[|history| - 1 := history[|history| - 1].(content := text)]
    else history
  }

  /** The callback applied to each streamed value in turn. */
  function ApplyUpdates(history: seq<ChatMessage>, updates: seq<string>): (h: seq<ChatMessage>)
    ensures |h| == |history|
    ensures forall k | 0 <= k < |history| - 1 :: h[k] == history[k]
    ensures forall k | 0 <= k < |history| :: h[k].role == history[k].role
    decreases |updates|
  {
    if |updates| == 0 then history
    else ApplyUpdates(StreamUpdate(history, updates[0]), updates[1..])
  }

  /** After streaming, the answer placeholder holds the last streamed value and nothing else
      has moved. */
  lemma {:induction false} StreamingFillsPlaceholder(history: seq<ChatMessage>, updates: seq<string>)
    requires |history| > 0 && history[|history| - 1].role == Model
    requires |updates| > 0
    ensures var h := ApplyUpdates(history, updates);
            h[..|history| - 1] == history[..|history| - 1] &&
            h[|history| - 1] == history[|history| - 1].(content := updates[|updates| - 1])
    decreases |updates|
  {
    var next := StreamUpdate(history, updates[0]);
    assert next[..|history| - 1] == history[..|history| - 1];
    if |updates| > 1 {
      StreamingFillsPlaceholder(next, updates[1..]);
    }
  }

  /** A whole follow-up: the answer ends as the complete reply of the stream, right after the
      question; a stream without text leaves the placeholder empty. */
  method FollowUpExchange(history: seq<ChatMessage>, question: string, now: string,
                          chunks: seq<Chunk>)
    returns (h: seq<ChatMessage>)
    ensures |h| == |history| + 2 && h[..|history|] == history
    ensures h[|history|] == ChatMessage(User, question, now)
    ensures h[|history| + 1] == ChatMessage(Model, Concat(Texts(chunks)), now)
  {
    var asked := OpenFollowUp(history, question, now);
    var reply, updates := SendFollowUp(chunks);
    h := ApplyUpdates(asked, updates);
    if |updates| > 0 {
      StreamingFillsPlaceholder(asked, updates);
      assert h[..|history|] == h[..|asked| - 1][..|history|];
    }
  }

  /** The error path: `prev.filter(m => m.content !== '')` */
  function DropEmpty(history: seq<ChatMessage>): (h: seq<ChatMessage>)
    ensures |h| <= |history|
    ensures forall k | 0 <= k < |h| :: h[k].content != ""
    ensures forall k | 0 <= k < |h| :: h[k] in history
    ensures forall k | 0 <= k < |history| && history[k].content != "" :: history[k] in h
  {
    if |history| == 0 then []
    else (if history[0].content != "" then [history[0]] else []) + DropEmpty(history[1..])
  }

  /** Dropping empty messages keeps the others, in order. */
  lemma {:induction false} DropEmptyAppend(a: seq<ChatMessage>, b: seq<ChatMessage>)
    ensures DropEmpty(a + b) == DropEmpty(a) + DropEmpty(b)
    decreases |a|
  {
    if |a| == 0 {
      assert a + b == b;
    } else {
      var ab := a + b;
      var x, rest := a[0], a[1..];
      var h := if x.content != "" then [x] else [];
      HeadTail(a, b, []);
      calc {
        DropEmpty(ab);
        { DropEmptyCons(ab); }
        h + DropEmpty(rest + b);
        { DropEmptyAppend(rest, b); }
        h + (DropEmpty(rest) + DropEmpty(b));
        { AppendAssoc(h, DropEmpty(rest), DropEmpty(b)); }
        (h + DropEmpty(rest)) + DropEmpty(b);
        { DropEmptyCons(a); }
        DropEmpty(a) + DropEmpty(b);
      }
    }
  }

  lemma DropEmptyCons(s: seq<ChatMessage>)
    requires |s| > 0
    ensures DropEmpty(s) == (if s[0].content != "" then [s[0]] else []) + DropEmpty(s[1..])
  {
  }

  /** A failure before any text arrived takes the empty placeholder away again, and with it any
      earlier empty message, but keeps the question. */
  lemma FailedFollowUpDropsPlaceholder(history: seq<ChatMessage>, question: string, now: string)
    requires question != ""
    ensures DropEmpty(OpenFollowUp(history, question, now))
         == DropEmpty(history) + [ChatMessage(User, question, now)]
  {
    var q := ChatMessage(User, question, now);
    var p := ChatMessage(Model, "", now);
    calc {
      DropEmpty(history + [q] + [p]);
      { AppendAssoc(history, [q], [p]); }
      DropEmpty(history + ([q] + [p]));
      { DropEmptyAppend(history, [q] + [p]); }
      DropEmpty(history) + DropEmpty([q] + [p]);
      { DropEmptyAppend([q], [p]); DropEmptyCons([q]); DropEmptyCons([p]); }
      DropEmpty(history) + [q];
    }
  }

  /** A failure after text arrived keeps the partial answer: the placeholder holds the last
      streamed text, which is not empty, so the filter leaves it with the question. */
  lemma FailedFollowUpKeepsPartial(history: seq<ChatMessage>, question: string, now: string,
                                   updates: seq<string>)
    requires question != ""
    requires |updates| > 0 && updates[|updates| - 1] != ""
    ensures DropEmpty(ApplyUpdates(OpenFollowUp(history, question, now), updates))
         == DropEmpty(history)
            + [ChatMessage(User, question, now), ChatMessage(Model, updates[|updates| - 1], now)]
  {
    var q := ChatMessage(User, question, now);
    var a := ChatMessage(Model, updates[|updates| - 1], now);
    StreamedExchange(history, question, now, updates);
    DropEmptyTwo(history, q, a);
  }

  /** After streaming, a follow-up is the history, the question, and the answer holding the
      last streamed text. */
  lemma StreamedExchange(history: seq<ChatMessage>, question: string, now: string,
                         updates: seq<string>)
    requires |updates| > 0
    ensures ApplyUpdates(OpenFollowUp(history, question, now), updates)
         == history + [ChatMessage(User, question, now)]
            + [ChatMessage(Model, updates[|updates| - 1], now)]
  {
    var asked := OpenFollowUp(history, question, now);
    var h := ApplyUpdates(asked, updates);
    StreamingFillsPlaceholder(asked, updates);
    assert asked[..|asked| - 1] == history + [ChatMessage(User, question, now)];
    assert h == h[..|asked| - 1] + [h[|asked| - 1]];
  }

  /** Two messages with text survive the filter behind what is left of the history. */
  lemma DropEmptyTwo(history: seq<ChatMessage>, q: ChatMessage, a: ChatMessage)
    requires q.content != "" && a.content != ""
    ensures DropEmpty(history + [q] + [a]) == DropEmpty(history) + [q, a]
  {
    calc {
      DropEmpty(history + [q] + [a]);
      { DropEmptyAppend(history + [q], [a]); }
      DropEmpty(history + [q]) + DropEmpty([a]);
      { DropEmptyAppend(history, [q]); }
      (DropEmpty(history) + DropEmpty([q])) + DropEmpty([a]);
      { DropEmptyOne(q); DropEmptyOne(a); }
      DropEmpty(history) + [q, a];
    }
  }

  /** A single message stays exactly when it is not empty. */
  lemma DropEmptyOne(m: ChatMessage)
    ensures DropEmpty([m]) == if m.content != "" then [m] else []
  {
    DropEmptyCons([m]);
    assert [m][1..] == [];
  }
}
