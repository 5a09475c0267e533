/** The parts of JavaScript's String.prototype that the application relies on, over
    `seq<char>`: whitespace as ECMAScript defines it (the set `trim` removes and regex `\s`
    matches), `indexOf`/`lastIndexOf`/`includes`/`startsWith`, first-occurrence `replace` with a
    string pattern, `split` with a string separator, `substring` with its argument swap, and
    `join`. */
module JsString {

  /** ECMAScript LineTerminator: the characters regex `.` does not match and `$` (multiline)
      stops before. */
  predicate IsLineTerminator(c: char) {
    c == '\n' || c == '\r' || c == '\U{2028}' || c == '\U{2029}'
  }

  /** ECMAScript WhiteSpace plus LineTerminator: what `String.prototype.trim` strips and what the
      regex class `\s` matches. */
  predicate IsSpace(c: char) {
    || c == '\t' || c == '\U{000B}' || c == '\U{000C}' || c == ' ' || c == '\U{00A0}'
    || c == '\U{FEFF}' || c == '\U{1680}' || ('\U{2000}' <= c <= '\U{200A}')
    || c == '\U{202F}' || c == '\U{205F}' || c == '\U{3000}'
    || IsLineTerminator(c)
  }

  predicate AllSpace(s: string) {
    forall i | 0 <= i < |s| :: IsSpace(s[i])
  }

  /** `s.trimStart()` */
  function TrimStart(s: string): (r: string)
    ensures |r| <= |s| && r == s[|s| - |r|..]
    ensures AllSpace(s[..|s| - |r|])
    ensures |r| > 0 ==> !IsSpace(r[0])
    ensures SpaceAround(s, |s| - |r|, r)
  {
    if |s| > 0 && IsSpace(s[0]) then TrimStart(s[1..]) else s
  }

  /** `s.trimEnd()` */
  function TrimEnd(s: string): (r: string)
    ensures |r| <= |s| && r == s[..|r|]
    ensures AllSpace(s[|r|..])
    ensures |r| > 0 ==> !IsSpace(r[|r| - 1])
    ensures SpaceAround(s, 0, r)
  {
    if |s| > 0 && IsSpace(s[|s| - 1]) then TrimEnd(s[..|s| - 1]) else s
  }

  /** `s.trim()`: the result is a piece of the input with only white space around it and none
      at either of its own ends; it is empty exactly when the input is all white space, and text
      without white space at its ends is left alone. */
  function Trim(s: string): (r: string)
    ensures |r| <= |s|
    ensures exists i :: SpaceAround(s, i, r)
    ensures |r| > 0 ==> !IsSpace(r[0]) && !IsSpace(r[|r| - 1])
    ensures r == [] <==> AllSpace(s)
    ensures (|s| == 0 || (!IsSpace(s[0]) && !IsSpace(s[|s| - 1]))) ==> r == s
  {
    TrimEnds(s);
    TrimBlank(s);
    var t := TrimStart(s);
    SpaceAroundNested(s, |s| - |t|, t, TrimEnd(t));
    TrimEnd(t)
  }

  /** `r` occurs in `s` at index `i` with only white space before and after it. */
  predicate SpaceAround(s: string, i: int, r: string) {
    0 <= i <= |s| - |r| && r == s[i..i + |r|] && AllSpace(s[..i]) && AllSpace(s[i + |r|..])
  }

  /** A piece with white space around it, inside a piece with white space around it. */
  lemma SpaceAroundNested(s: string, i: int, t: string, r: string)
    requires SpaceAround(s, i, t) && SpaceAround(t, 0, r)
    ensures SpaceAround(s, i, r)
  {
    assert s[..i + |t|] == s[..i] + t;
    assert s[i + |r|..] == t[|r|..] + s[i + |t|..];
  }

  lemma TrimEnds(s: string)
    ensures var r := TrimEnd(TrimStart(s));
            |r| > 0 ==> !IsSpace(r[0]) && !IsSpace(r[|r| - 1])
  {
    var t := TrimStart(s);
    var r := TrimEnd(t);
    if |r| > 0 {
      assert r[0] == t[0];
    }
  }

  lemma TrimBlank(s: string)
    ensures TrimEnd(TrimStart(s)) == [] <==> AllSpace(s)
  {
    var t := TrimStart(s);
    var k := |s| - |t|;
    var r := TrimEnd(t);
    if r == [] {
      assert AllSpace(t) by { assert t[|r|..] == t; }
      assert t == [];
      assert s[..k] == s;
    }
  }

  predicate StartsWith(s: string, prefix: string) {
    |prefix| <= |s| && s[..|prefix|] == prefix
  }

  lemma FirstCharDecides(s: string, prefix: string)
    requires |prefix| > 0
    ensures StartsWith(s, prefix) ==> |s| > 0 && s[0] == prefix[0]
  {
    if StartsWith(s, prefix) {
      assert s[..|prefix|][0] == s[0];
    }
  }

  /** Any character of a prefix decides as the first one does. */
  lemma CharDecides(s: string, prefix: string, i: nat)
    requires i < |prefix|
    ensures StartsWith(s, prefix) ==> i < |s| && s[i] == prefix[i]
  {
    if StartsWith(s, prefix) {
      assert s[..|prefix|][i] == s[i];
    }
  }

  /** `pat` occurs in `s` starting at index `i`. */
  predicate OccursAt(s: string, i: int, pat: string) {
    0 <= i && i + |pat| <= |s| && s[i..i + |pat|] == pat
  }

  /** `s.indexOf(pat, from)`: the first occurrence at or after `from`, or -1. */
  function Find(s: string, pat: string, from: nat): (r: int)
    requires from <= |s|
    ensures r == -1 || (from <= r && OccursAt(s, r, pat))
    ensures forall i | from <= i && (r == -1 || i < r) :: !OccursAt(s, i, pat)
    decreases |s| - from
  {
    if OccursAt(s, from, pat) then from
    else if from == |s| then -1
    else Find(s, pat, from + 1)
  }

  /** The first occurrence at or after `from` is what `Find` reports. */
  lemma {:induction false} FindAt(s: string, pat: string, from: nat, n: nat)
    requires from <= n <= |s|
    requires OccursAt(s, n, pat)
    requires forall i | from <= i < n :: !OccursAt(s, i, pat)
    ensures Find(s, pat, from) == n
    decreases n - from
  {
    if from < n {
      FindAt(s, pat, from + 1, n);
    }
  }

  /** A two-character pattern whose characters differ, placed after a text free of it, is
      first found right there: it cannot begin inside the text, nor on the text's last
      character. */
  lemma FindAfterFree(p: string, c: string, pat: string, q: string)
    requires |pat| == 2 && pat[0] != pat[1]
    requires Find(c, pat, 0) == -1
    ensures Find(p + c + pat + q, pat, |p|) == |p| + |c|
  {
    var u, n := p + c + pat + q, |p| + |c|;
    assert u[n..n + 2] == pat;
    forall i | |p| <= i < n ensures !OccursAt(u, i, pat) {
      if i + 1 < n {
        assert u[i..i + 2] == c[i - |p|..i - |p| + 2];
        assert !OccursAt(c, i - |p|, pat);
      } else {
        assert u[i + 1] == pat[0];
      }
    }
    FindAt(u, pat, |p|, n);
  }

  /** The first and the last of four concatenated pieces are recovered by slicing. */
  lemma FourPieces<T>(w: seq<T>, x: seq<T>, y: seq<T>, z: seq<T>)
    ensures (w + x + y + z)[..|w|] == w
    ensures (w + x + y + z)[|w| + |x| + |y|..] == z
  {
    var u := w + x + y + z;
    assert u == w + (x + y + z);
    assert u == (w + x + y) + z;
  }

  /** `s.indexOf(pat)` */
  function IndexOf(s: string, pat: string): int {
    Find(s, pat, 0)
  }

  /** `s.includes(pat)` */
  predicate Contains(s: string, pat: string) {
    IndexOf(s, pat) >= 0
  }

  lemma ContainsIff(s: string, pat: string)
    ensures Contains(s, pat) <==> exists i :: OccursAt(s, i, pat)
  {
  }

  /** Occurrences after the first character of `[c] + t` are occurrences in `t`. */
  lemma OccursAtShift(c: char, t: string, pat: string)
    ensures forall i | 1 <= i :: OccursAt([c] + t, i, pat) <==> OccursAt(t, i - 1, pat)
  {
    forall i | 1 <= i
      ensures OccursAt([c] + t, i, pat) <==> OccursAt(t, i - 1, pat)
    {
      if i + |pat| <= |[c] + t| {
        assert ([c] + t)[i..i + |pat|] == t[i - 1..i - 1 + |pat|];
      }
    }
  }

  lemma AppendAssoc<T>(x: seq<T>, y: seq<T>, z: seq<T>)
    ensures x + (y + z) == (x + y) + z
  {
  }

  /** Taking the last element off a concatenation whose right part is not empty. */
  lemma InitLast<T>(a: seq<T>, b: seq<T>)
    requires |b| > 0
    ensures (a + b)[..|a + b| - 1] == a + b[..|b| - 1]
    ensures (a + b)[|a + b| - 1] == b[|b| - 1]
  {
  }

  /** A non-empty sequence is its first element followed by the rest. */
  lemma HeadRest<T>(s: seq<T>)
    requires |s| > 0
    ensures s == [s[0]] + s[1..]
  {
  }

  /** Taking the first element off a concatenation whose left part is not empty. */
  lemma HeadTail<T>(t: seq<T>, u: seq<T>, r: seq<T>)
    requires |t| > 0
    ensures (t + u)[0] == t[0] && (t + u)[1..] == t[1..] + u
    ensures [t[0]] + (t[1..] + r) == t + r
  {
    assert t == [t[0]] + t[1..];
  }

  /** A sequence is what comes before position `k`, the element there, and what follows. */
  lemma CutAround<T>(s: seq<T>, k: nat)
    requires k < |s|
    ensures s == s[..k] + ([s[k]] + s[k + 1..])
  {
    assert s == s[..k] + s[k..];
  }

  /** The outer pieces of a three-piece concatenation are recovered by slicing. */
  lemma OuterPieces<T>(x: seq<T>, y: seq<T>, z: seq<T>)
    ensures (x + y + z)[..|x|] == x
    ensures (x + y + z)[|x| + |y|..] == z
  {
    var u := x + y + z;
    assert u == x + (y + z);
  }

  /** A prefix cut at four places is its five parts put together. */
  lemma CutFive<T>(t: seq<T>, i: nat, j: nat, k: nat, l: nat, m: nat)
    requires i <= j <= k <= l <= m <= |t|
    ensures t[..m] == t[..i] + t[i..j] + t[j..k] + t[k..l] + t[l..m]
  {
    PrefixSplit(t, l, m);
    PrefixSplit(t, k, l);
    PrefixSplit(t, j, k);
    PrefixSplit(t, i, j);
  }

  /** A prefix cut at one place is its two parts put together. */
  lemma PrefixSplit<T>(t: seq<T>, a: nat, b: nat)
    requires a <= b <= |t|
    ensures t[..b] == t[..a] + t[a..b]
  {
    assert t[..b] == t[..b][..a] + t[..b][a..];
  }

  /** A sequence cut at `k` and at `k + n` is its three parts put together. */
  lemma CutThree<T>(s: seq<T>, k: nat, n: nat)
    requires k + n <= |s|
    ensures s[k..] == s[k..k + n] + s[k + n..]
    ensures s == s[..k] + s[k..k + n] + s[k + n..]
  {
    assert s == s[..k] + s[k..];
  }

  /** An occurrence inside a prefix is an occurrence in the whole string. */
  lemma OccursInPrefix(s: string, n: nat, i: int, pat: string)
    requires n <= |s|
    ensures OccursAt(s[..n], i, pat) ==> OccursAt(s, i, pat)
  {
    if OccursAt(s[..n], i, pat) {
      assert s[..n][i..i + |pat|] == s[i..i + |pat|];
    }
  }

  /** `s.indexOf(c)` for one character. */
  function IndexOfChar(s: string, c: char): (r: int)
    ensures -1 <= r < |s|
    ensures r >= 0 ==> s[r] == c
    ensures forall i | 0 <= i < |s| && (r < 0 || i < r) :: s[i] != c
  {
    if |s| == 0 then -1
    else if s[0] == c then 0
    else
      var k := IndexOfChar(s[1..], c);
      if k < 0 then -1 else k + 1
  }

  /** `s.lastIndexOf(c)` for one character. */
  function LastIndexOf(s: string, c: char): (r: int)
    ensures -1 <= r < |s|
    ensures r >= 0 ==> s[r] == c
    ensures forall i | r < i < |s| :: s[i] != c
  {
    if |s| == 0 then -1
    else if s[|s| - 1] == c then |s| - 1
    else LastIndexOf(s[..|s| - 1], c)
  }

  /** `s.substring(a, b)`: both arguments are clamped to [0, |s|] and swapped when the first
      is larger. */
  function Substring(s: string, a: int, b: int): (r: string)
    ensures 0 <= a <= b <= |s| ==> r == s[a..b]
    ensures 0 <= b <= a <= |s| ==> r == s[b..a]
  {
    var x := if a < 0 then 0 else if a > |s| then |s| else a;
    var y := if b < 0 then 0 else if b > |s| then |s| else b;
    if x <= y then s[x..y] else s[y..x]
  }

  /** `s.replace(pat, rep)` with a string pattern: only the first occurrence is replaced. */
  function ReplaceFirst(s: string, pat: string, rep: string): string {
    var i := IndexOf(s, pat);
    if i < 0 then s else s[..i] + rep + s[i + |pat|..]
  }

  /** Replacing a prefix that is there removes exactly that prefix. */
  lemma ReplacePrefix(s: string, pat: string)
    requires StartsWith(s, pat)
    ensures ReplaceFirst(s, pat, "") == s[|pat|..]
  {
    assert OccursAt(s, 0, pat);
  }

  /** `s.split(sep)` with a non-empty string separator. */
  function Split(s: string, sep: string): (parts: seq<string>)
    requires |sep| > 0
    ensures |parts| >= 1
    decreases |s|
  {
    var i := IndexOf(s, sep);
    if i < 0 then [s] else [s[..i]] + Split(s[i + |sep|..], sep)
  }

  /** A split cuts at the first place the separator occurs: before it no character even
      starts the separator. */
  lemma SplitCut(s: string, sep: string, n: nat)
    requires |sep| > 0 && OccursAt(s, n, sep)
    requires forall i | 0 <= i < n :: s[i] != sep[0]
    ensures IndexOf(s, sep) == n
    ensures Split(s, sep) == [s[..n]] + Split(s[n + |sep|..], sep)
  {
    NoStartNoOccurrence(s, sep, n);
    FindAt(s, sep, 0, n);
  }

  /** Where no character starts the separator, the separator does not occur. */
  lemma NoStartNoOccurrence(s: string, sep: string, n: nat)
    requires |sep| > 0 && n <= |s|
    requires forall i | 0 <= i < n :: s[i] != sep[0]
    ensures forall i | 0 <= i < n :: !OccursAt(s, i, sep)
  {
    forall i | 0 <= i < n ensures !OccursAt(s, i, sep) {
      if i + |sep| <= |s| {
        assert s[i..i + |sep|][0] == s[i];
      }
    }
  }

  /** `parts.join(sep)` */
  function Join(parts: seq<string>, sep: string): string {
    if |parts| == 0 then ""
    else if |parts| == 1 then parts[0]
    else parts[0] + sep + Join(parts[1..], sep)
  }

  /** Joining the pieces of a split with the same separator gives back the original text. */
  lemma {:induction false} JoinSplit(s: string, sep: string)
    requires |sep| > 0
    ensures Join(Split(s, sep), sep) == s
    decreases |s|
  {
    var i := IndexOf(s, sep);
    if i >= 0 {
      var rest := s[i + |sep|..];
      var tail := Split(rest, sep);
      JoinSplit(rest, sep);
      assert Split(s, sep) == [s[..i]] + tail;
      assert ([s[..i]] + tail)[1..] == tail;
      assert Join(Split(s, sep), sep) == s[..i] + sep + rest;
      assert OccursAt(s, i, sep);
      assert s == s[..i] + s[i..i + |sep|] + rest;
    }
  }

  /** No piece of a split contains the separator. */
  lemma {:induction false} SplitPiecesAvoidSeparator(s: string, sep: string)
    requires |sep| > 0
    ensures forall k | 0 <= k < |Split(s, sep)| :: !Contains(Split(s, sep)[k], sep)
    decreases |s|
  {
    var i := IndexOf(s, sep);
    if i >= 0 {
      SplitPiecesAvoidSeparator(s[i + |sep|..], sep);
      var head := s[..i];
      if Contains(head, sep) {
        var j := IndexOf(head, sep);
        OccursInPrefix(s, i, j, sep);
        assert false;
      }
    }
  }

  /** Number of occurrences of a character. */
  function CountChar(s: string, c: char): nat {
    if |s| == 0 then 0 else (if s[0] == c then 1 else 0) + CountChar(s[1..], c)
  }

  lemma {:induction false} CountCharAppend(a: string, b: string, c: char)
    ensures CountChar(a + b, c) == CountChar(a, c) + CountChar(b, c)
    decreases |a|
  {
    if |a| == 0 {
      assert a + b == b;
    } else {
      CountCharAppend(a[1..], b, c);
      assert (a + b)[0] == a[0];
      assert (a + b)[1..] == a[1..] + b;
    }
  }

  lemma CountCharAbsent(s: string, c: char)
    requires forall i | 0 <= i < |s| :: s[i] != c
    ensures CountChar(s, c) == 0
  {
  }

  /** Splitting on one character gives one more piece than there are occurrences of it. */
  lemma {:induction false} SplitCount(s: string, c: char)
    ensures |Split(s, [c])| == CountChar(s, c) + 1
    decreases |s|
  {
    var i := IndexOf(s, [c]);
    if i < 0 {
      forall k | 0 <= k < |s| ensures s[k] != c {
        assert !OccursAt(s, k, [c]);
      }
      CountCharAbsent(s, c);
    } else {
      SplitCount(s[i + 1..], c);
      SplitCountStep(s, c, i);
    }
  }

  /** The inductive step of `SplitCount`: the first occurrence of `c` adds one piece and is
      the first character counted. */
  lemma SplitCountStep(s: string, c: char, i: int)
    requires i == IndexOf(s, [c]) && i >= 0
    requires |Split(s[i + 1..], [c])| == CountChar(s[i + 1..], c) + 1
    ensures |Split(s, [c])| == CountChar(s, c) + 1
  {
    CountAtFirst(s, c, i);
  }

  /** Counting from the first occurrence of `c` on: that occurrence and whatever follows. */
  lemma CountAtFirst(s: string, c: char, i: int)
    requires i == IndexOf(s, [c]) && i >= 0
    ensures CountChar(s, c) == 1 + CountChar(s[i + 1..], c)
  {
    var head, rest := s[..i], s[i + 1..];
    assert s[i..i + 1] == [c];
    assert s == head + ([c] + rest);
    NoneBeforeFirst(s, c, i);
    calc {
      CountChar(s, c);
      { CountCharAppend(head, [c] + rest, c); }
      CountChar(head, c) + CountChar([c] + rest, c);
      { CountCharAbsent(head, c); }
      CountChar([c] + rest, c);
      { assert ([c] + rest)[1..] == rest; }
      1 + CountChar(rest, c);
    }
  }

  /** Before the first occurrence of `c` there is no `c`. */
  lemma NoneBeforeFirst(s: string, c: char, i: int)
    requires i == IndexOf(s, [c]) && i >= 0
    ensures forall k | 0 <= k < i :: s[..i][k] != c
  {
    forall k | 0 <= k < i ensures s[..i][k] != c {
      assert !OccursAt(s, k, [c]);
    }
  }

  /** Concatenation of a list of strings. */
  function Concat(ss: seq<string>): string {
    if |ss| == 0 then "" else Concat(ss[..|ss| - 1]) + ss[|ss| - 1]
  }

  lemma {:induction false} ConcatAppend(a: seq<string>, b: seq<string>)
    ensures Concat(a + b) == Concat(a) + Concat(b)
    decreases |b|
  {
    if |b| == 0 {
      assert a + b == a;
    } else {
      var init, last := b[..|b| - 1], b[|b| - 1];
      InitLast(a, b);
      calc {
        Concat(a + b);
        Concat(a + init) + last;
        { ConcatAppend(a, init); }
        (Concat(a) + Concat(init)) + last;
        { AppendAssoc(Concat(a), Concat(init), last); }
        Concat(a) + Concat(b);
      }
    }
  }

  /** The characters of `s` that satisfy `keep`, in order. */
  function Filter(s: string, keep: char -> bool): (r: string)
    ensures |r| <= |s|
  {
    if |s| == 0 then "" else (if keep(s[0]) then [s[0]] else "") + Filter(s[1..], keep)
  }

  lemma {:induction false} FilterAppend(a: string, b: string, keep: char -> bool)
    ensures Filter(a + b, keep) == Filter(a, keep) + Filter(b, keep)
    decreases |a|
  {
    if |a| == 0 {
      assert a + b == b;
    } else {
      FilterAppend(a[1..], b, keep);
      assert (a + b)[0] == a[0];
      assert (a + b)[1..] == a[1..] + b;
      var h := if keep(a[0]) then [a[0]] else "";
      calc {
        Filter(a + b, keep);
        h + Filter(a[1..] + b, keep);
        h + (Filter(a[1..], keep) + Filter(b, keep));
        (h + Filter(a[1..], keep)) + Filter(b, keep);
      }
    }
  }

  lemma {:induction false} FilterNothing(s: string, keep: char -> bool)
    requires forall i | 0 <= i < |s| :: !keep(s[i])
    ensures Filter(s, keep) == ""
    decreases |s|
  {
    if |s| > 0 {
      FilterNothing(s[1..], keep);
    }
  }

  predicate IsAsciiLower(c: char) { 'a' <= c <= 'z' }

  predicate IsAsciiAlnum(c: char) {
    ('a' <= c <= 'z') || ('A' <= c <= 'Z') || ('0' <= c <= '9')
  }

  function UpperAscii(c: char): (u: char)
    ensures !IsAsciiLower(u)
    ensures !IsAsciiLower(c) ==> u == c
  {
    if IsAsciiLower(c) then (c as int - 32) as char else c
  }

  /** Upper-casing restricted to the ASCII letters. */
  function ToUpperAscii(s: string): (r: string)
    ensures |r| == |s|
    ensures forall i | 0 <= i < |s| :: r[i] == UpperAscii(s[i])
  {
    seq(|s|, i requires 0 <= i < |s| => UpperAscii(s[i]))
  }

  /** Case-insensitive search for an upper-case pattern, as a regex with the `i` flag and no
      `u` flag performs it: characters outside ASCII never fold onto ASCII letters. */
  predicate ContainsIgnoreCase(s: string, upperPat: string) {
    Contains(ToUpperAscii(s), upperPat)
  }
}
