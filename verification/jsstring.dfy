/**
 * The JavaScript string primitives the codec relies on: `trim`, `split('\n')`,
 * `join`, `startsWith`, `includes`, `split(x).join(y)`, the regular-expression
 * classes `\s`, `\w` and `.`, and decimal rendering of an index.
 *
 * A string is a sequence of Unicode scalar values.
 */
module JsString {

  /** The line terminators of ECMAScript: `.` in a regular expression never matches them. */
  predicate IsLineTerminator(c: char) {
    c == '\n' || c == '\r' || c == '\U{2028}' || c == '\U{2029}'
  }

  /** The class `.` of a regular expression. */
  predicate NotTerminator(c: char) {
    !IsLineTerminator(c)
  }

  /**
   * ECMAScript white space plus line terminators: what `trim()` removes and
   * what `\s` matches (the space separators of Unicode category Zs included).
   */
  predicate IsWhitespace(c: char) {
    || IsLineTerminator(c)
    || c == ' ' || c == '\t' || c == '\U{000B}' || c == '\U{000C}'
    || c == '\U{00A0}' || c == '\U{FEFF}' || c == '\U{1680}'
    || ('\U{2000}' <= c <= '\U{200A}')
    || c == '\U{202F}' || c == '\U{205F}' || c == '\U{3000}'
  }

  /** The regular-expression class `\w`: ASCII letters, digits and underscore. */
  predicate IsWordChar(c: char) {
    ('a' <= c <= 'z') || ('A' <= c <= 'Z') || ('0' <= c <= '9') || c == '_'
  }

  predicate AllWhitespace(s: string) {
    forall i :: 0 <= i < |s| ==> IsWhitespace(s[i])
  }

  predicate AllWordChars(s: string) {
    forall i :: 0 <= i < |s| ==> IsWordChar(s[i])
  }

  /** No character of `s` is a line terminator, so `.` matches each of them. */
  predicate NoLineTerminator(s: string) {
    forall i :: 0 <= i < |s| ==> !IsLineTerminator(s[i])
  }

  predicate IsTrimmed(s: string) {
    |s| == 0 || (!IsWhitespace(s[0]) && !IsWhitespace(s[|s| - 1]))
  }

  /** Length of the longest all-whitespace prefix of `s` (what a greedy `\s*` consumes). */
  function WsRun(s: string): (k: nat)
    ensures k <= |s|
    ensures AllWhitespace(s[..k])
    ensures k == |s| || !IsWhitespace(s[k])
  {
    if |s| > 0 && IsWhitespace(s[0]) then
      var k := 1 + WsRun(s[1..]);
      assert s[..k] == [s[0]] + s[1..][..k - 1];
      k
    else 0
  }

  /** Length of the longest all-whitespace suffix of `s`. */
  function WsRunEnd(s: string): (k: nat)
    ensures k <= |s|
    ensures AllWhitespace(s[|s| - k..])
    ensures k == |s| || !IsWhitespace(s[|s| - k - 1])
  {
    if |s| > 0 && IsWhitespace(s[|s| - 1]) then
      var k := 1 + WsRunEnd(s[..|s| - 1]);
      assert s[|s| - k..] == s[..|s| - 1][|s| - k..] + [s[|s| - 1]];
      k
    else 0
  }

  /**
   * Where the capture of a trailing `\s*(.+)$` starts in `u`: the greedy `\s*`
   * takes the whole leading white space unless that leaves nothing for `.+`,
   * in which case it gives back one character.
   */
  function RestStart(u: string): (k: nat)
    requires |u| > 0
    ensures k < |u|
    ensures k <= WsRun(u)
  {
    if WsRun(u) < |u| then WsRun(u) else |u| - 1
  }

  /**
   * `u` matches `\s*(.+)$`. Giving back more white space only lengthens the
   * capture, so the match exists exactly when the capture at `RestStart`
   * holds no line terminator.
   */
  predicate RestMatches(u: string) {
    |u| > 0 && NoLineTerminator(u[RestStart(u)..])
  }

  /** `String.prototype.trim`. */
  function Trim(s: string): (r: string)
    ensures IsTrimmed(r)
    ensures |r| <= |s|
    ensures r == [] <==> AllWhitespace(s)
    ensures WsRun(s) + |r| <= |s| && r == s[WsRun(s)..WsRun(s) + |r|]
    ensures NoLineTerminator(s) ==> NoLineTerminator(r)
  {
    var t := s[WsRun(s)..];
    var r := t[..|t| - WsRunEnd(t)];
    assert |t| > 0 ==> !IsWhitespace(t[0]);
    assert |t| > 0 ==> |r| > 0;
    assert |t| == 0 ==> s == s[..WsRun(s)];
    r
  }

  lemma TrimmedIsFixed(s: string)
    requires IsTrimmed(s)
    ensures Trim(s) == s
  {
    if |s| > 0 {
      assert WsRun(s) == 0;
      assert WsRunEnd(s) == 0;
    }
  }

  /** A name of word characters has no white space to trim. */
  lemma WordsTrimmed(s: string)
    requires AllWordChars(s)
    ensures Trim(s) == s
  {
    if |s| > 0 {
      assert IsWordChar(s[0]) && IsWordChar(s[|s| - 1]);
      TrimmedIsFixed(s);
    }
  }

  /** Every character of `Trim(s)` is a character of `s`. */
  lemma TrimChars(s: string, i: nat)
    requires i < |Trim(s)|
    ensures Trim(s)[i] in s
  {
    var r := Trim(s);
    assert r[i] == s[WsRun(s) + i];
  }

  /** `Trim` removes only white space from the front. */
  lemma TrimFront(s: string, i: nat)
    requires i < |s| && !IsWhitespace(s[i])
    ensures WsRun(s) <= i
  {
  }

  /** `Trim` removes only white space from the back. */
  lemma TrimBack(t: string, j: nat)
    requires 0 < j <= |t| && !IsWhitespace(t[j - 1])
    ensures j <= |t| - WsRunEnd(t)
  {
  }

  /** A stretch that begins and ends with visible characters survives `Trim` intact. */
  lemma TrimKeeps(s: string, i: nat, j: nat)
    requires i < j <= |s|
    requires !IsWhitespace(s[i]) && !IsWhitespace(s[j - 1])
    ensures WsRun(s) <= i && j <= WsRun(s) + |Trim(s)|
    ensures Trim(s)[i - WsRun(s)..j - WsRun(s)] == s[i..j]
  {
    TrimBounds(s, i, j);
    SliceOfSlice(s, WsRun(s), WsRun(s) + |Trim(s)|, i - WsRun(s), j - WsRun(s));
  }

  /** `Trim` removes neither a visible first character nor a visible last one. */
  lemma TrimBounds(s: string, i: nat, j: nat)
    requires i < j <= |s|
    requires !IsWhitespace(s[i]) && !IsWhitespace(s[j - 1])
    ensures WsRun(s) <= i && j <= WsRun(s) + |Trim(s)|
  {
    var w := WsRun(s);
    TrimFront(s, i);
    var t := s[w..];
    assert t[j - 1 - w] == s[j - 1];
    TrimBack(t, j - w);
    assert |Trim(s)| == |t| - WsRunEnd(t);
  }

  /** Equal neighbours all the way from `a` to `b` make the ends equal. */
  lemma {:induction false} ChainEqual<T>(g: nat -> T, a: nat, b: nat)
    requires a <= b && forall k :: a <= k < b ==> g(k) == g(k + 1)
    ensures g(a) == g(b)
    decreases b - a
  {
    if a < b {
      ChainEqual(g, a + 1, b);
    }
  }

  /** A slice inside the right part of a concatenation. */
  lemma SliceAfter<T>(u: seq<T>, v: seq<T>, a: nat, b: nat)
    requires a <= b <= |v|
    ensures (u + v)[|u| + a..|u| + b] == v[a..b]
  {
    forall i | 0 <= i < b - a ensures (u + v)[|u| + a..|u| + b][i] == v[a..b][i] {
      assert (u + v)[|u| + a + i] == v[a + i];
    }
  }

  /** A slice of a slice is a slice of the whole. */
  lemma SliceOfSlice<T>(s: seq<T>, a: nat, b: nat, c: nat, d: nat)
    requires a <= b <= |s| && c <= d <= b - a
    ensures s[a..b][c..d] == s[a + c..a + d]
  {
    forall i | 0 <= i < d - c ensures s[a..b][c..d][i] == s[a + c..a + d][i] {
      assert s[a..b][c..d][i] == s[a..b][c + i] == s[a + c + i];
    }
  }

  predicate StartsWith(s: string, p: string) {
    |p| <= |s| && s[..|p|] == p
  }

  /** `s.includes(p)`: `p` occurs in `s` at some offset. */
  predicate Contains(s: string, p: string)
    decreases |s|
  {
    StartsWith(s, p) || (|s| > 0 && Contains(s[1..], p))
  }

  /** `Contains` as an explicit occurrence. */
  lemma ContainsAt(s: string, p: string, i: nat)
    requires i + |p| <= |s| && s[i..i + |p|] == p
    ensures Contains(s, p)
    decreases i
  {
    if i > 0 {
      assert s[1..][i - 1..i - 1 + |p|] == p;
      ContainsAt(s[1..], p, i - 1);
    }
  }

  /** A pattern whose first character is absent from `s` does not occur in it. */
  lemma NotContainsByChar(s: string, p: string)
    requires |p| > 0 && p[0] !in s
    ensures !Contains(s, p)
    decreases |s|
  {
    if |s| > 0 {
      assert s[0] in s;
      if |p| <= |s| { assert s[..|p|][0] == s[0]; }
      NotContainsByChar(s[1..], p);
    }
  }

  /** The index of the first `c` in `s`, or `|s|` when there is none. */
  function IndexOf(s: string, c: char): (i: nat)
    ensures i <= |s|
    ensures i < |s| ==> s[i] == c
    ensures forall k :: 0 <= k < i ==> s[k] != c
    ensures i == |s| <==> c !in s
  {
    if |s| == 0 then 0
    else if s[0] == c then 0
    else
      var i := 1 + IndexOf(s[1..], c);
      assert s[..i] == [s[0]] + s[1..][..i - 1];
      i
  }

  /** The first index from `i` on whose character is not in the class `keep` (or `|t|`). */
  function ScanWhile(t: string, i: nat, keep: char -> bool): (j: nat)
    requires i <= |t|
    ensures i <= j <= |t|
    ensures forall x :: i <= x < j ==> keep(t[x])
    ensures j == |t| || !keep(t[j])
    decreases |t| - i
  {
    if i < |t| && keep(t[i]) then ScanWhile(t, i + 1, keep) else i
  }

  /** The scan stops exactly at the first character outside the class. */
  lemma {:induction false} ScanWhileAt(t: string, i: nat, j: nat, keep: char -> bool)
    requires i <= j <= |t|
    requires forall x :: i <= x < j ==> keep(t[x])
    requires j == |t| || !keep(t[j])
    ensures ScanWhile(t, i, keep) == j
    decreases j - i
  {
    if i < j {
      ScanWhileAt(t, i + 1, j, keep);
    }
  }

  /** `s.split('\n')`. */
  function Split(s: string): (r: seq<string>)
    ensures |r| >= 1
    ensures forall i :: 0 <= i < |r| ==> '\n' !in r[i]
    ensures Join(r) == s
    decreases |s|
  {
    var i := IndexOf(s, '\n');
    if i == |s| then [s]
    else
      var rest := Split(s[i + 1..]);
      assert s == s[..i] + "\n" + s[i + 1..];
      [s[..i]] + rest
  }

  /** `lines.join('\n')`. */
  function Join(lines: seq<string>): (r: string)
  {
    if |lines| == 0 then ""
    else if |lines| == 1 then lines[0]
    else lines[0] + "\n" + Join(lines[1..])
  }

  lemma {:induction false} JoinAppend(a: seq<string>, b: seq<string>)
    requires |a| > 0 && |b| > 0
    ensures Join(a + b) == Join(a) + "\n" + Join(b)
    decreases |a|
  {
    if |a| == 1 {
      assert (a + b)[1..] == b;
    } else {
      assert (a + b)[1..] == a[1..] + b;
      JoinAppend(a[1..], b);
    }
  }

  /** Each line appears in the joined text, at the offset `JoinHas` returns. */
  lemma {:induction false} JoinHas(lines: seq<string>, k: nat) returns (pos: nat)
    requires k < |lines|
    ensures pos + |lines[k]| <= |Join(lines)|
    ensures Join(lines)[pos..pos + |lines[k]|] == lines[k]
    ensures k == 0 ==> pos == 0
    decreases k
  {
    if |lines| == 1 {
      pos := 0;
    } else if k == 0 {
      pos := 0;
      assert Join(lines) == lines[0] + ("\n" + Join(lines[1..]));
    } else {
      var p := JoinHas(lines[1..], k - 1);
      var rest := Join(lines[1..]);
      pos := |lines[0]| + 1 + p;
      assert Join(lines) == (lines[0] + "\n") + rest;
      SliceAfter(lines[0] + "\n", rest, p, p + |lines[k]|);
    }
  }

  /** `Split` undoes `Join` on lines that hold no line feed: the two form a bijection. */
  lemma {:induction false} SplitJoin(lines: seq<string>)
    requires |lines| > 0
    requires forall i :: 0 <= i < |lines| ==> '\n' !in lines[i]
    ensures Split(Join(lines)) == lines
    decreases |lines|
  {
    var s := Join(lines);
    if |lines| == 1 {
      assert IndexOf(s, '\n') == |s|;
    } else {
      var h := lines[0];
      var t := Join(lines[1..]);
      assert s == h + "\n" + t;
      assert s[..|h|] == h;
      assert s[|h|] == '\n';
      assert forall k :: 0 <= k < |h| ==> s[k] == h[k];
      assert IndexOf(s, '\n') == |h|;
      assert s[|h| + 1..] == t;
      SplitJoin(lines[1..]);
    }
  }

  /** Splitting `a + "\n" + b` splits `a` and `b` separately. */
  lemma SplitAppend(a: string, b: string)
    ensures Split(a + "\n" + b) == Split(a) + Split(b)
  {
    var la, lb := Split(a), Split(b);
    JoinAppend(la, lb);
    SplitJoin(la + lb);
  }

  /** A string without a line feed is one line. */
  lemma SplitSingle(s: string)
    requires '\n' !in s
    ensures Split(s) == [s]
  {
  }

  /**
   * `s.split(p).join(r)`: every non-overlapping occurrence of `p`, left to
   * right, becomes `r`; an empty `p` splits between characters.
   */
  function ReplaceAll(s: string, p: string, r: string): string
    decreases |s|
  {
    if |p| == 0 then (if |s| <= 1 then s else [s[0]] + r + ReplaceAll(s[1..], p, r))
    else if |s| < |p| then s
    else if s[..|p|] == p then r + ReplaceAll(s[|p|..], p, r)
    else [s[0]] + ReplaceAll(s[1..], p, r)
  }

  /** Number of occurrences of the character `c` in `s`. */
  function CountChar(s: string, c: char): nat
  {
    if |s| == 0 then 0 else (if s[0] == c then 1 else 0) + CountChar(s[1..], c)
  }

  lemma {:induction false} CountCharAppend(a: string, b: string, c: char)
    ensures CountChar(a + b, c) == CountChar(a, c) + CountChar(b, c)
    decreases |a|
  {
    if |a| > 0 {
      assert (a + b)[1..] == a[1..] + b;
      assert (a + b)[0] == a[0];
      CountCharAppend(a[1..], b, c);
    } else {
      assert a + b == b;
    }
  }

  lemma {:induction false} CountCharAbsent(s: string, c: char)
    requires c !in s
    ensures CountChar(s, c) == 0
    decreases |s|
  {
    if |s| > 0 { CountCharAbsent(s[1..], c); }
  }

  /** No white space but single spaces. */
  predicate Collapsed(s: string) {
    && (forall i :: 0 <= i < |s| ==> s[i] == ' ' || !IsWhitespace(s[i]))
    && (forall i :: 0 <= i < |s| - 1 ==> s[i] != ' ' || !IsWhitespace(s[i + 1]))
  }

  /** `replace(/\s+/g, ' ')`: each maximal run of white space becomes one space. */
  function CollapseWhitespace(s: string): (r: string)
    ensures Collapsed(r)
    ensures |r| <= |s|
    ensures |s| > 0 ==> |r| > 0 && (r[0] == ' ' <==> IsWhitespace(s[0]))
    ensures AllWhitespace(s) && |s| > 0 ==> r == " "
    ensures forall i :: 0 <= i < |r| && r[i] != ' ' ==> r[i] in s
    decreases |s|
  {
    if |s| == 0 then ""
    else if IsWhitespace(s[0]) then
      var rest := CollapseWhitespace(s[WsRun(s)..]);
      assert forall i :: 0 <= i < |rest| && rest[i] != ' ' ==> rest[i] in s by {
        forall i | 0 <= i < |rest| && rest[i] != ' ' ensures rest[i] in s {
          assert rest[i] in s[WsRun(s)..];
        }
      }
      " " + rest
    else
      var rest := CollapseWhitespace(s[1..]);
      assert forall i :: 0 <= i < |rest| && rest[i] != ' ' ==> rest[i] in s by {
        forall i | 0 <= i < |rest| && rest[i] != ' ' ensures rest[i] in s {
          assert rest[i] in s[1..];
        }
      }
      [s[0]] + rest
  }

  /** A collapsed string is left as it is, so collapsing twice is collapsing once. */
  lemma {:induction false} CollapseFixed(s: string)
    requires Collapsed(s)
    ensures CollapseWhitespace(s) == s
    decreases |s|
  {
    if |s| > 0 {
      assert Collapsed(s[1..]) by {
        forall i | 0 <= i < |s[1..]| - 1 ensures s[1..][i] != ' ' || !IsWhitespace(s[1..][i + 1]) {
          assert s[1..][i] == s[i + 1] && s[1..][i + 1] == s[i + 2];
        }
      }
      if IsWhitespace(s[0]) {
        assert |s| == 1 || !IsWhitespace(s[1]);
        assert WsRun(s[1..]) == 0 by { assert |s[1..]| == 0 || s[1..][0] == s[1]; }
      }
      CollapseFixed(s[1..]);
    }
  }

  lemma CollapseIdempotent(s: string)
    ensures CollapseWhitespace(CollapseWhitespace(s)) == CollapseWhitespace(s)
  {
    CollapseFixed(CollapseWhitespace(s));
  }

  /** ASCII lower-casing of one character. */
  function LowerChar(c: char): char {
    if 'A' <= c <= 'Z' then (c as int + 32) as char else c
  }

  /**
   * `toLowerCase` restricted to ASCII letters: enough for every comparison in
   * the codec, whose targets are ASCII words.
   */
  function AsciiLower(s: string): (r: string)
    ensures |r| == |s|
    ensures forall i :: 0 <= i < |s| ==> r[i] == LowerChar(s[i])
  {
    seq(|s|, i requires 0 <= i < |s| => LowerChar(s[i]))
  }

  /** Lower-casing works position by position, so it maps an occurrence of `p` to one of its lower-cased form. */
  lemma LowerWindow(s: string, i: nat, p: string)
    requires i + |p| <= |s| && s[i..i + |p|] == p
    ensures AsciiLower(s)[i..i + |p|] == AsciiLower(p)
  {
    var r := AsciiLower(s);
    forall k | 0 <= k < |p| ensures r[i..i + |p|][k] == AsciiLower(p)[k] {
      assert s[i + k] == p[k];
    }
  }

  /** The decimal digits of `n`, most significant first (template-literal rendering). */
  function NatToString(n: nat): (r: string)
    ensures |r| > 0
    ensures forall i :: 0 <= i < |r| ==> '0' <= r[i] <= '9'
    ensures ParseDecimal(r) == n
    ensures |r| > 1 ==> r[0] != '0'
    decreases n
  {
    var d := ['0' + (n % 10) as char];
    if n < 10 then d
    else
      var r := NatToString(n / 10) + d;
      assert r[..|r| - 1] == NatToString(n / 10);
      r
  }

  /** The value of a string of decimal digits. */
  function ParseDecimal(s: string): nat
  {
    if |s| == 0 then 0
    else ParseDecimal(s[..|s| - 1]) * 10 + (if '0' <= s[|s| - 1] <= '9' then (s[|s| - 1] - '0') as int else 0)
  }

  /** Distinct indices render differently. */
  lemma NatToStringInjective(m: nat, n: nat)
    requires m != n
    ensures NatToString(m) != NatToString(n)
  {
  }
}
