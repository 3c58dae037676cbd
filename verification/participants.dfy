/**
 * The participant extractor of the styling panel (`parseParticipantsFromMermaid`)
 * and the two updates the participant editor makes to its annotation map.
 *
 * Each line is trimmed and offered to three regular expressions: the
 * `participant` and `actor` declarations, and a message line whose sender and
 * receiver are both participants. The regexes are modelled as the searches a
 * backtracking engine performs, in the order it performs them.
 */
module Participants {
  import opened Wrappers
  import opened JsString

  datatype ParticipantInfo = ParticipantInfo(id: string, name: string, description: string, role: string, notes: string)

  /** `CustomParticipants`: annotations keyed by participant name. */
  type CustomParticipants = map<string, ParticipantInfo>

  // ---------------------------------------------------------------------------
  // `/^participant\s+(.+?)(?:\s+as\s+.+)?$/` and the same for `actor`
  // ---------------------------------------------------------------------------

  /**
   * `u` matches `\s+as\s+.+$`. The first `\s+` must take the whole leading
   * white space (the next character has to be `a`); the second gives back
   * white space to `.+` only when nothing else is left.
   */
  predicate AsTail(u: string) {
    var a := WsRun(u);
    && a >= 1
    && StartsWith(u[a..], "as")
    && var v := u[a + 2..];
       |v| >= 2 && WsRun(v) >= 1 && NoLineTerminator(v[RestStart(v)..])
  }

  /**
   * The lazy `(.+?)` on `r`, trying the capture `r[..len]`, then longer ones;
   * each is accepted when the optional alias or the end of the line follows.
   */
  function DeclLazy(r: string, len: nat): (res: Option<string>)
    requires 1 <= len
    requires len - 1 <= |r| && NoLineTerminator(r[..len - 1])
    ensures res.Some? ==> 0 < |res.value| <= |r| && res.value == r[..|res.value|]
    ensures res.Some? ==> NoLineTerminator(res.value)
    decreases |r| + 1 - len
  {
    if len > |r| || IsLineTerminator(r[len - 1]) then None
    else
      assert r[..len] == r[..len - 1] + [r[len - 1]];
      if len == |r| || AsTail(r[len..]) then Some(r[..len])
      else DeclLazy(r, len + 1)
  }

  /** The greedy `\s+` after the keyword, giving back one character at a time. */
  function DeclWs(u: string, m: nat): (res: Option<string>)
    requires m <= |u|
    ensures res.Some? ==> |res.value| > 0 && NoLineTerminator(res.value)
    decreases m
  {
    if m == 0 then None
    else
      match DeclLazy(u[m..], 1)
      case Some(x) => Some(x)
      case None => DeclWs(u, m - 1)
  }

  /** The first capture group of the declaration regex for keyword `kw`. */
  function DeclCapture(t: string, kw: string): (res: Option<string>)
    ensures res.Some? ==> StartsWith(t, kw) && |res.value| > 0 && NoLineTerminator(res.value)
  {
    if !StartsWith(t, kw) then None
    else
      var u := t[|kw|..];
      DeclWs(u, WsRun(u))
  }

  // ---------------------------------------------------------------------------
  // `/^(.+?)\s*(->>|-->>|->|-->)\s*(.+?):\s*(.+)$/`
  // ---------------------------------------------------------------------------

  const Arrows: seq<string> := ["->>", "-->>", "->", "-->"]

  /**
   * The lazy receiver `(.+?)` starting at `s`, with capture length `m` and up;
   * the index of the `:` that ends it.
   */
  function ToLazy(t: string, s: nat, m: nat): (e: Option<nat>)
    requires 1 <= m && s <= |t|
    ensures e.Some? ==> s < e.value < |t| && t[e.value] == ':'
    decreases |t| - s - m
  {
    if s + m >= |t| || IsLineTerminator(t[s + m - 1]) then None
    else if t[s + m] == ':' && RestMatches(t[s + m + 1..]) then Some(s + m)
    else ToLazy(t, s, m + 1)
  }

  /** The greedy `\s*` after the arrow (`w` characters, then fewer); the receiver's bounds. */
  function AfterArrow(t: string, p: nat, w: nat): (res: Option<(nat, nat)>)
    requires p + w <= |t|
    ensures res.Some? ==> p <= res.value.0 < res.value.1 < |t|
    decreases w
  {
    match ToLazy(t, p + w, 1)
    case Some(e) => Some((p + w, e))
    case None => if w == 0 then None else AfterArrow(t, p, w - 1)
  }

  /** The arrow alternatives tried in order at `q`; the receiver's bounds. */
  function ArrowFrom(t: string, q: nat, arrows: seq<string>): (res: Option<(nat, nat)>)
    requires q <= |t|
    ensures res.Some? ==> q < res.value.0 < res.value.1 < |t|
    decreases |arrows|
  {
    if |arrows| == 0 then None
    else if |arrows[0]| > 0 && StartsWith(t[q..], arrows[0]) then
      var p := q + |arrows[0]|;
      match AfterArrow(t, p, WsRun(t[p..]))
      case Some(r) => Some(r)
      case None => ArrowFrom(t, q, arrows[1..])
    else ArrowFrom(t, q, arrows[1..])
  }

  /**
   * The lazy sender `(.+?)` with capture length `len` and up. The `\s*` before
   * the arrow takes the whole white-space run: giving any back leaves white
   * space where the arrow's `-` must be.
   */
  function FromLazy(t: string, len: nat, arrows: seq<string>): (res: Option<(string, string)>)
    requires 1 <= len
    ensures res.Some? ==> |res.value.0| > 0 && |res.value.1| > 0
    decreases |t| + 1 - len
  {
    if len > |t| || IsLineTerminator(t[len - 1]) then None
    else
      var q := len + WsRun(t[len..]);
      match ArrowFrom(t, q, arrows)
      case Some(r) => Some((t[..len], t[r.0..r.1]))
      case None => FromLazy(t, len + 1, arrows)
  }

  /** Sender and receiver captured by the message regex, untrimmed. */
  function MessageCapture(t: string): Option<(string, string)> {
    FromLazy(t, 1, Arrows)
  }

  // ---------------------------------------------------------------------------
  // The extractor
  // ---------------------------------------------------------------------------

  /** The names one trimmed line offers, in the order the loop body considers them. */
  function LineNames(t: string): seq<string> {
    (match DeclCapture(t, "participant")
     case Some(x) => [Trim(x)]
     case None =>
       match DeclCapture(t, "actor")
       case Some(x) => [Trim(x)]
       case None => [])
    + (match MessageCapture(t)
       case Some(ft) => [Trim(ft.0), Trim(ft.1)]
       case None => [])
  }

  predicate NoDuplicates(s: seq<string>) {
    forall i, j :: 0 <= i < j < |s| ==> s[i] != s[j]
  }

  /** Appends each of `names` that is not yet present, in order. */
  function AddNew(acc: seq<string>, names: seq<string>): (r: seq<string>)
    ensures |acc| <= |r| && r[..|acc|] == acc
    ensures NoDuplicates(acc) ==> NoDuplicates(r)
    ensures forall x :: x in r <==> x in acc || x in names
    decreases |names|
  {
    if |names| == 0 then acc
    else
      var next := if names[0] in acc then acc else acc + [names[0]];
      var r := AddNew(next, names[1..]);
      assert r[..|acc|] == r[..|next|][..|acc|];
      assert forall x :: x in names <==> x == names[0] || x in names[1..];
      r
  }

  /** The list after the loop has consumed lines offering the name groups `groups`. */
  function Collect(groups: seq<seq<string>>): (r: seq<string>)
    ensures NoDuplicates(r)
    decreases |groups|
  {
    if |groups| == 0 then []
    else AddNew(Collect(groups[..|groups| - 1]), groups[|groups| - 1])
  }

  /** The list holds exactly the names some group offers. */
  lemma {:induction false} CollectMembers(groups: seq<seq<string>>)
    ensures forall x :: x in Collect(groups) <==> exists i :: 0 <= i < |groups| && x in groups[i]
    decreases |groups|
  {
    if |groups| > 0 {
      var init := groups[..|groups| - 1];
      CollectMembers(init);
      assert forall i :: 0 <= i < |init| ==> init[i] == groups[i];
    }
  }

  /** The name groups of `lines`, one per line. */
  function LineGroups(lines: seq<string>): (g: seq<seq<string>>)
    ensures |g| == |lines|
  {
    Groups(lines, LineNamesOf)
  }

  /** The names an untrimmed line offers once the loop has trimmed it. */
  function LineNamesOf(line: string): seq<string> {
    LineNames(Trim(line))
  }

  /** The name groups `names` reads off each of `lines`. */
  function Groups(lines: seq<string>, names: string -> seq<string>): (g: seq<seq<string>>)
    ensures |g| == |lines|
  {
    seq(|lines|, i requires 0 <= i < |lines| => names(lines[i]))
  }

  /** `parseParticipantsFromMermaid`: the seen-set keeps every name to one entry. */
  function ParseParticipants(code: string): (r: seq<string>)
    ensures NoDuplicates(r)
  {
    Collect(LineGroups(Split(code)))
  }

  /**
   * The loop as the source writes it, with the `seenParticipants` set kept
   * beside the list.
   */
  method ParseParticipantsLoop(code: string) returns (participants: seq<string>)
    ensures participants == ParseParticipants(code)
    ensures NoDuplicates(participants)
  {
    participants := CollectLines(Split(code), LineNamesOf);
  }

  /**
   * The loop over `lines` for any way `names` of reading the names off one
   * line: a name not yet in `seen` is recorded and appended.
   */
  method CollectLines(lines: seq<string>, names: string -> seq<string>) returns (participants: seq<string>)
    ensures participants == Collect(Groups(lines, names))
  {
    ghost var groups := Groups(lines, names);
    participants := [];
    var seen: set<string> := {};
    var i := 0;
    while i < |lines|
      invariant 0 <= i <= |lines|
      invariant participants == Collect(groups[..i])
      invariant seen == set x | x in participants
    {
      assert names(lines[i]) == groups[i];
      participants, seen := AddUnseen(participants, seen, names(lines[i]));
      CollectStep(groups, i);
      i := i + 1;
    }
    assert groups[..|lines|] == groups;
  }

  /** The body of the loop for one line: each name not yet seen is recorded and appended. */
  method AddUnseen(acc: seq<string>, seen: set<string>, names: seq<string>) returns (r: seq<string>, seen': set<string>)
    requires seen == set x | x in acc
    ensures r == AddNew(acc, names)
    ensures seen' == set x | x in r
  {
    r, seen' := acc, seen;
    var j := 0;
    assert names[0..] == names;
    while j < |names|
      invariant 0 <= j <= |names|
      invariant AddNew(r, names[j..]) == AddNew(acc, names)
      invariant seen' == set x | x in r
    {
      AddNewStep(r, names, j);
      if names[j] !in seen' {
        seen' := seen' + {names[j]};
        r := r + [names[j]];
      }
      j := j + 1;
    }
  }

  /** One step of `AddNew` from position `j` of `names`. */
  lemma AddNewStep(acc: seq<string>, names: seq<string>, j: nat)
    requires j < |names|
    ensures AddNew(acc, names[j..]) == AddNew(if names[j] in acc then acc else acc + [names[j]], names[j + 1..])
  {
    assert names[j..][1..] == names[j + 1..];
  }

  /** One step of `Collect` over the first `i + 1` groups. */
  lemma CollectStep(groups: seq<seq<string>>, i: nat)
    requires i < |groups|
    ensures Collect(groups[..i + 1]) == AddNew(Collect(groups[..i]), groups[i])
  {
    assert groups[..i + 1][..i] == groups[..i];
  }

  lemma LineGroupsAppend(a: seq<string>, b: seq<string>)
    ensures LineGroups(a + b) == LineGroups(a) + LineGroups(b)
  {
    var l, r := LineGroups(a + b), LineGroups(a) + LineGroups(b);
    forall i | 0 <= i < |l| ensures l[i] == r[i] {
      if i < |a| { assert (a + b)[i] == a[i]; } else { assert (a + b)[i] == b[i - |a|]; }
    }
  }

  // ---------------------------------------------------------------------------
  // Properties
  // ---------------------------------------------------------------------------

  /** Consuming more lines only appends: no name is moved or removed. */
  lemma {:induction false} CollectPrefix(a: seq<seq<string>>, b: seq<seq<string>>)
    ensures |Collect(a)| <= |Collect(a + b)|
    ensures Collect(a + b)[..|Collect(a)|] == Collect(a)
    decreases |b|
  {
    if |b| > 0 {
      var ab := a + b;
      assert ab[..|ab| - 1] == a + b[..|b| - 1];
      CollectPrefix(a, b[..|b| - 1]);
    } else {
      assert a + b == a;
    }
  }

  /** The list for `t1 + "\n" + t2` starts with the list for `t1`. */
  lemma ParsePrefix(t1: string, t2: string)
    ensures |ParseParticipants(t1)| <= |ParseParticipants(t1 + "\n" + t2)|
    ensures ParseParticipants(t1 + "\n" + t2)[..|ParseParticipants(t1)|] == ParseParticipants(t1)
  {
    SplitAppend(t1, t2);
    var a, b := Split(t1), Split(t2);
    LineGroupsAppend(a, b);
    CollectPrefix(LineGroups(a), LineGroups(b));
  }

  /** `participant X as Y` (and `actor X as Y`) captures X when X is one white-space-free word. */
  lemma {:induction false} DeclAlias(kw: string, x: string, y: string)
    requires |x| > 0 && forall i :: 0 <= i < |x| ==> !IsWhitespace(x[i])
    requires |y| > 0 && NoLineTerminator(y) && !IsWhitespace(y[0])
    ensures DeclCapture(kw + " " + x + " as " + y, kw) == Some(x)
  {
    var t := kw + " " + x + " as " + y;
    var u := t[|kw|..];
    assert u == " " + x + " as " + y;
    assert WsRun(u) == 1 by { assert u[1..] == x + " as " + y; }
    var r := u[1..];
    assert r == x + " as " + y;
    DeclLazyScan(r, x, y, 1);
  }

  lemma {:induction false} DeclLazyScan(r: string, x: string, y: string, len: nat)
    requires |x| > 0 && forall i :: 0 <= i < |x| ==> !IsWhitespace(x[i])
    requires |y| > 0 && NoLineTerminator(y) && !IsWhitespace(y[0])
    requires r == x + " as " + y
    requires 1 <= len <= |x|
    ensures NoLineTerminator(r[..len - 1])
    ensures DeclLazy(r, len) == Some(x)
    decreases |x| - len
  {
    assert r[..len - 1] == x[..len - 1];
    assert r[len - 1] == x[len - 1];
    if len < |x| {
      assert !AsTail(r[len..]) by {
        assert r[len..][0] == x[len];
        assert WsRun(r[len..]) == 0;
      }
      DeclLazyScan(r, x, y, len + 1);
    } else {
      var u := r[len..];
      assert u == " as " + y;
      assert WsRun(u) == 1 by { assert u[1..] == "as " + y; }
      var v := u[3..];
      assert v == " " + y;
      assert WsRun(v) == 1 by { assert v[1..] == y; }
      assert v[RestStart(v)..] == y;
      assert AsTail(u);
      assert r[..len] == x;
    }
  }

  /**
   * `x` holds no white space followed by `as` and more white space, so the
   * optional alias group cannot begin inside it.
   */
  predicate NoAliasIn(x: string) {
    forall i :: 0 <= i && i + 3 < |x| ==>
      !(IsWhitespace(x[i]) && x[i + 1] == 'a' && x[i + 2] == 's' && IsWhitespace(x[i + 3]))
  }

  /** A declaration whose rest has no alias in it contributes that whole rest. */
  lemma DeclPlain(kw: string, x: string)
    requires |x| > 0 && NoLineTerminator(x) && !IsWhitespace(x[0])
    requires NoAliasIn(x)
    ensures DeclCapture(kw + " " + x, kw) == Some(x)
  {
    var t := kw + " " + x;
    var u := t[|kw|..];
    assert u == " " + x;
    assert WsRun(u) == 1 by { assert u[1..] == x; }
    assert u[1..] == x;
    DeclPlainScan(x, 1);
  }

  lemma {:induction false} DeclPlainScan(x: string, len: nat)
    requires |x| > 0 && NoLineTerminator(x)
    requires NoAliasIn(x)
    requires 1 <= len <= |x|
    ensures NoLineTerminator(x[..len - 1])
    ensures DeclLazy(x, len) == Some(x)
    decreases |x| - len
  {
    if len < |x| {
      NoAliasAt(x, len);
      DeclPlainScan(x, len + 1);
    } else {
      assert x[..len] == x;
    }
  }

  /** No suffix of an alias-free name is an alias tail. */
  lemma NoAliasAt(x: string, len: nat)
    requires NoAliasIn(x) && len <= |x|
    ensures !AsTail(x[len..])
  {
    var u := x[len..];
    var a := WsRun(u);
    if a >= 1 && a + 4 <= |u| && StartsWith(u[a..], "as") {
      var i := len + a - 1;
      assert IsWhitespace(x[i]) by { assert u[..a][a - 1] == x[i]; }
      assert x[i + 1] == 'a' && x[i + 2] == 's' by {
        assert u[a..][..2] == "as";
        assert u[a..][..2][0] == x[i + 1] && u[a..][..2][1] == x[i + 2];
      }
      var v := u[a + 2..];
      assert v[0] == x[i + 3];
      assert !IsWhitespace(v[0]);
      assert WsRun(v) == 0;
    }
  }

  /** A name of word characters holds no white space at all, so no alias. */
  lemma WordsNoAlias(x: string)
    requires AllWordChars(x)
    ensures NoAliasIn(x)
  {
    forall i | 0 <= i && i + 3 < |x|
      ensures !(IsWhitespace(x[i]) && x[i + 1] == 'a' && x[i + 2] == 's' && IsWhitespace(x[i + 3]))
    {
      assert IsWordChar(x[i]);
    }
  }

  // ---------------------------------------------------------------------------
  // Message lines
  // ---------------------------------------------------------------------------

  predicate IsArrow(a: string) {
    a == "->>" || a == "-->>" || a == "->" || a == "-->"
  }

  lemma ArrowDash(a: string)
    requires IsArrow(a)
    ensures |a| > 0 && a[0] == '-'
  {
  }

  /** A word-character receiver is captured up to the `:`. */
  lemma {:induction false} ToLazyScan(t: string, s: nat, to: string, rest: string, m: nat)
    requires |to| > 0 && AllWordChars(to) && RestMatches(rest)
    requires s + |to| + 1 + |rest| == |t| && t[s..] == to + ":" + rest
    requires 1 <= m <= |to|
    ensures ToLazy(t, s, m) == Some(s + |to|)
    decreases |to| - m
  {
    assert t[s + m - 1] == to[m - 1];
    if m < |to| {
      assert t[s + m] == to[m];
      ToLazyScan(t, s, to, rest, m + 1);
    } else {
      assert t[s + m] == ':';
      assert t[s + m + 1..] == rest;
    }
  }

  /** After the arrow, a word-character receiver followed by `:` is captured whole. */
  lemma AfterArrowTo(t: string, p: nat, to: string, rest: string)
    requires |to| > 0 && AllWordChars(to) && RestMatches(rest)
    requires p + |to| + 1 + |rest| == |t| && t[p..] == to + ":" + rest
    ensures AfterArrow(t, p, WsRun(t[p..])) == Some((p, p + |to|))
  {
    assert WsRun(t[p..]) == 0 by { assert t[p..][0] == to[0]; }
    ToLazyScan(t, p, to, rest, 1);
  }

  lemma ArrowSkip(t: string, q: nat, arrows: seq<string>)
    requires q <= |t| && |arrows| > 0 && !StartsWith(t[q..], arrows[0])
    ensures ArrowFrom(t, q, arrows) == ArrowFrom(t, q, arrows[1..])
  {
  }

  lemma ArrowHit(t: string, q: nat, arrows: seq<string>, r: (nat, nat))
    requires q <= |t| && |arrows| > 0 && |arrows[0]| > 0 && StartsWith(t[q..], arrows[0])
    requires q + |arrows[0]| <= |t|
    requires AfterArrow(t, q + |arrows[0]|, WsRun(t[q + |arrows[0]|..])) == Some(r)
    ensures ArrowFrom(t, q, arrows) == Some(r)
  {
  }

  /**
   * When arrow `a` stands at `q` followed by a word character, the first
   * alternative that fits is `a`.
   */
  lemma ArrowAt(t: string, q: nat, a: string, r: (nat, nat))
    requires IsArrow(a) && q + |a| < |t| && t[q..q + |a|] == a && IsWordChar(t[q + |a|])
    requires AfterArrow(t, q + |a|, WsRun(t[q + |a|..])) == Some(r)
    ensures ArrowFrom(t, q, Arrows) == Some(r)
  {
    if a == "->>" {
      ArrowFirst(t, q, a);
    } else if a == "-->>" {
      ArrowSecond(t, q, a);
    } else if a == "->" {
      ArrowThird(t, q, a);
    } else {
      ArrowFourth(t, q, a);
    }
  }

  lemma ArrowFirst(t: string, q: nat, a: string)
    requires a == "->>" && q + 3 < |t| && t[q..q + 3] == a
    requires AfterArrow(t, q + 3, WsRun(t[q + 3..])).Some?
    ensures ArrowFrom(t, q, Arrows) == AfterArrow(t, q + 3, WsRun(t[q + 3..]))
  {
    assert t[q..][..3] == "->>";
  }

  lemma ArrowSecond(t: string, q: nat, a: string)
    requires a == "-->>" && q + 4 < |t| && t[q..q + 4] == a
    requires AfterArrow(t, q + 4, WsRun(t[q + 4..])).Some?
    ensures ArrowFrom(t, q, Arrows) == AfterArrow(t, q + 4, WsRun(t[q + 4..]))
  {
    assert t[q + 1] == a[1];
    ArrowSkip(t, q, Arrows);
    var a1 := Arrows[1..];
    assert a1[0] == "-->>";
    assert t[q..][..4] == "-->>";
  }

  lemma ArrowThird(t: string, q: nat, a: string)
    requires a == "->" && q + 2 < |t| && t[q..q + 2] == a && IsWordChar(t[q + 2])
    requires AfterArrow(t, q + 2, WsRun(t[q + 2..])).Some?
    ensures ArrowFrom(t, q, Arrows) == AfterArrow(t, q + 2, WsRun(t[q + 2..]))
  {
    assert t[q + 1] == a[1];
    ArrowSkip(t, q, Arrows);
    var a1, a2 := Arrows[1..], Arrows[2..];
    assert a1[0] == "-->>" && a1[1..] == a2 && a2[0] == "->";
    ArrowSkip(t, q, a1);
    assert t[q..][..2] == "->";
  }

  lemma ArrowFourth(t: string, q: nat, a: string)
    requires a == "-->" && q + 3 < |t| && t[q..q + 3] == a && IsWordChar(t[q + 3])
    requires AfterArrow(t, q + 3, WsRun(t[q + 3..])).Some?
    ensures ArrowFrom(t, q, Arrows) == AfterArrow(t, q + 3, WsRun(t[q + 3..]))
  {
    assert t[q + 1] == a[1] && t[q + 2] == a[2];
    ArrowSkip(t, q, Arrows);
    var a1, a2, a3 := Arrows[1..], Arrows[2..], Arrows[3..];
    assert a1[0] == "-->>" && a1[1..] == a2 && a2[0] == "->" && a2[1..] == a3 && a3[0] == "-->";
    ArrowSkip(t, q, a1);
    ArrowSkip(t, q, a2);
    assert t[q..][..3] == "-->";
  }

  /** No arrow starts at a word character. */
  lemma NoArrowAtWord(t: string, q: nat, arrows: seq<string>)
    requires q < |t| && IsWordChar(t[q])
    requires DashLed(arrows)
    ensures ArrowFrom(t, q, arrows) == None
    decreases |arrows|
  {
    if |arrows| > 0 {
      assert !StartsWith(t[q..], arrows[0]) by { assert t[q..][0] == t[q]; }
      NoArrowAtWord(t, q, arrows[1..]);
    }
  }

  /** Every alternative of the message regex begins with `-`. */
  predicate DashLed(arrows: seq<string>) {
    forall i :: 0 <= i < |arrows| ==> |arrows[i]| > 0 && arrows[i][0] == '-'
  }

  /** A sender capture ending inside a word cannot be followed by an arrow. */
  lemma FromLazySkip(t: string, len: nat, arrows: seq<string>)
    requires 1 <= len < |t| && !IsLineTerminator(t[len - 1]) && IsWordChar(t[len]) && DashLed(arrows)
    ensures FromLazy(t, len, arrows) == FromLazy(t, len + 1, arrows)
  {
    assert t[len..][0] == t[len];
    assert WsRun(t[len..]) == 0;
    NoArrowAtWord(t, len, arrows);
  }

  /** The sender capture `t[..len]` is accepted when an arrow alternative succeeds after it. */
  lemma FromLazyAt(t: string, len: nat, r: (nat, nat), arrows: seq<string>, from: string, to: string)
    requires 1 <= len <= |t| && !IsLineTerminator(t[len - 1]) && WsRun(t[len..]) == 0
    requires ArrowFrom(t, len, arrows) == Some(r)
    requires r.0 <= r.1 <= |t| && from == t[..len] && to == t[r.0..r.1]
    ensures FromLazy(t, len, arrows) == Some((from, to))
  {
  }

  /** The sender `f` ends right before the arrow, on a character `.` matches. */
  lemma SenderEnd(t: string, f: string, a: string)
    requires |f| > 0 && AllWordChars(f) && |a| > 0 && a[0] == '-'
    requires |f| + |a| <= |t| && t[..|f|] == f && t[|f|..|f| + |a|] == a
    ensures WsRun(t[|f|..]) == 0 && !IsLineTerminator(t[|f| - 1])
  {
    assert t[|f|..][0] == t[|f|..|f| + |a|][0];
    assert t[|f| - 1] == t[..|f|][|f| - 1];
  }

  /** The receiver is the text between the arrow and the `:`. */
  lemma ReceiverSlice(t: string, p: nat, to: string, rest: string)
    requires p <= |t| && t[p..] == to + ":" + rest
    ensures p + |to| <= |t| && t[p..p + |to|] == to
  {
    assert t[p..p + |to|] == t[p..][..|to|];
    assert (to + ":" + rest)[..|to|] == to;
  }

  /** The sender capture `f`, followed by a matching arrow, is accepted. */
  lemma FromLazyHit(t: string, f: string, a: string, to: string, rest: string, arrows: seq<string>)
    requires |f| > 0 && AllWordChars(f) && |a| > 0 && a[0] == '-'
    requires |f| + |a| <= |t| && t[..|f|] == f && t[|f|..|f| + |a|] == a && t[|f| + |a|..] == to + ":" + rest
    requires ArrowFrom(t, |f|, arrows) == Some((|f| + |a|, |f| + |a| + |to|))
    ensures FromLazy(t, |f|, arrows) == Some((f, to))
  {
    var p := |f| + |a|;
    SenderEnd(t, f, a);
    ReceiverSlice(t, p, to, rest);
    FromLazyAt(t, |f|, (p, p + |to|), arrows, f, to);
  }

  /** Sender captures shorter than a leading run of word characters are all rejected. */
  lemma FromLazyScan(t: string, n: nat, len: nat, arrows: seq<string>)
    requires 1 <= len <= n <= |t| && DashLed(arrows)
    requires forall i :: 0 <= i < n ==> IsWordChar(t[i])
    ensures FromLazy(t, len, arrows) == FromLazy(t, n, arrows)
  {
    forall k | len <= k < n
      ensures FromLazy(t, k, arrows) == FromLazy(t, k + 1, arrows)
    {
      FromLazySkip(t, k, arrows);
    }
    var g := k => if k >= 1 then FromLazy(t, k, arrows) else None;
    ChainEqual(g, len, n);
  }

  /** `F <arrow> T:rest` with word-character names yields F and T. */
  lemma SimpleMessage(f: string, a: string, to: string, rest: string)
    requires |f| > 0 && AllWordChars(f) && IsArrow(a) && |to| > 0 && AllWordChars(to) && RestMatches(rest)
    ensures MessageCapture(f + a + to + ":" + rest) == Some((f, to))
  {
    var t := f + a + to + ":" + rest;
    MessageParts(f, a, to, rest);
    SenderAccepted(t, f, a, to, rest);
    SenderScanned(t, f);
  }

  /** The sender capture that is exactly `f` succeeds on a message line. */
  lemma SenderAccepted(t: string, f: string, a: string, to: string, rest: string)
    requires |f| > 0 && AllWordChars(f) && IsArrow(a) && |to| > 0 && AllWordChars(to) && RestMatches(rest)
    requires |t| == |f| + |a| + |to| + 1 + |rest|
    requires t[..|f|] == f && t[|f|..|f| + |a|] == a && t[|f| + |a|..] == to + ":" + rest
    ensures FromLazy(t, |f|, Arrows) == Some((f, to))
  {
    assert ArrowFrom(t, |f|, Arrows) == Some((|f| + |a|, |f| + |a| + |to|)) by {
      MessageArrow(t, |f|, a, to, rest);
    }
    assert |a| > 0 && a[0] == '-' by {
      ArrowDash(a);
    }
    SenderAtArrow(t, f, a, to, rest);
  }

  /** Once the arrow at the end of `f` is known to match, the sender capture is `f`. */
  lemma SenderAtArrow(t: string, f: string, a: string, to: string, rest: string)
    requires |f| > 0 && AllWordChars(f) && |a| > 0 && a[0] == '-'
    requires |t| == |f| + |a| + |to| + 1 + |rest|
    requires t[..|f|] == f && t[|f|..|f| + |a|] == a && t[|f| + |a|..] == to + ":" + rest
    requires ArrowFrom(t, |f|, Arrows) == Some((|f| + |a|, |f| + |a| + |to|))
    ensures FromLazy(t, |f|, Arrows) == Some((f, to))
  {
    FromLazyHit(t, f, a, to, rest, Arrows);
  }

  /** The arrow written at `q` is the alternative taken, and the receiver runs to the `:`. */
  lemma MessageArrow(t: string, q: nat, a: string, to: string, rest: string)
    requires IsArrow(a) && |to| > 0 && AllWordChars(to) && RestMatches(rest)
    requires q + |a| + |to| + 1 + |rest| == |t| && t[q..q + |a|] == a && t[q + |a|..] == to + ":" + rest
    ensures ArrowFrom(t, q, Arrows) == Some((q + |a|, q + |a| + |to|))
  {
    var p := q + |a|;
    AfterArrowTo(t, p, to, rest);
    assert t[p] == to[0] by { assert t[p..][0] == to[0]; }
    ArrowAt(t, q, a, (p, p + |to|));
  }

  /** Shorter sender captures inside the word-character name `f` all fail. */
  lemma SenderScanned(t: string, f: string)
    requires 0 < |f| <= |t| && AllWordChars(f) && forall i :: 0 <= i < |f| ==> t[i] == f[i]
    ensures FromLazy(t, 1, Arrows) == FromLazy(t, |f|, Arrows)
  {
    assert DashLed(Arrows);
    FromLazyScan(t, |f|, 1, Arrows);
  }

  /** How a message line is laid out around its arrow. */
  lemma MessageParts(f: string, a: string, to: string, rest: string)
    ensures var t := f + a + to + ":" + rest;
            |t| == |f| + |a| + |to| + 1 + |rest| && t == f + a + (to + ":" + rest)
            && t[..|f|] == f && t[|f|..|f| + |a|] == a && t[|f| + |a|..] == to + ":" + rest
            && forall i :: 0 <= i < |f| ==> t[i] == f[i]
  {
    var t := f + a + to + ":" + rest;
    assert t == f + a + (to + ":" + rest);
  }

  /** No arrow starts where there is no `-`. */
  lemma NoArrowWithoutDash(t: string, q: nat, arrows: seq<string>)
    requires q <= |t| && DashLed(arrows) && (q == |t| || t[q] != '-')
    ensures ArrowFrom(t, q, arrows) == None
    decreases |arrows|
  {
    if |arrows| > 0 {
      assert !StartsWith(t[q..], arrows[0]) by {
        if q < |t| && |arrows[0]| <= |t[q..]| { assert t[q..][..|arrows[0]|][0] == t[q]; }
      }
      NoArrowWithoutDash(t, q, arrows[1..]);
    }
  }

  /** A line without `-` is not a message line. */
  lemma {:induction false} NoMessageWithoutDash(t: string, len: nat, arrows: seq<string>)
    requires 1 <= len && DashLed(arrows)
    requires forall i :: 0 <= i < |t| ==> t[i] != '-'
    ensures FromLazy(t, len, arrows) == None
    decreases |t| + 1 - len
  {
    if len <= |t| && !IsLineTerminator(t[len - 1]) {
      var q := len + WsRun(t[len..]);
      NoArrowWithoutDash(t, q, arrows);
      NoMessageWithoutDash(t, len + 1, arrows);
    }
  }

  /** A plain `participant X` line offers exactly X. */
  lemma DeclarationLine(x: string)
    requires |x| > 0 && AllWordChars(x)
    ensures LineNames("participant " + x) == [x]
  {
    var t := "participant " + x;
    assert DeclCapture(t, "participant") == Some(x) by {
      ParticipantSpace(x);
      WordsNoAlias(x);
      DeclPlain("participant", x);
    }
    NoDashInDeclaration(x);
    assert DashLed(Arrows);
    NoMessageWithoutDash(t, 1, Arrows);
    DeclaredNames(t, x);
    WordsTrimmed(x);
  }

  lemma ParticipantSpace(x: string)
    ensures "participant " + x == "participant" + " " + x
  {
  }

  lemma NoDashInDeclaration(x: string)
    requires AllWordChars(x)
    ensures forall i :: 0 <= i < |"participant " + x| ==> ("participant " + x)[i] != '-'
  {
    var t := "participant " + x;
    forall i | 0 <= i < |t| ensures t[i] != '-' {
      if i >= 12 { assert t[i] == x[i - 12]; }
    }
  }

  /** A `participant` declaration that is no message offers its one name, trimmed. */
  lemma DeclaredNames(t: string, x: string)
    requires DeclCapture(t, "participant") == Some(x) && MessageCapture(t) == None
    ensures LineNames(t) == [Trim(x)]
  {
  }

  /** A message line that is no declaration offers the sender, then the receiver, trimmed. */
  lemma MessageNames(t: string, x: string, y: string)
    requires DeclCapture(t, "participant") == None && DeclCapture(t, "actor") == None
    requires MessageCapture(t) == Some((x, y))
    ensures LineNames(t) == [Trim(x), Trim(y)]
  {
  }

  /**
   * A line that opens with word characters and then `-` declares nothing:
   * after the keyword comes a word character or that `-`, never the white
   * space the declaration needs.
   */
  lemma NoDeclaration(t: string, n: nat, kw: string)
    requires n < |t| && AllWordChars(t[..n]) && t[n] == '-'
    requires AllWordChars(kw)
    ensures DeclCapture(t, kw) == None
  {
    if n < |kw| {
      KeywordBeforeDash(t, n, kw);
    } else if StartsWith(t, kw) {
      var u := t[|kw|..];
      assert u[0] == t[|kw|];
      if |kw| < n { assert t[|kw|] == t[..n][|kw|]; }
    }
  }

  /** A keyword of word characters longer than the word before the `-` cannot start the line. */
  lemma KeywordBeforeDash(t: string, n: nat, kw: string)
    requires n < |t| && t[n] == '-' && AllWordChars(kw) && n < |kw|
    ensures !StartsWith(t, kw)
  {
    if |kw| <= |t| {
      assert t[..|kw|][n] != kw[n];
    }
  }

  lemma KeywordsAreWords()
    ensures AllWordChars("participant") && AllWordChars("actor")
  {
  }

  /** A message line between word-character names offers the sender, then the receiver. */
  lemma MessageLine(f: string, a: string, to: string, rest: string)
    requires |f| > 0 && AllWordChars(f) && IsArrow(a) && |to| > 0 && AllWordChars(to) && RestMatches(rest)
    ensures LineNames(f + a + to + ":" + rest) == [f, to]
  {
    var t := f + a + to + ":" + rest;
    ArrowDash(a);
    assert t[..|f|] == f && t[|f|] == a[0];
    KeywordsAreWords();
    NoDeclaration(t, |f|, "participant");
    NoDeclaration(t, |f|, "actor");
    SimpleMessage(f, a, to, rest);
    MessageNames(t, f, to);
    WordsTrimmed(f);
    WordsTrimmed(to);
  }

  /** A diagram of one trimmed line lists that line's names, each once. */
  lemma OneLine(t: string)
    requires '\n' !in t && IsTrimmed(t)
    ensures ParseParticipants(t) == AddNew([], LineNames(t))
  {
    SplitSingle(t);
    TrimmedIsFixed(t);
    assert LineGroups([t]) == [LineNames(t)] by {
      assert LineGroups([t])[0] == LineNamesOf(t);
    }
    assert Collect([LineNames(t)]) == AddNew(Collect([]), LineNames(t)) by {
      assert [LineNames(t)][..0] == [];
    }
  }

  /** A message from a participant to itself lists it once. */
  lemma SelfMessage(x: string, rest: string)
    requires |x| > 0 && AllWordChars(x)
    requires RestMatches(rest) && NoLineTerminator(rest) && !IsWhitespace(rest[|rest| - 1])
    ensures ParseParticipants(x + "->>" + x + ":" + rest) == [x]
  {
    var t := x + "->>" + x + ":" + rest;
    MessageLine(x, "->>", x, rest);
    assert t[0] == x[0] && t[|t| - 1] == rest[|rest| - 1];
    assert '\n' !in t by {
      forall i | 0 <= i < |t| ensures t[i] != '\n' {
        var k := |x| + 3 + |x| + 1;
        if i >= k { assert t[i] == rest[i - k]; }
      }
    }
    OneLine(t);
    AddTwice(x);
  }

  lemma AddTwice(x: string)
    ensures AddNew([], [x, x]) == [x]
  {
    var n := [x, x];
    var e: seq<string> := [];
    assert n[1..] == [x] && [x][1..] == e;
    assert n[0] !in e && e + [n[0]] == [x];
    assert AddNew(e, n) == AddNew([x], [x]);
    assert x in [x];
    assert AddNew([x], [x]) == AddNew([x], e);
  }

  // ---------------------------------------------------------------------------
  // The annotation map
  // ---------------------------------------------------------------------------

  /** The edit form: `Partial<ParticipantInfo>`, so each field may be missing. */
  datatype EditForm = EditForm(description: Option<string>, role: Option<string>, notes: Option<string>)

  /** `handleEditClick`: the form opens with the stored fields, `""` where there are none. */
  function FormFor(m: CustomParticipants, key: string): (r: EditForm)
    ensures r.description.Some? && r.role.Some? && r.notes.Some?
    ensures key !in m ==> r.description.value == "" && r.role.value == "" && r.notes.value == ""
  {
    if key in m then EditForm(Some(m[key].description), Some(m[key].role), Some(m[key].notes))
    else EditForm(Some(""), Some(""), Some(""))
  }

  /**
   * `handleSaveEdit`: nothing happens without a participant being edited (`null`
   * or `""`); otherwise the entry for it is written with id and name equal to
   * the key and every other entry is left alone.
   */
  function SaveParticipant(m: CustomParticipants, editing: Option<string>, form: EditForm): (r: CustomParticipants)
    ensures editing.None? || editing.value == "" ==> r == m
    ensures editing.Some? && editing.value != "" ==>
              var key := editing.value;
              && key in r && r[key].id == key && r[key].name == key
              && r[key].description == form.description.GetOr("")
              && r[key].role == form.role.GetOr("")
              && r[key].notes == form.notes.GetOr("")
              && (forall k :: k != key ==> (k in r <==> k in m))
              && (forall k :: k != key && k in m ==> r[k] == m[k])
  {
    if editing.None? || editing.value == "" then m
    else
      var key := editing.value;
      m[key := ParticipantInfo(key, key, form.description.GetOr(""), form.role.GetOr(""), form.notes.GetOr(""))]
  }

  /** `handleClearParticipant`: only the key goes; every other entry is left alone. */
  function ClearParticipant(m: CustomParticipants, key: string): (r: CustomParticipants)
    ensures key !in r
    ensures forall k :: k != key ==> (k in r <==> k in m)
    ensures forall k :: k != key && k in m ==> r[k] == m[k]
  {
    m - {key}
  }

  /** An entry written by the editor: id and name are its key. */
  predicate Keyed(m: CustomParticipants) {
    forall k :: k in m ==> m[k].id == k && m[k].name == k
  }

  /** Saving keeps every entry keyed, and so does clearing. */
  lemma SaveKeepsKeyed(m: CustomParticipants, editing: Option<string>, form: EditForm)
    requires Keyed(m)
    ensures Keyed(SaveParticipant(m, editing, form))
    ensures forall k :: Keyed(ClearParticipant(m, k))
  {
  }

  /** Opening the editor on a stored entry and saving it unchanged leaves the map as it was. */
  lemma SaveUnchanged(m: CustomParticipants, key: string)
    requires Keyed(m) && key in m && key != ""
    ensures SaveParticipant(m, Some(key), FormFor(m, key)) == m
  {
    var r := SaveParticipant(m, Some(key), FormFor(m, key));
    assert r[key] == m[key];
  }

  /** Clearing after saving is the same as clearing: the save leaves no trace. */
  lemma ClearUndoesSave(m: CustomParticipants, key: string, form: EditForm)
    requires key != ""
    ensures ClearParticipant(SaveParticipant(m, Some(key), form), key) == ClearParticipant(m, key)
  {
    var a := ClearParticipant(SaveParticipant(m, Some(key), form), key);
    var b := ClearParticipant(m, key);
    assert forall k :: k in a <==> k in b;
  }
}
