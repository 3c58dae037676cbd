/**
 * The message list behind the tooltip editor (`parseMessagesFromMermaid`)
 * and the tooltip map it edits (`handleStartEdit`, `handleSaveEdit`).
 *
 * A line is a request when its trimmed text matches
 * `/^([\w\s]+)->>([^:]+):\s*(.+)$/` and otherwise a response when it matches
 * the same pattern with `-->>`; every match gets the next id `msg-<n>`.
 */
module Messages {
  import opened Wrappers
  import opened JsString

  datatype MessageStep = MessageStep(id: string, from: string, to: string, message: string, isResponse: bool)

  /** `CustomTooltips`: message id to tooltip text. */
  type Tooltips = map<string, string>

  // ---------------------------------------------------------------------------
  // The two message patterns
  // ---------------------------------------------------------------------------

  /** The class `[\w\s]`. */
  predicate IsWordOrSpace(c: char) {
    IsWordChar(c) || IsWhitespace(c)
  }

  /** The class `[^:]`. */
  predicate NotColon(c: char) {
    c != ':'
  }

  /**
   * Where the group `(.+)` of `:\s*(.+)$` starts when the `:` is at `e`: the
   * greedy `\s*` takes the whole white-space run unless that leaves nothing,
   * in which case it gives back one character.
   */
  function MessageStart(t: string, e: nat): (st: nat)
    requires e + 1 < |t|
    ensures e + 1 <= st < |t|
  {
    var s := ScanWhile(t, e + 1, IsWhitespace);
    if s < |t| then s else |t| - 1
  }

  /**
   * The three groups of `/^([\w\s]+)<arrow>([^:]+):\s*(.+)$/` on `t`,
   * untrimmed. Neither greedy group can give anything back: the character
   * after the sender run is not in `[\w\s]` and must start the arrow, and the
   * character after the receiver run must be the first `:`. Giving back white
   * space to `(.+)` only lengthens it, so the match exists exactly when the
   * capture at `MessageStart` holds no line terminator.
   */
  function Capture(t: string, arrow: string): (r: Option<(string, string, string)>)
  {
    var k := ScanWhile(t, 0, IsWordOrSpace);
    if k == 0 || k + |arrow| > |t| || t[k..k + |arrow|] != arrow then None
    else
      var p := k + |arrow|;
      var e := ScanWhile(t, p, NotColon);
      if e == p || e + 1 >= |t| then None
      else
        var st := MessageStart(t, e);
        if ScanWhile(t, st, NotTerminator) < |t| then None
        else Some((t[..k], t[p..e], t[st..]))
  }

  /** The groups are laid end to end in `t`, with only white space between `:` and the message. */
  ghost predicate Assembles(t: string, arrow: string, f: string, to: string, m: string) {
    exists w :: AllWhitespace(w) && t == f + arrow + to + ":" + w + m
  }

  /** Each group is of the regex's class. */
  predicate GroupsShaped(f: string, to: string, m: string) {
    && |f| > 0 && (forall i :: 0 <= i < |f| ==> IsWordOrSpace(f[i]))
    && |to| > 0 && ':' !in to
    && |m| > 0 && NoLineTerminator(m)
  }

  /** What `Capture` returns is a decomposition of the line with groups of the right classes. */
  lemma CaptureSound(t: string, arrow: string)
    requires Capture(t, arrow).Some?
    ensures var c := Capture(t, arrow).value;
            GroupsShaped(c.0, c.1, c.2) && Assembles(t, arrow, c.0, c.1, c.2)
  {
    var c := Capture(t, arrow).value;
    var k := ScanWhile(t, 0, IsWordOrSpace);
    var p := k + |arrow|;
    var e := ScanWhile(t, p, NotColon);
    var st := MessageStart(t, e);
    assert c == (t[..k], t[p..e], t[st..]);
    assert ':' !in c.1 by {
      forall x | 0 <= x < |c.1| ensures c.1[x] != ':' { assert c.1[x] == t[p + x] && NotColon(t[p + x]); }
    }
    assert NoLineTerminator(c.2) by {
      forall x | 0 <= x < |c.2| ensures !IsLineTerminator(c.2[x]) { assert c.2[x] == t[st + x] && NotTerminator(t[st + x]); }
    }
    var w := t[e + 1..st];
    assert AllWhitespace(w) by {
      forall x | 0 <= x < |w| ensures IsWhitespace(w[x]) { assert w[x] == t[e + 1 + x]; }
    }
    Assemble(t, c.0, arrow, c.1, w, c.2, k, e, st);
  }

  /** Six consecutive pieces of a line make up the line. */
  lemma Assemble(t: string, f: string, arrow: string, to: string, w: string, m: string, k: nat, e: nat, st: nat)
    requires k + |arrow| <= e < st <= |t| && t[..k] == f && t[k..k + |arrow|] == arrow
    requires t[k + |arrow|..e] == to && t[e] == ':' && t[e + 1..st] == w && t[st..] == m
    requires AllWhitespace(w)
    ensures Assembles(t, arrow, f, to, m)
  {
    var p := k + |arrow|;
    assert t == t[..k] + t[k..p] + t[p..e] + [t[e]] + t[e + 1..st] + t[st..];
    assert t == f + arrow + to + ":" + w + m;
  }

  /**
   * Conversely, every such decomposition whose message starts with a visible
   * character is found, with exactly these groups.
   */
  lemma CaptureComplete(f: string, arrow: string, to: string, w: string, m: string)
    requires |arrow| > 0 && arrow[0] == '-'
    requires GroupsShaped(f, to, m) && AllWhitespace(w) && !IsWhitespace(m[0])
    ensures Capture(f + arrow + to + ":" + w + m, arrow) == Some((f, to, m))
  {
    var t := f + arrow + to + ":" + w + m;
    var k := |f|;
    var p := k + |arrow|;
    var e := p + |to|;
    var st := e + 1 + |w|;
    Layout(t, f, arrow, to, w, m);
    ScanWhileAt(t, 0, k, IsWordOrSpace);
    ScanWhileAt(t, p, e, NotColon);
    ScanWhileAt(t, e + 1, st, IsWhitespace);
    assert MessageStart(t, e) == st;
    ScanWhileAt(t, st, |t|, NotTerminator);
  }

  /** The characters of an assembled line, piece by piece. */
  lemma Layout(t: string, f: string, arrow: string, to: string, w: string, m: string)
    requires |arrow| > 0 && arrow[0] == '-'
    requires GroupsShaped(f, to, m) && AllWhitespace(w) && !IsWhitespace(m[0])
    requires t == f + arrow + to + ":" + w + m
    ensures var p := |f| + |arrow|;
            var e := p + |to|;
            var st := e + 1 + |w|;
            && |t| == st + |m|
            && (forall x :: 0 <= x < |f| ==> IsWordOrSpace(t[x])) && !IsWordOrSpace(t[|f|])
            && t[|f|..p] == arrow
            && (forall x :: p <= x < e ==> NotColon(t[x])) && !NotColon(t[e])
            && (forall x :: e + 1 <= x < st ==> IsWhitespace(t[x])) && !IsWhitespace(t[st])
            && (forall x :: st <= x < |t| ==> NotTerminator(t[x]))
            && t[..|f|] == f && t[p..e] == to && t[st..] == m
  {
    var p := |f| + |arrow|;
    var e := p + |to|;
    var st := e + 1 + |w|;
    assert t[..|f|] == f;
    assert t[|f|..p] == arrow;
    assert t[p..e] == to;
    assert t[e] == ':';
    assert t[e + 1..st] == w;
    assert t[st..] == m;
    forall x | 0 <= x < |f| ensures IsWordOrSpace(t[x]) { assert t[x] == f[x]; }
    assert t[|f|] == arrow[0];
    forall x | p <= x < e ensures NotColon(t[x]) { assert t[x] == to[x - p]; assert to[x - p] in to; }
    forall x | e + 1 <= x < st ensures IsWhitespace(t[x]) { assert t[x] == w[x - e - 1]; }
    assert t[st] == m[0];
    forall x | st <= x < |t| ensures NotTerminator(t[x]) { assert t[x] == m[x - st]; }
  }

  /** No line matches both patterns: the character after `-` decides. */
  lemma RequestOrResponse(t: string)
    ensures !(Capture(t, "->>").Some? && Capture(t, "-->>").Some?)
  {
    var k := ScanWhile(t, 0, IsWordOrSpace);
    if Capture(t, "->>").Some? {
      assert t[k..k + 3] == "->>";
      assert t[k + 1] == '>';
      assert !(t[k..k + 4] == "-->>");
    }
  }

  // ---------------------------------------------------------------------------
  // The extractor
  // ---------------------------------------------------------------------------

  /** What a message line yields before it is numbered: the trimmed groups and which arrow matched. */
  datatype Matched = Matched(from: string, to: string, message: string, isResponse: bool)

  /** A trimmed line tried against the request pattern, then against the response pattern. */
  function LineMatch(t: string): Option<Matched> {
    match Capture(t, "->>")
    case Some(c) => Some(Matched(Trim(c.0), Trim(c.1), Trim(c.2), false))
    case None =>
      match Capture(t, "-->>")
      case Some(c) => Some(Matched(Trim(c.0), Trim(c.1), Trim(c.2), true))
      case None => None
  }

  /** The match of every line, trimmed first. */
  function LineMatches(lines: seq<string>): (r: seq<Option<Matched>>)
    ensures |r| == |lines|
  {
    if |lines| == 0 then [] else [LineMatch(Trim(lines[0]))] + LineMatches(lines[1..])
  }

  /** The id of the `n`-th message found: `msg-${index}`. */
  function MessageId(n: nat): string {
    "msg-" + NatToString(n)
  }

  /** The matches numbered from `index` on, skipping the lines that matched neither pattern. */
  function Number(found: seq<Option<Matched>>, index: nat): (r: seq<MessageStep>)
    ensures |r| <= |found|
    ensures forall i :: 0 <= i < |r| ==> r[i].id == MessageId(index + i)
    decreases |found|
  {
    if |found| == 0 then []
    else
      match found[0]
      case Some(x) => [MessageStep(MessageId(index), x.from, x.to, x.message, x.isResponse)] + Number(found[1..], index + 1)
      case None => Number(found[1..], index)
  }

  /** The steps of a diagram given as its lines. */
  function ParseLines(lines: seq<string>): seq<MessageStep> {
    Number(LineMatches(lines), 0)
  }

  /**
   * `parseMessagesFromMermaid`: every message has a non-empty sender and
   * text, all three parts trimmed, and a receiver without a colon.
   */
  function ParseMessages(code: string): (r: seq<MessageStep>)
    ensures forall i :: 0 <= i < |r| ==> StepShaped(r[i])
  {
    ParseLinesShaped(Split(code));
    ParseLines(Split(code))
  }

  /** Numbering `a + b` numbers `a`, then `b` from where `a` stopped. */
  lemma {:induction false} NumberAppend(a: seq<Option<Matched>>, b: seq<Option<Matched>>, index: nat)
    ensures Number(a + b, index) == Number(a, index) + Number(b, index + |Number(a, index)|)
    decreases |a|
  {
    if |a| == 0 {
      assert a + b == b;
    } else {
      assert (a + b)[0] == a[0] && (a + b)[1..] == a[1..] + b;
      if a[0].Some? {
        NumberAppend(a[1..], b, index + 1);
      } else {
        NumberAppend(a[1..], b, index);
      }
    }
  }

  lemma {:induction false} LineMatchesAppend(a: seq<string>, b: seq<string>)
    ensures LineMatches(a + b) == LineMatches(a) + LineMatches(b)
    decreases |a|
  {
    if |a| == 0 {
      assert a + b == b;
    } else {
      assert (a + b)[0] == a[0] && (a + b)[1..] == a[1..] + b;
      LineMatchesAppend(a[1..], b);
    }
  }

  /** The steps of lines `a + b`: those of `a`, then those of `b` numbered on. */
  lemma ParseLinesAppend(a: seq<string>, b: seq<string>)
    ensures ParseLines(a + b) == ParseLines(a) + Number(LineMatches(b), |ParseLines(a)|)
  {
    LineMatchesAppend(a, b);
    NumberAppend(LineMatches(a), LineMatches(b), 0);
  }

  /** The loop of the source, with its running `index`. */
  method ParseMessagesLoop(code: string) returns (messages: seq<MessageStep>)
    ensures messages == ParseMessages(code)
  {
    messages := ParseLinesLoop(Split(code));
  }

  method ParseLinesLoop(lines: seq<string>) returns (messages: seq<MessageStep>)
    ensures messages == ParseLines(lines)
  {
    ghost var found := LineMatches(lines);
    messages := [];
    var index := 0;
    var i := 0;
    while i < |lines|
      invariant 0 <= i <= |lines|
      invariant messages == Number(found[..i], 0)
      invariant index == |messages|
    {
      LineMatchesAt(lines, i);
      NumberStep(found, i);
      messages, index := AddLine(messages, index, lines[i]);
      i := i + 1;
    }
    assert found[..|lines|] == found;
  }

  /** The loop body: a message line is pushed with the next id, and the id counter moves on. */
  method AddLine(messages: seq<MessageStep>, index: nat, line: string) returns (messages': seq<MessageStep>, index': nat)
    requires index == |messages|
    ensures messages' == messages + Number([LineMatch(Trim(line))], index)
    ensures index' == |messages'|
  {
    var m := LineMatch(Trim(line));
    NumberOne(m, index);
    messages', index' := messages, index;
    if m.Some? {
      messages' := messages + [MessageStep(MessageId(index), m.value.from, m.value.to, m.value.message, m.value.isResponse)];
      index' := index + 1;
    }
  }

  lemma {:induction false} LineMatchesAt(lines: seq<string>, i: nat)
    requires i < |lines|
    ensures LineMatches(lines)[i] == LineMatch(Trim(lines[i]))
    decreases i
  {
    if i > 0 {
      LineMatchesAt(lines[1..], i - 1);
    }
  }

  /** A single line's contribution. */
  lemma NumberOne(m: Option<Matched>, index: nat)
    ensures Number([m], index) == if m.Some? then [MessageStep(MessageId(index), m.value.from, m.value.to, m.value.message, m.value.isResponse)] else []
  {
    assert [m][1..] == [];
  }

  /** One more line for the loop. */
  lemma NumberStep(found: seq<Option<Matched>>, i: nat)
    requires i < |found|
    ensures var n := Number(found[..i], 0);
            Number(found[..i + 1], 0) == n + Number([found[i]], |n|)
  {
    assert found[..i + 1] == found[..i] + [found[i]];
    NumberAppend(found[..i], [found[i]], 0);
  }

  /** Ids are `msg-0`, `msg-1`, … without gaps, so no two steps share one. */
  lemma IdsDistinct(code: string)
    ensures var r := ParseMessages(code);
            forall i, j :: 0 <= i < j < |r| ==> r[i].id != r[j].id
  {
    var r := ParseMessages(code);
    forall i, j | 0 <= i < j < |r| ensures r[i].id != r[j].id {
      NatToStringInjective(i, j);
      assert MessageId(i)[4..] == NatToString(i);
      assert MessageId(j)[4..] == NatToString(j);
    }
  }

  /** A step's sender and message are visible, its receiver holds no `:`, and all three are trimmed. */
  predicate MatchShaped(x: Matched) {
    x.from != "" && x.message != "" && ':' !in x.to
    && IsTrimmed(x.from) && IsTrimmed(x.to) && IsTrimmed(x.message)
  }

  predicate StepShaped(s: MessageStep) {
    MatchShaped(Matched(s.from, s.to, s.message, s.isResponse))
  }

  /** A trimmed line's groups trim to a well-shaped step. */
  lemma CaptureTrims(t: string, arrow: string)
    requires IsTrimmed(t) && Capture(t, arrow).Some?
    ensures var c := Capture(t, arrow).value;
            MatchShaped(Matched(Trim(c.0), Trim(c.1), Trim(c.2), false))
  {
    var c := Capture(t, arrow).value;
    CaptureSound(t, arrow);
    var w :| AllWhitespace(w) && t == c.0 + arrow + c.1 + ":" + w + c.2;
    assert t[0] == c.0[0];
    assert !AllWhitespace(c.0);
    assert t[|t| - 1] == c.2[|c.2| - 1];
    assert !AllWhitespace(c.2);
    var r := Trim(c.1);
    forall i | 0 <= i < |r| ensures r[i] != ':' {
      assert r[i] == c.1[WsRun(c.1) + i];
    }
  }

  lemma LineMatchShaped(t: string)
    requires IsTrimmed(t) && LineMatch(t).Some?
    ensures MatchShaped(LineMatch(t).value)
  {
    if Capture(t, "->>").Some? {
      CaptureTrims(t, "->>");
    } else {
      CaptureTrims(t, "-->>");
    }
  }

  lemma {:induction false} NumberShaped(found: seq<Option<Matched>>, index: nat)
    requires forall i :: 0 <= i < |found| && found[i].Some? ==> MatchShaped(found[i].value)
    ensures forall i :: 0 <= i < |Number(found, index)| ==> StepShaped(Number(found, index)[i])
    decreases |found|
  {
    if |found| > 0 {
      if found[0].Some? {
        NumberShaped(found[1..], index + 1);
      } else {
        NumberShaped(found[1..], index);
      }
    }
  }


  lemma ParseLinesShaped(lines: seq<string>)
    ensures forall i :: 0 <= i < |ParseLines(lines)| ==> StepShaped(ParseLines(lines)[i])
  {
    var found := LineMatches(lines);
    forall i | 0 <= i < |found| && found[i].Some? ensures MatchShaped(found[i].value) {
      LineMatchesAt(lines, i);
      LineMatchShaped(Trim(lines[i]));
    }
    NumberShaped(found, 0);
  }

  /** A diagram of one trimmed line has that line's step, if any, as `msg-0`. */
  lemma OneLine(t: string)
    requires '\n' !in t && IsTrimmed(t)
    ensures ParseMessages(t) == Number([LineMatch(t)], 0)
  {
    SplitSingle(t);
    TrimmedIsFixed(t);
    assert LineMatches([t]) == [LineMatch(Trim(t))] by {
      assert [t][1..] == [];
    }
  }

  /** A request line between plain names becomes one step with those names and that text. */
  lemma RequestLine(f: string, to: string, m: string)
    requires |f| > 0 && AllWordChars(f) && |to| > 0 && AllWordChars(to)
    requires |m| > 0 && NoLineTerminator(m) && IsTrimmed(m)
    ensures ParseMessages(f + "->>" + to + ": " + m) == [MessageStep("msg-0", f, to, m, false)]
  {
    var t := f + "->>" + to + ": " + m;
    var x := Matched(f, to, m, false);
    assert LineMatch(t) == Some(x) by { RequestMatch(f, to, m); }
    assert ParseMessages(t) == Number([Some(x)], 0) by {
      RequestLineShape(f, to, m);
      OneLine(t);
    }
    NumberOne(Some(x), 0);
    FirstId();
  }

  lemma FirstId()
    ensures MessageId(0) == "msg-0"
  {
    assert NatToString(0) == ['0'];
  }

  lemma RequestMatch(f: string, to: string, m: string)
    requires |f| > 0 && AllWordChars(f) && |to| > 0 && AllWordChars(to)
    requires |m| > 0 && NoLineTerminator(m) && IsTrimmed(m)
    ensures LineMatch(f + "->>" + to + ": " + m) == Some(Matched(f, to, m, false))
  {
    var t := f + "->>" + to + ": " + m;
    assert Capture(t, "->>") == Some((f, to, m)) by {
      assert t == f + "->>" + to + ":" + " " + m;
      assert AllWhitespace(" ");
      assert GroupsShaped(f, to, m) by {
        forall j | 0 <= j < |f| ensures IsWordOrSpace(f[j]) { }
        assert ':' !in to by { forall j | 0 <= j < |to| ensures to[j] != ':' { assert IsWordChar(to[j]); } }
      }
      CaptureComplete(f, "->>", to, " ", m);
    }
    TrimmedIsFixed(f);
    TrimmedIsFixed(to);
    TrimmedIsFixed(m);
  }

  lemma RequestLineShape(f: string, to: string, m: string)
    requires |f| > 0 && AllWordChars(f) && |to| > 0 && AllWordChars(to)
    requires |m| > 0 && NoLineTerminator(m) && IsTrimmed(m)
    ensures var t := f + "->>" + to + ": " + m;
            '\n' !in t && IsTrimmed(t)
  {
    var t := f + "->>" + to + ": " + m;
    var k := |f| + 3 + |to| + 2;
    assert |t| == k + |m|;
    forall j | 0 <= j < |t| ensures t[j] != '\n' {
      if j < |f| { assert t[j] == f[j]; }
      else if j >= k { assert t[j] == m[j - k]; }
      else if j < |f| + 3 { assert t[j] == "->>"[j - |f|]; }
      else if j < |f| + 3 + |to| { assert t[j] == to[j - |f| - 3]; }
      else { assert t[j] == ": "[j - |f| - 3 - |to|]; }
    }
    assert t[0] == f[0] && t[|t| - 1] == m[|m| - 1];
  }

  // ---------------------------------------------------------------------------
  // The tooltip map
  // ---------------------------------------------------------------------------

  /**
   * `handleStartEdit`: the editor opens with the stored tooltip, or `""`.
   * Since stored tooltips are never empty, it opens empty exactly when the
   * message has none.
   */
  function StartEdit(m: Tooltips, id: string): (r: string)
    ensures r == "" || id in m
    ensures WellFormed(m) ==> (r == "" <==> id !in m)
  {
    if id in m then m[id] else ""
  }

  /**
   * `handleSaveEdit`: a value that trims to something is stored trimmed; a
   * blank one removes the tooltip. Every other id keeps its tooltip.
   */
  function SaveTooltip(m: Tooltips, id: string, value: string): (r: Tooltips)
    ensures forall k :: k != id ==> (k in r <==> k in m) && (k in m ==> r[k] == m[k])
    ensures id in r <==> !AllWhitespace(value)
  {
    var v := Trim(value);
    if v != "" then m[id := v] else m - {id}
  }

  /** Stored tooltips are trimmed and non-empty. */
  predicate WellFormed(m: Tooltips) {
    forall k :: k in m ==> m[k] != "" && IsTrimmed(m[k])
  }

  lemma SaveKeepsWellFormed(m: Tooltips, id: string, value: string)
    requires WellFormed(m)
    ensures WellFormed(SaveTooltip(m, id, value))
  {
  }

  /** Opening the editor and saving without a change leaves a well-formed map as it was. */
  lemma EditUnchanged(m: Tooltips, id: string)
    requires WellFormed(m)
    ensures SaveTooltip(m, id, StartEdit(m, id)) == m
  {
    if id in m {
      ResaveStored(m, id);
    } else {
      SaveBlankAbsent(m, id);
    }
  }

  /** Saving a stored tooltip again changes nothing. */
  lemma ResaveStored(m: Tooltips, id: string)
    requires WellFormed(m) && id in m
    ensures SaveTooltip(m, id, m[id]) == m
  {
    TrimmedIsFixed(m[id]);
    assert m[id := m[id]] == m;
  }

  /** Saving a blank value for an id without a tooltip changes nothing. */
  lemma SaveBlankAbsent(m: Tooltips, id: string)
    requires id !in m
    ensures SaveTooltip(m, id, "") == m
  {
    assert m - {id} == m;
  }

  /** Reopening the editor after a save shows the saved value, trimmed. */
  lemma SaveThenEdit(m: Tooltips, id: string, value: string)
    ensures StartEdit(SaveTooltip(m, id, value), id) == Trim(value)
  {
  }
}
