/**
 * The PlantUML to Mermaid converter (`lib/plantuml-to-mermaid.ts`):
 * `convertPlantUmlToMermaid` as a classifier of each trimmed input line
 * followed by an emitter of at most one Mermaid line, and the `isPlantUml`
 * heuristic.
 *
 * Each regular expression is an explicit search in the order JavaScript's
 * backtracking explores it: a lazy `(.+?)` tries its captures shortest
 * first, a greedy `\s*` or `>?` longest first, alternatives left to right.
 */
module PlantUml {
  import opened Wrappers
  import opened JsString

  /** Which of the three message patterns matched. */
  datatype Pattern = Dashed | Solid | Lenient

  /** What one trimmed input line is. */
  datatype Line =
    | Skip
      // a marker, blank, styling, title or note-delimiter line, or a declaration the pattern rejects
    | Decl(keyword: string, name: string, alias: Option<string>)
      // `participant` or `actor`: the display name and the optional `as` alias
    | Note(position: string, first: Option<string>, second: Option<string>, text: string)
      // a one-line note
    | Block(keyword: string, rest: Option<string>)
      // alt/else/end/loop/opt/par/critical/break/activate/deactivate and what follows
    | Msg(pattern: Pattern, from: string, arrow: string, to: string, text: string)
      // a message, its parts trimmed
    | Drop
      // a line no rule takes

  // ---------------------------------------------------------------------------
  // Character classes and small matchers
  // ---------------------------------------------------------------------------

  /** The class `[^"]`. */
  predicate NotQuote(c: char) {
    c != '"'
  }

  /** `w` (lower case) occurs at `i`, compared without regard to ASCII case (the `i` flag). */
  predicate LowerAt(t: string, i: nat, w: string) {
    i + |w| <= |t| && AsciiLower(t[i..i + |w|]) == w
  }

  /** `w` occurs at `i`, exactly. */
  predicate WordAt(t: string, i: nat, w: string) {
    i + |w| <= |t| && t[i..i + |w|] == w
  }

  /** The trailing `\s*(.*)$` from `i`: the capture, when the rest holds no line terminator after the white space. */
  function TailStar(t: string, i: nat): (r: Option<string>)
    requires i <= |t|
    ensures r.Some? ==> NoLineTerminator(r.value) && (|r.value| == 0 || !IsWhitespace(r.value[0]))
  {
    var s := ScanWhile(t, i, IsWhitespace);
    if ScanWhile(t, s, NotTerminator) == |t| then
      assert forall x :: 0 <= x < |t| - s ==> t[s..][x] == t[s + x];
      Some(t[s..])
    else None
  }

  /**
   * The trailing `\s*(.+)$` from `i`: the greedy `\s*` gives back one
   * character when it would leave nothing for `(.+)`.
   */
  function TailPlus(t: string, i: nat): (r: Option<string>)
    requires i <= |t|
    ensures r.Some? ==> |r.value| > 0 && NoLineTerminator(r.value)
  {
    if i == |t| then None
    else
      var s := ScanWhile(t, i, IsWhitespace);
      var st := if s < |t| then s else |t| - 1;
      if ScanWhile(t, st, NotTerminator) == |t| then
        assert forall x :: 0 <= x < |t| - st ==> t[st..][x] == t[st + x];
        Some(t[st..])
      else None
  }

  // ---------------------------------------------------------------------------
  // `/^participant\s+"?([^"]+)"?\s*(?:as\s+(\w+))?/` (and the same for `actor`)
  // ---------------------------------------------------------------------------

  /**
   * `"?([^"]+)` at `p`: the bounds of the capture. The quote is taken when
   * present; without it, `[^"]+` cannot start at a quote.
   */
  function NameAt(t: string, p: nat): (r: Option<(nat, nat)>)
    requires p <= |t|
    ensures r.Some? ==> p <= r.value.0 < r.value.1 <= |t|
    ensures r.Some? ==> forall x :: r.value.0 <= x < r.value.1 ==> NotQuote(t[x])
  {
    if p < |t| && t[p] == '"' && ScanWhile(t, p + 1, NotQuote) > p + 1 then Some((p + 1, ScanWhile(t, p + 1, NotQuote)))
    else if p < |t| && t[p] != '"' then Some((p, ScanWhile(t, p, NotQuote)))
    else None
  }

  /**
   * `\s+"?([^"]+)` after the keyword ending at `base`, with `\s+` taking `n`
   * characters and then fewer. The greedy `[^"]+` takes its whole run and
   * everything after it is optional, so its first capture is the result.
   */
  function DeclFrom(t: string, base: nat, n: nat): (r: Option<(nat, nat)>)
    requires base + n <= |t|
    ensures r.Some? ==> base < r.value.0 < r.value.1 <= |t|
    ensures r.Some? ==> forall x :: r.value.0 <= x < r.value.1 ==> NotQuote(t[x])
    decreases n
  {
    if n == 0 then None
    else
      match NameAt(t, base + n)
      case Some(r) => Some(r)
      case None => DeclFrom(t, base, n - 1)
  }

  /** `"?\s*(?:as\s+(\w+))?` after the name ending at `e`: the alias, if the group matches. */
  function AliasAfter(t: string, e: nat): (r: Option<string>)
    requires e <= |t|
    ensures r.Some? ==> |r.value| > 0 && AllWordChars(r.value)
  {
    var a := if e < |t| && t[e] == '"' then e + 1 else e;
    var s := ScanWhile(t, a, IsWhitespace);
    if WordAt(t, s, "as") then
      var w := ScanWhile(t, s + 2, IsWhitespace);
      if w > s + 2 && w < |t| && IsWordChar(t[w]) then
        var k := ScanWhile(t, w, IsWordChar);
        assert forall x :: 0 <= x < k - w ==> t[w..k][x] == t[w + x];
        Some(t[w..k])
      else None
    else None
  }

  /** A `participant ` or `actor ` line: its declaration, or `Skip` when the pattern fails. */
  function DeclLine(t: string, keyword: string): (r: Line)
    requires |keyword| <= |t|
    ensures r.Skip? || r.Decl?
    ensures r.Decl? ==> r.keyword == keyword && |r.name| > 0 && '"' !in r.name
    ensures r.Decl? ==> forall i :: 0 <= i < |r.name| ==> r.name[i] in t
    ensures r.Decl? && r.alias.Some? ==> |r.alias.value| > 0 && AllWordChars(r.alias.value)
  {
    var base := |keyword|;
    match DeclFrom(t, base, ScanWhile(t, base, IsWhitespace) - base)
    case None => Skip
    case Some((q, e)) =>
      assert forall x :: 0 <= x < e - q ==> t[q..e][x] == t[q + x];
      Decl(keyword, t[q..e], AliasAfter(t, e))
  }

  // ---------------------------------------------------------------------------
  // `/^note\s+(left|right|over)\s*(?:of\s+)?(\w+)?(?:\s*,\s*(\w+))?\s*:\s*(.+)$/i`
  // ---------------------------------------------------------------------------

  /** `(left|right|over)` at `p`, without regard to case: the length taken. */
  function PositionAt(t: string, p: nat): (k: nat)
    ensures k == 0 || k == 4 || k == 5
    ensures k > 0 ==> p + k <= |t|
  {
    if LowerAt(t, p, "left") then 4
    else if LowerAt(t, p, "right") then 5
    else if LowerAt(t, p, "over") then 4
    else 0
  }

  /** Where `^note\s+(left|right|over)` ends, or 0 when it does not match. */
  function NoteHead(t: string): (h: nat)
    ensures h == 0 || (6 <= h <= |t| && LowerAt(t, 0, "note"))
  {
    if LowerAt(t, 0, "note") then
      var p := ScanWhile(t, 4, IsWhitespace);
      if p > 4 && PositionAt(t, p) > 0 then p + PositionAt(t, p) else 0
    else 0
  }

  /**
   * `(\w+)?(?:\s*,\s*(\w+))?\s*:` from `x`: the two participants and the
   * index of the colon. Giving back word characters or white space only
   * puts them where `,` or `:` is needed, so the greedy choices are the
   * only ones that can succeed.
   */
  function NoteParticipants(t: string, x: nat): (r: Option<(Option<string>, Option<string>, nat)>)
    requires x <= |t|
    ensures r.Some? ==> x <= r.value.2 < |t| && t[r.value.2] == ':'
    ensures r.Some? && r.value.0.Some? ==> |r.value.0.value| > 0 && AllWordChars(r.value.0.value)
    ensures r.Some? && r.value.1.Some? ==> |r.value.1.value| > 0 && AllWordChars(r.value.1.value)
  {
    var w := ScanWhile(t, x, IsWordChar);
    assert forall y :: 0 <= y < w - x ==> t[x..w][y] == t[x + y];
    var first := if w > x then Some(t[x..w]) else None;
    var s1 := ScanWhile(t, w, IsWhitespace);
    var second: Option<(string, nat)> :=
      if s1 < |t| && t[s1] == ',' then
        var s2 := ScanWhile(t, s1 + 1, IsWhitespace);
        var w2 := ScanWhile(t, s2, IsWordChar);
        assert forall y :: 0 <= y < w2 - s2 ==> t[s2..w2][y] == t[s2 + y];
        if w2 > s2 then
          var s3 := ScanWhile(t, w2, IsWhitespace);
          if s3 < |t| && t[s3] == ':' then Some((t[s2..w2], s3)) else None
        else None
      else None;
    match second
    case Some((p2, c)) => Some((first, Some(p2), c))
    case None => if s1 < |t| && t[s1] == ':' then Some((first, None, s1)) else None
  }

  /**
   * The one-line note pattern. The optional `of\s+` is tried first; when the
   * rest fails after it, the participants are read from where it would
   * have started.
   */
  function NoteMatch(t: string): (r: Option<Line>)
    ensures r.Some? ==> r.value.Note? && ':' in t
    ensures r.Some? ==> AsciiLower(r.value.position) in {"left", "right", "over"}
    ensures r.Some? ==> forall i :: 0 <= i < |r.value.position| ==> r.value.position[i] in t
    ensures r.Some? && r.value.first.Some? ==> |r.value.first.value| > 0 && AllWordChars(r.value.first.value)
    ensures r.Some? && r.value.second.Some? ==> |r.value.second.value| > 0 && AllWordChars(r.value.second.value)
    ensures r.Some? ==> |r.value.text| > 0 && NoLineTerminator(r.value.text)
  {
    var h := NoteHead(t);
    if h == 0 then None
    else
      var p := ScanWhile(t, 4, IsWhitespace);
      var a := ScanWhile(t, h, IsWhitespace);
      var withOf: Option<(Option<string>, Option<string>, nat)> :=
        if LowerAt(t, a, "of") && a + 2 < |t| && IsWhitespace(t[a + 2]) then
          NoteParticipants(t, ScanWhile(t, a + 2, IsWhitespace))
        else None;
      var parts := if withOf.Some? then withOf else NoteParticipants(t, a);
      match parts
      case None => None
      case Some((first, second, c)) =>
        match TailPlus(t, c + 1)
        case None => None
        case Some(text) => Some(Note(t[p..h], first, second, text))
  }

  // ---------------------------------------------------------------------------
  // `/^(.+?)\s*(<arrows>)\s*(.+?)\s*:\s*(.*)$/`
  // ---------------------------------------------------------------------------

  /** The arrows of the dashed pattern `(-->>?|<<--?)`, in the order they are tried. */
  const DashedArrows: seq<string> := ["-->>", "-->", "<<--", "<<-"]

  /** The arrows of the solid pattern `(->>?|<<-?)`, in the order they are tried. */
  const SolidArrows: seq<string> := ["->>", "->", "<<-", "<<"]

  /** The arrows of the lenient pattern `(<<?--?>>?|--?>>?|<<--?)`, in the order they are tried. */
  const LenientArrows: seq<string> := [
    "<<-->>", "<<-->", "<<->>", "<<->", "<-->>", "<-->", "<->>", "<->",
    "-->>", "-->", "->>", "->",
    "<<--", "<<-"]

  /** The four captures of a message pattern, untrimmed. */
  datatype Captures = Captures(from: string, arrow: string, to: string, text: string)

  /**
   * The lazy receiver `(.+?)` from `r0`, ending at `e` and then later, each
   * followed by `\s*:` and a tail that matches: the end and the tail.
   */
  function ReceiverFrom(t: string, r0: nat, e: nat): (r: Option<(nat, string)>)
    requires r0 < e <= |t|
    ensures r.Some? ==> e <= r.value.0 <= |t| && NoLineTerminator(r.value.1)
    ensures r.Some? ==> forall x :: e - 1 <= x < r.value.0 ==> !IsLineTerminator(t[x])
    decreases |t| - e
  {
    if IsLineTerminator(t[e - 1]) then None
    else
      var s := ScanWhile(t, e, IsWhitespace);
      if s < |t| && t[s] == ':' && TailStar(t, s + 1).Some? then Some((e, TailStar(t, s + 1).value))
      else if e < |t| then ReceiverFrom(t, r0, e + 1)
      else None
  }

  /**
   * The `\s*` after the arrow ending at `p`, taking `w` characters and then
   * fewer, followed by the receiver: its bounds and the tail.
   */
  function AfterArrow(t: string, p: nat, w: nat): (r: Option<(nat, nat, string)>)
    requires p + w <= |t|
    ensures r.Some? ==> p <= r.value.0 < r.value.1 <= |t| && NoLineTerminator(r.value.2)
    ensures r.Some? ==> forall x :: r.value.0 <= x < r.value.1 ==> !IsLineTerminator(t[x])
    decreases w
  {
    var recv: Option<(nat, string)> := if p + w < |t| then ReceiverFrom(t, p + w, p + w + 1) else None;
    match recv
    case Some((e, tail)) => Some((p + w, e, tail))
    case None => if w == 0 then None else AfterArrow(t, p, w - 1)
  }

  /** One arrow alternative `a` tried at `q`: the receiver's bounds and the tail. */
  function ArrowTry(t: string, q: nat, a: string): (r: Option<(nat, nat, string)>)
    requires q <= |t|
    ensures r.Some? ==> |a| > 0 && WordAt(t, q, a)
    ensures r.Some? ==> q + |a| <= r.value.0 < r.value.1 <= |t| && NoLineTerminator(r.value.2)
    ensures r.Some? ==> forall x :: r.value.0 <= x < r.value.1 ==> !IsLineTerminator(t[x])
  {
    if |a| > 0 && WordAt(t, q, a) then
      var p := q + |a|;
      AfterArrow(t, p, ScanWhile(t, p, IsWhitespace) - p)
    else None
  }

  /** The arrow alternatives tried in order at `q`: the arrow, the receiver's bounds and the tail. */
  function ArrowFrom(t: string, q: nat, arrows: seq<string>): (r: Option<(string, nat, nat, string)>)
    requires q <= |t|
    ensures r.Some? ==> r.value.0 in arrows
    ensures r.Some? ==> q < r.value.1 < r.value.2 <= |t| && NoLineTerminator(r.value.3)
    ensures r.Some? ==> forall x :: r.value.1 <= x < r.value.2 ==> !IsLineTerminator(t[x])
    decreases |arrows|
  {
    if |arrows| == 0 then None
    else
      match ArrowTry(t, q, arrows[0])
      case Some(r) => Some((arrows[0], r.0, r.1, r.2))
      case None => ArrowFrom(t, q, arrows[1..])
  }

  /** The alternative `ArrowFrom` picks is one of `arrows`, and trying it alone succeeds the same way. */
  lemma {:induction false} ArrowFromSound(t: string, q: nat, arrows: seq<string>, a: string, i: nat, j: nat, text: string)
    requires q <= |t| && ArrowFrom(t, q, arrows) == Some((a, i, j, text))
    ensures a in arrows && ArrowTry(t, q, a) == Some((i, j, text))
    decreases |arrows|
  {
    if ArrowTry(t, q, arrows[0]).None? {
      ArrowFromSound(t, q, arrows[1..], a, i, j, text);
      assert a in arrows[1..];
    }
  }

  /**
   * The lazy sender `(.+?)` with capture length `len` and up. The `\s*`
   * before the arrow takes the whole white-space run: giving any back leaves
   * white space where the arrow's `-` or `<` must be.
   */
  function SenderFrom(t: string, len: nat, arrows: seq<string>): (r: Option<Captures>)
    requires 1 <= len
    ensures r.Some? ==> r.value.arrow in arrows
    ensures r.Some? ==> len <= |r.value.from| <= |t| && r.value.from == t[..|r.value.from|]
    ensures r.Some? ==> NoLineTerminator(r.value.to) && NoLineTerminator(r.value.text)
    ensures r.Some? ==> forall x :: len - 1 <= x < |r.value.from| ==> !IsLineTerminator(r.value.from[x])
    decreases |t| + 1 - len
  {
    if len > |t| || IsLineTerminator(t[len - 1]) then None
    else
      match ArrowFrom(t, ScanWhile(t, len, IsWhitespace), arrows)
      case Some(r) => Some(Captures(t[..len], r.0, t[r.1..r.2], r.3))
      case None => SenderFrom(t, len + 1, arrows)
  }

  /** A message pattern with the given arrow alternatives, on a whole line. */
  function MessageMatch(t: string, arrows: seq<string>): (r: Option<Captures>)
    ensures r.Some? ==> r.value.arrow in arrows
    ensures r.Some? ==> NoLineTerminator(r.value.from) && NoLineTerminator(r.value.to) && NoLineTerminator(r.value.text)
  {
    SenderFrom(t, 1, arrows)
  }

  /** The message branch: the dashed pattern, else the solid one, else the lenient one. */
  function MessageLine(t: string): (r: Line)
    ensures r.Msg? || r.Drop?
    ensures r.Msg? ==> r.arrow in (match r.pattern case Dashed => DashedArrows case Solid => SolidArrows case Lenient => LenientArrows)
    ensures r.Msg? ==> NoLineTerminator(r.from) && NoLineTerminator(r.to) && NoLineTerminator(r.text)
    ensures r.Msg? ==> IsTrimmed(r.from) && IsTrimmed(r.to) && IsTrimmed(r.text)
  {
    match MessageMatch(t, DashedArrows)
    case Some(c) => Msg(Dashed, Trim(c.from), c.arrow, Trim(c.to), Trim(c.text))
    case None =>
      match MessageMatch(t, SolidArrows)
      case Some(c) => Msg(Solid, Trim(c.from), c.arrow, Trim(c.to), Trim(c.text))
      case None =>
        match MessageMatch(t, LenientArrows)
        case Some(c) => Msg(Lenient, Trim(c.from), c.arrow, Trim(c.to), Trim(c.text))
        case None => Drop
  }

  // ---------------------------------------------------------------------------
  // The classifier and the emitter
  // ---------------------------------------------------------------------------

  /** The block keywords that take trailing text, each with its space. */
  const BlockPrefixes: seq<string> :=
    ["alt ", "else ", "loop ", "opt ", "par ", "critical ", "break ", "activate ", "deactivate "]

  /** The first block prefix of `ps` that `t` starts with. */
  function BlockPrefix(t: string, ps: seq<string>): (r: Option<string>)
    ensures r.Some? ==> r.value in ps && |r.value| > 0 && StartsWith(t, r.value)
  {
    if |ps| == 0 then None
    else if |ps[0]| > 0 && StartsWith(t, ps[0]) then Some(ps[0])
    else BlockPrefix(t, ps[1..])
  }

  /**
   * The loop body's decision for one trimmed line, rule by rule in the
   * source's order. A declaration comes only from a line that starts with its
   * keyword and a space, and a block only from a line that starts with its
   * keyword.
   */
  function Classify(t: string): (r: Line)
    ensures r.Decl? ==> (r.keyword == "participant" || r.keyword == "actor") && StartsWith(t, r.keyword + " ")
    ensures r.Block? ==> StartsWith(t, r.keyword)
  {
    if StartsWith(t, "@startuml") || StartsWith(t, "@enduml") then Skip
    else if t == "" then Skip
    else if StartsWith(t, "skinparam") || StartsWith(t, "hide ") || StartsWith(t, "show ") then Skip
    else if StartsWith(t, "title ") then Skip
    else if StartsWith(t, "participant ") then DeclLine(t, "participant")
    else if StartsWith(t, "actor ") then DeclLine(t, "actor")
    else if NoteMatch(t).Some? then NoteMatch(t).value
    else if NoteHead(t) > 0 && ':' !in t then Skip
    else if t == "end note" then Skip
    else if t == "else" || t == "end" then Block(t, None)
    else
      match BlockPrefix(t, BlockPrefixes)
      case Some(p) => Block(p[..|p| - 1], Some(t[|p|..]))
      case None => MessageLine(t)
  }

  /** The Mermaid arrow of a message and whether its ends swap. */
  function MermaidArrow(pattern: Pattern, arrow: string): (string, bool) {
    match pattern
    case Dashed => ("-->>", Contains(arrow, "<<"))
    case Solid => ("->>", Contains(arrow, "<<"))
    case Lenient => (if Contains(arrow, "--") then "-->>" else "->>", StartsWith(arrow, "<"))
  }

  /** The Mermaid line (at most one) a classified line contributes. */
  function Emit(l: Line): (r: seq<string>)
    ensures |r| <= 1
  {
    match l
    case Skip => []
    case Drop => []
    case Decl(keyword, name, alias) =>
      if alias.Some? then ["    " + keyword + " " + alias.value + " as " + name]
      else ["    " + keyword + " " + CollapseWhitespace(name)]
    case Note(position, first, second, text) =>
      if AsciiLower(position) == "over" && first.Some? then
        if second.Some? then ["    Note over " + first.value + "," + second.value + ": " + text]
        else ["    Note over " + first.value + ": " + text]
      else if first.Some? then ["    Note " + position + " of " + first.value + ": " + text]
      else []
    case Block(keyword, rest) =>
      if rest.Some? then ["    " + keyword + " " + rest.value] else ["    " + keyword]
    case Msg(pattern, from, arrow, to, text) =>
      var (a, swap) := MermaidArrow(pattern, arrow);
      if swap then ["    " + to + a + from + ": " + text]
      else ["    " + from + a + to + ": " + text]
  }

  /** The Mermaid lines of the input lines, in order. */
  function EmitLines(lines: seq<string>): (r: seq<string>)
    ensures |r| <= |lines|
  {
    if |lines| == 0 then []
    else Emit(Classify(Trim(lines[0]))) + EmitLines(lines[1..])
  }

  /**
   * `convertPlantUmlToMermaid`: the output always opens with the
   * `sequenceDiagram` header, which is all an empty input gives.
   */
  function Convert(plantUml: string): (r: string)
    ensures |r| >= 15 && r[..15] == "sequenceDiagram"
    ensures plantUml == "" ==> r == "sequenceDiagram"
  {
    var lines := ["sequenceDiagram"] + EmitLines(Split(plantUml));
    assert lines[0] == "sequenceDiagram";
    if plantUml == "" then
      SplitSingle("");
      assert Trim("") == "";
      Join(lines)
    else
      Join(lines)
  }

  // ---------------------------------------------------------------------------
  // `isPlantUml`
  // ---------------------------------------------------------------------------

  /** `isPlantUml`: on the trimmed, lower-cased text. A blank text is not PlantUML. */
  predicate IsPlantUml(code: string)
    ensures Trim(code) == "" ==> !IsPlantUml(code)
  {
    var t := AsciiLower(Trim(code));
    || StartsWith(t, "@startuml")
    || (Contains(t, "->") && !Contains(t, "->>"))
    || (Contains(t, "participant") && !Contains(t, "sequencediagram"))
  }

  // ---------------------------------------------------------------------------
  // The shape of the output
  // ---------------------------------------------------------------------------

  /** Every text a classified line carries is free of `'\n'`. */
  predicate LineClean(l: Line) {
    match l
    case Skip => true
    case Drop => true
    case Decl(keyword, name, alias) => '\n' !in keyword && '\n' !in name && (alias.Some? ==> '\n' !in alias.value)
    case Note(position, first, second, text) =>
      && '\n' !in position && '\n' !in text
      && (first.Some? ==> '\n' !in first.value) && (second.Some? ==> '\n' !in second.value)
    case Block(keyword, rest) => '\n' !in keyword && (rest.Some? ==> '\n' !in rest.value)
    case Msg(_, from, arrow, to, text) => '\n' !in from && '\n' !in arrow && '\n' !in to && '\n' !in text
  }

  lemma DeclClean(t: string, keyword: string)
    requires |keyword| <= |t| && '\n' !in t && '\n' !in keyword
    ensures LineClean(DeclLine(t, keyword))
  {
    var l := DeclLine(t, keyword);
    if l.Decl? {
      assert '\n' !in l.name by {
        forall i | 0 <= i < |l.name| ensures l.name[i] != '\n' { assert l.name[i] in t; }
      }
    }
  }

  lemma NoteClean(t: string)
    requires '\n' !in t && NoteMatch(t).Some?
    ensures LineClean(NoteMatch(t).value)
  {
    var l := NoteMatch(t).value;
    assert '\n' !in l.position by {
      forall i | 0 <= i < |l.position| ensures l.position[i] != '\n' { assert l.position[i] in t; }
    }
  }

  lemma BlockClean(t: string, p: string)
    requires '\n' !in t && |p| > 0 && StartsWith(t, p)
    ensures LineClean(Block(p[..|p| - 1], Some(t[|p|..])))
  {
    assert p[..|p| - 1] == t[..|p| - 1];
    assert forall c :: c in t[..|p| - 1] ==> c in t;
    assert forall c :: c in t[|p|..] ==> c in t;
  }

  /** Every arrow of the three patterns is made of `-`, `<` and `>`. */
  lemma ArrowsClean(arrows: seq<string>)
    requires arrows == DashedArrows || arrows == SolidArrows || arrows == LenientArrows
    ensures forall a :: a in arrows ==> '\n' !in a
  {
    forall a | a in arrows ensures '\n' !in a {
      var k :| 0 <= k < |arrows| && arrows[k] == a;
    }
  }

  lemma MessageClean(t: string)
    ensures LineClean(MessageLine(t))
  {
    var l := MessageLine(t);
    if l.Msg? {
      ArrowsClean(DashedArrows);
      ArrowsClean(SolidArrows);
      ArrowsClean(LenientArrows);
    }
  }

  /** A line of the input (which `split('\n')` leaves without `'\n'`) classifies to clean parts. */
  lemma ClassifyClean(t: string)
    requires '\n' !in t
    ensures LineClean(Classify(t))
  {
    if StartsWith(t, "@startuml") || StartsWith(t, "@enduml") || t == "" {
    } else if StartsWith(t, "skinparam") || StartsWith(t, "hide ") || StartsWith(t, "show ") || StartsWith(t, "title ") {
    } else if StartsWith(t, "participant ") {
      DeclClean(t, "participant");
    } else if StartsWith(t, "actor ") {
      DeclClean(t, "actor");
    } else if NoteMatch(t).Some? {
      NoteClean(t);
    } else if (NoteHead(t) > 0 && ':' !in t) || t == "end note" || t == "else" || t == "end" {
    } else if BlockPrefix(t, BlockPrefixes).Some? {
      BlockClean(t, BlockPrefix(t, BlockPrefixes).value);
    } else {
      MessageClean(t);
    }
  }

  /** An emitted line is indented by four spaces and, from clean parts, free of `'\n'`. */
  lemma EmitClean(l: Line)
    requires LineClean(l)
    ensures forall m :: m in Emit(l) ==> StartsWith(m, "    ") && '\n' !in m
  {
    if l.Decl? && l.alias.None? {
      var c := CollapseWhitespace(l.name);
      assert '\n' !in c by {
        forall i | 0 <= i < |c| ensures c[i] != '\n' { assert c[i] == ' ' || !IsWhitespace(c[i]); }
      }
    }
  }

  /** All emitted lines are indented and free of `'\n'`. */
  lemma {:induction false} EmitLinesClean(lines: seq<string>)
    requires forall i :: 0 <= i < |lines| ==> '\n' !in lines[i]
    ensures forall i :: 0 <= i < |EmitLines(lines)| ==> StartsWith(EmitLines(lines)[i], "    ") && '\n' !in EmitLines(lines)[i]
    decreases |lines|
  {
    if |lines| > 0 {
      var t := Trim(lines[0]);
      assert '\n' !in t by {
        forall i | 0 <= i < |t| ensures t[i] != '\n' { TrimChars(lines[0], i); }
      }
      ClassifyClean(t);
      EmitClean(Classify(t));
      EmitLinesClean(lines[1..]);
      var head, rest := Emit(Classify(t)), EmitLines(lines[1..]);
      assert EmitLines(lines) == head + rest;
      forall i | 0 <= i < |head + rest| ensures StartsWith((head + rest)[i], "    ") && '\n' !in (head + rest)[i] {
        if i < |head| { assert (head + rest)[i] in head; } else { assert (head + rest)[i] == rest[i - |head|]; }
      }
    }
  }

  /**
   * The converted text is the header line followed by one indented line per
   * input line that produces output: splitting it again gives exactly those
   * lines.
   */
  lemma ConvertLines(plantUml: string)
    ensures Split(Convert(plantUml)) == ["sequenceDiagram"] + EmitLines(Split(plantUml))
    ensures forall i :: 1 <= i < |Split(Convert(plantUml))| ==> StartsWith(Split(Convert(plantUml))[i], "    ")
    ensures |Split(Convert(plantUml))| <= 1 + |Split(plantUml)|
  {
    var body := EmitLines(Split(plantUml));
    EmitLinesClean(Split(plantUml));
    var all := ["sequenceDiagram"] + body;
    forall i | 0 <= i < |all| ensures '\n' !in all[i] {
      if i > 0 { assert all[i] == body[i - 1]; }
    }
    SplitJoin(all);
  }
}
