/**
 * What the three message patterns of `convertPlantUmlToMermaid` do with a
 * message line written the ordinary way, `from arrow to : text`: which
 * pattern takes it, with which captures, and which arrows none of them
 * takes.
 */
module PlantUmlMessages {
  import opened Wrappers
  import opened JsString
  import opened PlantUml

  // ---------------------------------------------------------------------------
  // Arrow lists
  // ---------------------------------------------------------------------------

  /** The characters arrows are drawn with. */
  predicate ArrowChar(c: char) {
    c == '-' || c == '<' || c == '>'
  }

  /** Every alternative is non-empty, starts with `-` or `<` and is drawn with arrow characters only. */
  predicate ArrowList(arrows: seq<string>) {
    forall j :: 0 <= j < |arrows| ==>
      && |arrows[j]| > 0
      && (arrows[j][0] == '-' || arrows[j][0] == '<')
      && (forall i :: 0 <= i < |arrows[j]| ==> ArrowChar(arrows[j][i]))
  }

  lemma PatternArrowLists()
    ensures ArrowList(DashedArrows) && ArrowList(SolidArrows) && ArrowList(LenientArrows)
  {
  }

  /** A name or text the patterns can read past: no line terminator, and nothing an arrow starts with. */
  predicate Plain(s: string) {
    NoLineTerminator(s) && '-' !in s && '<' !in s
  }

  // ---------------------------------------------------------------------------
  // Where no arrow alternative matches
  // ---------------------------------------------------------------------------

  /** When no alternative is written at `q`, the arrow group fails there. */
  lemma {:induction false} NoWordNoArrow(t: string, q: nat, arrows: seq<string>)
    requires q <= |t|
    requires forall j :: 0 <= j < |arrows| ==> !WordAt(t, q, arrows[j])
    ensures ArrowFrom(t, q, arrows) == None
    decreases |arrows|
  {
    if |arrows| > 0 {
      assert !WordAt(t, q, arrows[0]);
      assert forall j :: 0 <= j < |arrows[1..]| ==> arrows[1..][j] == arrows[j + 1];
      NoWordNoArrow(t, q, arrows[1..]);
    }
  }

  /** The arrow group fails where the text holds neither `-` nor `<`. */
  lemma NoArrowHere(t: string, q: nat, arrows: seq<string>)
    requires q <= |t| && ArrowList(arrows)
    requires q == |t| || (t[q] != '-' && t[q] != '<')
    ensures ArrowFrom(t, q, arrows) == None
  {
    assert forall j :: 0 <= j < |arrows| ==> !WordAt(t, q, arrows[j]);
    NoWordNoArrow(t, q, arrows);
  }

  /** An alternative `w` matches where `u` is followed by a space only if it is a prefix of `u`. */
  lemma NotWordAt(t: string, q: nat, u: string, w: string)
    requires q + |u| < |t| && t[q..q + |u|] == u && t[q + |u|] == ' '
    requires forall i :: 0 <= i < |w| ==> ArrowChar(w[i])
    requires !StartsWith(u, w)
    ensures !WordAt(t, q, w)
  {
  }

  /**
   * Inside an arrow `a` that is followed by a space, at offset `k`, an
   * alternative can only match if it is a prefix of the rest of `a`.
   */
  lemma NoArrowInside(t: string, pre: string, a: string, rest: string, k: nat, arrows: seq<string>)
    requires t == pre + a + " " + rest && k <= |a| && ArrowList(arrows)
    requires forall j :: 0 <= j < |arrows| ==> !StartsWith(a[k..], arrows[j])
    ensures ArrowFrom(t, |pre| + k, arrows) == None
  {
    var q := |pre| + k;
    assert t[q..q + |a[k..]|] == a[k..] && t[q + |a[k..]|] == ' ';
    forall j | 0 <= j < |arrows| ensures !WordAt(t, q, arrows[j]) {
      NotWordAt(t, q, a[k..], arrows[j]);
    }
    NoWordNoArrow(t, q, arrows);
  }

  /** The lazy sender finds nothing when no arrow alternative matches at any `-` or `<` from `len` on. */
  lemma {:induction false} SenderNone(t: string, len: nat, arrows: seq<string>)
    requires 1 <= len && ArrowList(arrows)
    requires forall x :: len <= x < |t| && (t[x] == '-' || t[x] == '<') ==> ArrowFrom(t, x, arrows) == None
    ensures SenderFrom(t, len, arrows) == None
    decreases |t| + 1 - len
  {
    if len <= |t| && !IsLineTerminator(t[len - 1]) {
      var q := ScanWhile(t, len, IsWhitespace);
      if q == |t| || (t[q] != '-' && t[q] != '<') {
        NoArrowHere(t, q, arrows);
      }
      SenderNone(t, len + 1, arrows);
    }
  }

  /** The lazy sender reads past a plain, trimmed name `f` at the start of the line. */
  lemma SenderPast(t: string, f: string, arrows: seq<string>, len: nat)
    requires ArrowList(arrows) && |f| > 0 && IsTrimmed(f) && Plain(f)
    requires |f| <= |t| && t[..|f|] == f
    requires 1 <= len <= |f|
    ensures SenderFrom(t, len, arrows) == SenderFrom(t, |f|, arrows)
  {
    forall k | len <= k < |f|
      ensures SenderFrom(t, k, arrows) == SenderFrom(t, k + 1, arrows)
    {
      SenderStep(t, f, arrows, k);
    }
    var g := k => if k >= 1 then SenderFrom(t, k, arrows) else None;
    ChainEqual(g, len, |f|);
  }

  /** A sender capture ending inside `f` finds no arrow after it. */
  lemma SenderStep(t: string, f: string, arrows: seq<string>, len: nat)
    requires ArrowList(arrows) && |f| > 0 && IsTrimmed(f) && Plain(f)
    requires |f| <= |t| && t[..|f|] == f
    requires 1 <= len < |f|
    ensures SenderFrom(t, len, arrows) == SenderFrom(t, len + 1, arrows)
  {
    assert t[len - 1] == f[len - 1];
    var q := ScanWhile(t, len, IsWhitespace);
    assert t[|f| - 1] == f[|f| - 1];
    assert q < |f|;
    assert t[q] == f[q];
    NoArrowHere(t, q, arrows);
  }

  // ---------------------------------------------------------------------------
  // The receiver and the text
  // ---------------------------------------------------------------------------

  /** The lazy receiver stops at the end of a trimmed `to` without `:`, and the text is what follows ` : `. */
  lemma {:induction false} ReceiverTo(t: string, pre: string, e: nat, to: string, m: string)
    requires t == pre + to + " : " + m
    requires |to| > 0 && IsTrimmed(to) && NoLineTerminator(to) && ':' !in to
    requires IsTrimmed(m) && NoLineTerminator(m)
    requires |pre| < e <= |pre| + |to|
    ensures ReceiverFrom(t, |pre|, e) == Some((|pre| + |to|, m))
    decreases |pre| + |to| - e
  {
    var r0 := |pre|;
    var end := r0 + |to|;
    assert t[e - 1] == to[e - 1 - r0];
    var s := ScanWhile(t, e, IsWhitespace);
    if e < end {
      assert t[end - 1] == to[|to| - 1];
      assert s < end;
      assert t[s] == to[s - r0];
      ReceiverTo(t, pre, e + 1, to, m);
    } else {
      assert t[e] == ' ' && t[e + 1] == ':' && t[e + 2] == ' ';
      ScanWhileAt(t, e, e + 1, IsWhitespace);
      assert t[e + 3..] == m;
      assert e + 3 == |t| || t[e + 3] == m[0];
      ScanWhileAt(t, e + 2, e + 3, IsWhitespace);
      assert forall x :: e + 3 <= x < |t| ==> t[x] == m[x - (e + 3)];
      ScanWhileAt(t, e + 3, |t|, NotTerminator);
      assert TailStar(t, e + 2) == Some(m);
    }
  }

  /** After an arrow ending at `|pre|` and one space, the receiver is `to` and the text is `m`. */
  lemma AfterArrowTo(t: string, pre: string, p: nat, to: string, m: string)
    requires t == pre + " " + to + " : " + m && p == |pre|
    requires |to| > 0 && IsTrimmed(to) && NoLineTerminator(to) && ':' !in to
    requires IsTrimmed(m) && NoLineTerminator(m)
    ensures p < |t| && AfterArrow(t, p, ScanWhile(t, p, IsWhitespace) - p) == Some((p + 1, p + 1 + |to|, m))
  {
    assert t[p] == ' ' && t[p + 1] == to[0];
    ScanWhileAt(t, p, p + 1, IsWhitespace);
    ReceiverTo(t, pre + " ", p + 2, to, m);
  }

  /**
   * At the start of an arrow `a` followed by a space, the arrow group takes
   * the `k`-th alternative when it is `a`, no earlier one is a prefix of
   * `a`, and the rest of the line matches after `a`.
   */
  lemma {:induction false} ArrowPick(t: string, q: nat, arrows: seq<string>, k: nat, a: string, p: nat, res: (nat, nat, string))
    requires ArrowList(arrows) && k < |arrows| && arrows[k] == a && p == q + |a|
    requires p < |t| && t[q..p] == a && t[p] == ' '
    requires forall j :: 0 <= j < k ==> !StartsWith(a, arrows[j])
    requires AfterArrow(t, p, ScanWhile(t, p, IsWhitespace) - p) == Some(res)
    ensures ArrowFrom(t, q, arrows) == Some((a, res.0, res.1, res.2))
    decreases k
  {
    if k > 0 {
      NotWordAt(t, q, a, arrows[0]);
      assert ArrowFrom(t, q, arrows) == ArrowFrom(t, q, arrows[1..]);
      var rest := arrows[1..];
      assert rest[k - 1] == a;
      ArrowPick(t, q, rest, k - 1, a, p, res);
    }
  }

  // ---------------------------------------------------------------------------
  // A message line `from arrow to : text`
  // ---------------------------------------------------------------------------

  /** A message line written with single spaces around the arrow and before the colon. */
  function MessageText(f: string, a: string, to: string, m: string): string {
    f + " " + a + " " + to + " : " + m
  }

  /** The parts a message line is built from, as the lemmas below need them. */
  predicate WellFormedParts(f: string, to: string, m: string) {
    && |f| > 0 && IsTrimmed(f) && Plain(f)
    && |to| > 0 && IsTrimmed(to) && Plain(to) && ':' !in to
    && IsTrimmed(m) && Plain(m)
  }

  /** Where the `-` and `<` of a message line are: inside its arrow. */
  lemma ArrowCharsInArrow(f: string, a: string, to: string, m: string, x: nat)
    requires WellFormedParts(f, to, m)
    requires var t := MessageText(f, a, to, m); x < |t| && (t[x] == '-' || t[x] == '<')
    ensures |f| + 1 <= x < |f| + 1 + |a|
  {
  }

  /** The lazy sender stops at `len` when the arrow group matches after it. */
  lemma SenderAt(t: string, len: nat, arrows: seq<string>, q: nat, f: string, a: string, i: nat, j: nat, to: string, m: string)
    requires 1 <= len <= |t| && !IsLineTerminator(t[len - 1])
    requires ScanWhile(t, len, IsWhitespace) == q && ArrowFrom(t, q, arrows) == Some((a, i, j, m))
    requires t[..len] == f && i <= j <= |t| && t[i..j] == to
    ensures SenderFrom(t, len, arrows) == Some(Captures(f, a, to, m))
  {
  }

  /** The parts of a message line, where they sit. */
  lemma MessageParts(f: string, a: string, to: string, m: string, p: nat)
    requires |f| > 0 && p == |f| + 1 + |a|
    ensures var t := MessageText(f, a, to, m);
            && t[|f| - 1] == f[|f| - 1] && t[..|f|] == f
            && p + 1 + |to| <= |t| && t[p + 1..p + 1 + |to|] == to
  {
  }

  /** The `\s*` after the sender takes the one space before the arrow. */
  lemma SpaceBeforeArrow(t: string, f: string, a: string, to: string, m: string, q: nat)
    requires t == MessageText(f, a, to, m) && |a| > 0 && !IsWhitespace(a[0]) && q == |f| + 1
    ensures ScanWhile(t, |f|, IsWhitespace) == q
  {
    assert t[|f|] == ' ' && t[q] == a[0];
    ScanWhileAt(t, |f|, q, IsWhitespace);
  }

  /** In a message line, the arrow group at the arrow takes it, with the receiver and text after it. */
  lemma ArrowOfMessage(t: string, f: string, a: string, to: string, m: string, arrows: seq<string>, k: nat, q: nat, p: nat)
    requires t == MessageText(f, a, to, m) && WellFormedParts(f, to, m)
    requires ArrowList(arrows) && k < |arrows| && arrows[k] == a
    requires forall j :: 0 <= j < k ==> !StartsWith(a, arrows[j])
    requires q == |f| + 1 && p == q + |a|
    ensures ArrowFrom(t, q, arrows) == Some((a, p + 1, p + 1 + |to|, m))
  {
    AfterArrowTo(t, f + " " + a, p, to, m);
    assert t[q..p] == a && t[p] == ' ';
    ArrowPick(t, q, arrows, k, a, p, (p + 1, p + 1 + |to|, m));
  }

  /**
   * A message line whose arrow is the `k`-th alternative, with no earlier
   * alternative a prefix of it, matches with exactly its four parts.
   */
  lemma MessageOf(f: string, a: string, to: string, m: string, arrows: seq<string>, k: nat)
    requires WellFormedParts(f, to, m)
    requires ArrowList(arrows) && k < |arrows| && arrows[k] == a
    requires forall j :: 0 <= j < k ==> !StartsWith(a, arrows[j])
    ensures MessageMatch(MessageText(f, a, to, m), arrows) == Some(Captures(f, a, to, m))
  {
    var t := MessageText(f, a, to, m);
    var p := |f| + 1 + |a|;
    var q := |f| + 1;
    SpaceBeforeArrow(t, f, a, to, m, q);
    ArrowOfMessage(t, f, a, to, m, arrows, k, q, p);
    MessageParts(f, a, to, m, p);
    SenderAt(t, |f|, arrows, q, f, a, p + 1, p + 1 + |to|, to, m);
    SenderPast(t, f, arrows, 1);
  }

  /** No alternative matches anywhere when none is a prefix of any tail of the arrow. */
  lemma MessageNone(f: string, a: string, to: string, m: string, arrows: seq<string>)
    requires WellFormedParts(f, to, m) && ArrowList(arrows)
    requires forall k, j :: 0 <= k < |a| && 0 <= j < |arrows| ==> !StartsWith(a[k..], arrows[j])
    ensures MessageMatch(MessageText(f, a, to, m), arrows) == None
  {
    var t := MessageText(f, a, to, m);
    var pre, rest := f + " ", to + " : " + m;
    assert t == pre + a + " " + rest;
    forall x | 1 <= x < |t| && (t[x] == '-' || t[x] == '<') ensures ArrowFrom(t, x, arrows) == None {
      ArrowCharsInArrow(f, a, to, m, x);
      NoArrowInside(t, pre, a, rest, x - |pre|, arrows);
    }
    SenderNone(t, 1, arrows);
  }

  // ---------------------------------------------------------------------------
  // Deciding arrow prefixes character by character
  // ---------------------------------------------------------------------------

  /** `w` is written in `a` at offset `k`, compared from `w`'s `i`-th character on. */
  function MatchFrom(a: string, k: nat, w: string, i: nat): bool
    decreases |w| - i
  {
    i >= |w| || (k + i < |a| && a[k + i] == w[i] && MatchFrom(a, k, w, i + 1))
  }

  /** `w` is written at no offset of `a` from `k` on. */
  function MissesOne(a: string, w: string, k: nat): bool
    decreases |a| - k
  {
    k >= |a| || (!MatchFrom(a, k, w, 0) && MissesOne(a, w, k + 1))
  }

  /** No alternative from the `j`-th on is written anywhere in `a`. */
  function MissesAll(a: string, arrows: seq<string>, j: nat): bool
    decreases |arrows| - j
  {
    j >= |arrows| || (MissesOne(a, arrows[j], 0) && MissesAll(a, arrows, j + 1))
  }

  /** None of the alternatives `j` to `k - 1` is a prefix of `a`. */
  function NoPrefixBefore(a: string, arrows: seq<string>, j: nat, k: nat): bool
    requires k <= |arrows|
    decreases k - j
  {
    j >= k || (!MatchFrom(a, 0, arrows[j], 0) && NoPrefixBefore(a, arrows, j + 1, k))
  }

  lemma {:induction false} MatchFromComplete(a: string, k: nat, w: string, i: nat)
    requires i <= |w|
    ensures (k + |w| <= |a| && forall x :: i <= x < |w| ==> a[k + x] == w[x]) ==> MatchFrom(a, k, w, i)
    decreases |w| - i
  {
    if i < |w| {
      MatchFromComplete(a, k, w, i + 1);
    }
  }

  /** A prefix of a tail of `a` is found by `MatchFrom`. */
  lemma StartsWithMatch(a: string, k: nat, w: string)
    requires k <= |a|
    ensures StartsWith(a[k..], w) ==> MatchFrom(a, k, w, 0)
  {
    MatchFromComplete(a, k, w, 0);
    if StartsWith(a[k..], w) {
      forall x | 0 <= x < |w| ensures a[k + x] == w[x] {
        assert a[k..][..|w|][x] == w[x];
      }
    }
  }

  lemma {:induction false} MissesOneSound(a: string, w: string, k0: nat, k: nat)
    requires MissesOne(a, w, k0) && k0 <= k < |a|
    ensures !StartsWith(a[k..], w)
    decreases k - k0
  {
    StartsWithMatch(a, k, w);
    if k > k0 {
      MissesOneSound(a, w, k0 + 1, k);
    }
  }

  lemma {:induction false} MissesAllSound(a: string, arrows: seq<string>, j0: nat)
    requires MissesAll(a, arrows, j0)
    ensures forall k, j :: 0 <= k < |a| && j0 <= j < |arrows| ==> !StartsWith(a[k..], arrows[j])
    decreases |arrows| - j0
  {
    if j0 < |arrows| {
      MissesAllSound(a, arrows, j0 + 1);
      forall k | 0 <= k < |a| ensures !StartsWith(a[k..], arrows[j0]) {
        MissesOneSound(a, arrows[j0], 0, k);
      }
    }
  }

  lemma {:induction false} NoPrefixBeforeSound(a: string, arrows: seq<string>, j0: nat, k: nat)
    requires k <= |arrows| && NoPrefixBefore(a, arrows, j0, k)
    ensures forall j :: j0 <= j < k ==> !StartsWith(a, arrows[j])
    decreases k - j0
  {
    if j0 < k {
      NoPrefixBeforeSound(a, arrows, j0 + 1, k);
      StartsWithMatch(a, 0, arrows[j0]);
      assert a[0..] == a;
    }
  }

  // ---------------------------------------------------------------------------
  // The message branch of the converter
  // ---------------------------------------------------------------------------

  /** A first character no earlier rule of the loop reacts to: no `@`, no lower-case letter, no `N`. */
  predicate OrdinaryStart(c: char) {
    c != '@' && c != 'N' && !('a' <= c <= 'z')
  }

  /** A text does not start with a word whose first character it lacks. */
  lemma FirstCharDiffers(t: string, p: string)
    requires |t| > 0 && |p| > 0 && t[0] != p[0]
    ensures !StartsWith(t, p)
  {
    if |p| <= |t| {
      assert t[..|p|][0] == t[0];
    }
  }

  /** No block keyword starts a line whose first character is not a lower-case letter. */
  lemma {:induction false} NoBlockPrefix(t: string, ps: seq<string>)
    requires |t| > 0 && !('a' <= t[0] <= 'z')
    requires forall i :: 0 <= i < |ps| ==> |ps[i]| > 0 && 'a' <= ps[i][0] <= 'z'
    ensures BlockPrefix(t, ps) == None
    decreases |ps|
  {
    if |ps| > 0 {
      FirstCharDiffers(t, ps[0]);
      NoBlockPrefix(t, ps[1..]);
    }
  }

  /** A line that does not start with `n` or `N` is no note. */
  lemma NoNote(t: string)
    requires |t| > 0 && t[0] != 'n' && t[0] != 'N'
    ensures NoteHead(t) == 0 && NoteMatch(t) == None
  {
    assert |t| >= 4 ==> AsciiLower(t[0..4])[0] == LowerChar(t[0]);
  }

  /** None of the skip, declaration and note keywords starts a line with an ordinary first character. */
  lemma NoKeyword(t: string)
    requires |t| > 0 && OrdinaryStart(t[0])
    ensures !StartsWith(t, "@startuml") && !StartsWith(t, "@enduml")
    ensures !StartsWith(t, "skinparam") && !StartsWith(t, "hide ") && !StartsWith(t, "show ")
    ensures !StartsWith(t, "title ") && !StartsWith(t, "participant ") && !StartsWith(t, "actor ")
    ensures t != "end note" && t != "else" && t != "end"
  {
    FirstCharDiffers(t, "@startuml");
    FirstCharDiffers(t, "@enduml");
    FirstCharDiffers(t, "skinparam");
    FirstCharDiffers(t, "hide ");
    FirstCharDiffers(t, "show ");
    FirstCharDiffers(t, "title ");
    FirstCharDiffers(t, "participant ");
    FirstCharDiffers(t, "actor ");
  }

  /** A line with an ordinary first character reaches the message patterns. */
  lemma ClassifyReachesMessages(t: string)
    requires |t| > 0 && OrdinaryStart(t[0])
    ensures Classify(t) == MessageLine(t)
  {
    NoKeyword(t);
    NoNote(t);
    NoBlockPrefix(t, BlockPrefixes);
  }

  /** The Mermaid line of a message from `from` to `to`, with the arrow `arrow`. */
  function MermaidMessage(from: string, arrow: string, to: string, text: string): string {
    "    " + from + arrow + to + ": " + text
  }

  /** The Mermaid line of a message the dashed or the solid pattern took. */
  lemma EmitMessage(pattern: Pattern, f: string, a: string, to: string, m: string)
    requires pattern != Lenient && |a| > 0 && (forall i :: 0 <= i < |a| ==> ArrowChar(a[i]))
    requires (a[0] == '<' && |a| >= 2 && a[1] == '<') || '<' !in a
    ensures var mermaid := if pattern == Dashed then "-->>" else "->>";
            Emit(Msg(pattern, f, a, to, m))
            == [if a[0] == '<' then MermaidMessage(to, mermaid, f, m) else MermaidMessage(f, mermaid, to, m)]
  {
    if a[0] == '<' {
      ContainsAt(a, "<<", 0);
    } else {
      NotContainsByChar(a, "<<");
    }
  }

  /** A message line the pattern `arrows` takes whole is classified with its parts as written. */
  lemma MessageLineOf(t: string, arrows: seq<string>, f: string, a: string, to: string, m: string)
    requires arrows == DashedArrows || arrows == SolidArrows
    requires arrows == SolidArrows ==> MessageMatch(t, DashedArrows) == None
    requires MessageMatch(t, arrows) == Some(Captures(f, a, to, m))
    requires IsTrimmed(f) && IsTrimmed(to) && IsTrimmed(m)
    ensures MessageLine(t) == Msg(if arrows == DashedArrows then Dashed else Solid, f, a, to, m)
  {
    TrimmedIsFixed(f);
    TrimmedIsFixed(to);
    TrimmedIsFixed(m);
  }

  /**
   * A message with an arrow of the dashed pattern (`-->>`, `-->`, `<<--`,
   * `<<-`) becomes a dashed Mermaid message, its ends swapped when the
   * arrow points left.
   */
  lemma DashedMessage(f: string, a: string, to: string, m: string, k: nat)
    requires WellFormedParts(f, to, m) && OrdinaryStart(f[0])
    requires k < |DashedArrows| && a == DashedArrows[k]
    ensures Emit(Classify(MessageText(f, a, to, m)))
            == [if a[0] == '<' then MermaidMessage(to, "-->>", f, m) else MermaidMessage(f, "-->>", to, m)]
  {
    var t := MessageText(f, a, to, m);
    PatternArrowLists();
    assert NoPrefixBefore(a, DashedArrows, 0, k);
    NoPrefixBeforeSound(a, DashedArrows, 0, k);
    MessageOf(f, a, to, m, DashedArrows, k);
    MessageLineOf(t, DashedArrows, f, a, to, m);
    assert t[0] == f[0];
    ClassifyReachesMessages(t);
    EmitMessage(Dashed, f, a, to, m);
  }

  /** No dashed alternative occurs inside `->>`, `->` or `<<`. */
  lemma SolidArrowsMissDashed()
    ensures MissesAll(SolidArrows[0], DashedArrows, 0)
    ensures MissesAll(SolidArrows[1], DashedArrows, 0)
    ensures MissesAll(SolidArrows[3], DashedArrows, 0)
  {
  }

  /**
   * A message with `->>`, `->` or `<<` becomes a solid Mermaid message,
   * its ends swapped for `<<`. (`<<-`, the solid pattern's third
   * alternative, is taken by the dashed pattern first.)
   */
  lemma SolidMessage(f: string, a: string, to: string, m: string, k: nat)
    requires WellFormedParts(f, to, m) && OrdinaryStart(f[0])
    requires k < |SolidArrows| && k != 2 && a == SolidArrows[k]
    ensures MessageMatch(MessageText(f, a, to, m), DashedArrows) == None
    ensures Emit(Classify(MessageText(f, a, to, m)))
            == [if a[0] == '<' then MermaidMessage(to, "->>", f, m) else MermaidMessage(f, "->>", to, m)]
  {
    var t := MessageText(f, a, to, m);
    PatternArrowLists();
    SolidArrowsMissDashed();
    MissesAllSound(a, DashedArrows, 0);
    MessageNone(f, a, to, m, DashedArrows);
    assert NoPrefixBefore(a, SolidArrows, 0, k);
    NoPrefixBeforeSound(a, SolidArrows, 0, k);
    MessageOf(f, a, to, m, SolidArrows, k);
    MessageLineOf(t, SolidArrows, f, a, to, m);
    assert t[0] == f[0];
    ClassifyReachesMessages(t);
    EmitMessage(Solid, f, a, to, m);
  }

  /** `<<-` is an alternative of both patterns, and the dashed one takes it. */
  lemma DoubleHeadedShortArrow(f: string, to: string, m: string)
    requires WellFormedParts(f, to, m) && OrdinaryStart(f[0])
    ensures "<<-" in SolidArrows
    ensures Emit(Classify(MessageText(f, "<<-", to, m))) == [MermaidMessage(to, "-->>", f, m)]
  {
    DashedMessage(f, "<<-", to, m, 3);
  }

  /** No alternative of any pattern occurs inside a single-headed return arrow. */
  lemma ReturnArrowsMissed()
    ensures MissesAll("<-", DashedArrows, 0) && MissesAll("<-", SolidArrows, 0) && MissesAll("<-", LenientArrows, 0)
    ensures MissesAll("<--", DashedArrows, 0) && MissesAll("<--", SolidArrows, 0) && MissesAll("<--", LenientArrows, 0)
  {
    assert MissesAll("<-", LenientArrows, 10);
    assert MissesAll("<-", LenientArrows, 5);
    assert MissesAll("<--", LenientArrows, 10);
    assert MissesAll("<--", LenientArrows, 5);
  }

  /**
   * A message with a single-headed return arrow, `<-` or `<--`, matches
   * none of the three patterns and produces no Mermaid line.
   */
  lemma ReturnArrowDropped(f: string, a: string, to: string, m: string)
    requires WellFormedParts(f, to, m) && OrdinaryStart(f[0])
    requires a == "<-" || a == "<--"
    ensures Classify(MessageText(f, a, to, m)) == Drop
    ensures Emit(Classify(MessageText(f, a, to, m))) == []
  {
    ReturnArrowUnmatched(f, a, to, m);
    EmitsNothing(Classify(MessageText(f, a, to, m)));
  }

  lemma EmitsNothing(l: Line)
    requires l == Drop
    ensures Emit(l) == []
  {
  }

  /** None of the three patterns matches a single-headed return arrow. */
  lemma ReturnArrowUnmatched(f: string, a: string, to: string, m: string)
    requires WellFormedParts(f, to, m) && OrdinaryStart(f[0])
    requires a == "<-" || a == "<--"
    ensures Classify(MessageText(f, a, to, m)) == Drop
  {
    var t := MessageText(f, a, to, m);
    PatternArrowLists();
    ReturnArrowsMissed();
    PatternMisses(f, a, to, m, DashedArrows);
    PatternMisses(f, a, to, m, SolidArrows);
    PatternMisses(f, a, to, m, LenientArrows);
    assert MessageLine(t) == Drop;
    assert t[0] == f[0];
    ClassifyReachesMessages(t);
  }

  /** An arrow in which no alternative of `arrows` occurs leaves the pattern unmatched. */
  lemma PatternMisses(f: string, a: string, to: string, m: string, arrows: seq<string>)
    requires WellFormedParts(f, to, m) && ArrowList(arrows) && MissesAll(a, arrows, 0)
    ensures MessageMatch(MessageText(f, a, to, m), arrows) == None
  {
    MissesAllSound(a, arrows, 0);
    MessageNone(f, a, to, m, arrows);
  }

  // ---------------------------------------------------------------------------
  // A dashed arrow inside the text of a solid message
  // ---------------------------------------------------------------------------

  /** The sender the dashed pattern reads on `A -> B : x --> y : z`: the whole solid message. */
  const SolidSender: string := "A -> B : x"

  /**
   * The lazy sender reads past `f` at the start of the line when no
   * alternative succeeds at any `-` or `<` inside `f`.
   */
  lemma SenderPastArrows(t: string, f: string, arrows: seq<string>)
    requires ArrowList(arrows) && |f| > 0 && NoLineTerminator(f) && !IsWhitespace(f[|f| - 1])
    requires |f| <= |t| && t[..|f|] == f
    requires forall q :: 0 <= q < |f| && (f[q] == '-' || f[q] == '<') ==> ArrowFrom(t, q, arrows) == None
    ensures SenderFrom(t, 1, arrows) == SenderFrom(t, |f|, arrows)
  {
    forall k | 1 <= k < |f|
      ensures SenderFrom(t, k, arrows) == SenderFrom(t, k + 1, arrows)
    {
      SenderStepArrows(t, f, arrows, k);
    }
    var g := k => if k >= 1 then SenderFrom(t, k, arrows) else None;
    ChainEqual(g, 1, |f|);
  }

  /** A sender capture ending inside such an `f` finds no arrow after it. */
  lemma SenderStepArrows(t: string, f: string, arrows: seq<string>, len: nat)
    requires ArrowList(arrows) && |f| > 0 && NoLineTerminator(f) && !IsWhitespace(f[|f| - 1])
    requires |f| <= |t| && t[..|f|] == f
    requires forall q :: 0 <= q < |f| && (f[q] == '-' || f[q] == '<') ==> ArrowFrom(t, q, arrows) == None
    requires 1 <= len < |f|
    ensures SenderFrom(t, len, arrows) == SenderFrom(t, len + 1, arrows)
  {
    assert t[len - 1] == f[len - 1];
    var q := ScanWhile(t, len, IsWhitespace);
    assert t[|f| - 1] == f[|f| - 1];
    assert q < |f|;
    assert t[q] == f[q];
    if f[q] != '-' && f[q] != '<' {
      NoArrowHere(t, q, arrows);
    }
  }

  /** After the arrow of a message line, whatever its sender, the receiver is `to` and the text `m`. */
  lemma ArrowOfAnySender(t: string, f: string, a: string, to: string, m: string, arrows: seq<string>, k: nat, q: nat, p: nat)
    requires t == MessageText(f, a, to, m)
    requires |to| > 0 && IsTrimmed(to) && NoLineTerminator(to) && ':' !in to && IsTrimmed(m) && NoLineTerminator(m)
    requires ArrowList(arrows) && k < |arrows| && arrows[k] == a
    requires forall j :: 0 <= j < k ==> !StartsWith(a, arrows[j])
    requires q == |f| + 1 && p == q + |a|
    ensures ArrowFrom(t, q, arrows) == Some((a, p + 1, p + 1 + |to|, m))
  {
    AfterArrowTo(t, f + " " + a, p, to, m);
    assert t[q..p] == a && t[p] == ' ';
    ArrowPick(t, q, arrows, k, a, p, (p + 1, p + 1 + |to|, m));
  }

  /**
   * The lazy sender, tried with exactly `f`, takes a message line with its
   * four parts, even when `f` holds `-` or `<`.
   */
  lemma MessageAtSender(t: string, f: string, a: string, to: string, m: string, arrows: seq<string>, k: nat)
    requires t == MessageText(f, a, to, m) && |f| > 0 && NoLineTerminator(f)
    requires |to| > 0 && IsTrimmed(to) && NoLineTerminator(to) && ':' !in to && IsTrimmed(m) && NoLineTerminator(m)
    requires ArrowList(arrows) && k < |arrows| && arrows[k] == a
    requires forall j :: 0 <= j < k ==> !StartsWith(a, arrows[j])
    ensures SenderFrom(t, |f|, arrows) == Some(Captures(f, a, to, m))
  {
    var p := |f| + 1 + |a|;
    var q := |f| + 1;
    SpaceBeforeArrow(t, f, a, to, m, q);
    ArrowOfAnySender(t, f, a, to, m, arrows, k, q, p);
    MessageParts(f, a, to, m, p);
    assert !IsLineTerminator(t[|f| - 1]) by { assert t[|f| - 1] == f[|f| - 1]; }
    SenderAt(t, |f|, arrows, q, f, a, p + 1, p + 1 + |to|, to, m);
  }

  /** How the sample line is laid out around the solid arrow. */
  lemma SolidSenderParts(t: string)
    requires t == MessageText(SolidSender, "-->", "y", "z")
    ensures t == "A " + "->" + " " + "B : x --> y : z"
    ensures forall q :: 0 <= q < |SolidSender| && (SolidSender[q] == '-' || SolidSender[q] == '<') ==> q == 2
  {
  }

  /** No dashed alternative is written at the solid arrow of the sample. */
  lemma SolidArrowSkipped(t: string)
    requires t == MessageText(SolidSender, "-->", "y", "z")
    ensures ArrowFrom(t, 2, DashedArrows) == None
  {
    SolidSenderParts(t);
    PatternArrowLists();
    SolidArrowsMissDashed();
    MissesAllSound("->", DashedArrows, 0);
    assert "->"[0..] == "->";
    NoArrowInside(t, "A ", "->", "B : x --> y : z", 0, DashedArrows);
  }

  /** The dashed pattern's sender runs over the whole solid message. */
  lemma SolidSenderScanned(t: string)
    requires t == MessageText(SolidSender, "-->", "y", "z")
    ensures SenderFrom(t, 1, DashedArrows) == SenderFrom(t, |SolidSender|, DashedArrows)
  {
    SolidSenderParts(t);
    SolidArrowSkipped(t);
    PatternArrowLists();
    assert t[..|SolidSender|] == SolidSender;
    SenderPastArrows(t, SolidSender, DashedArrows);
  }

  /** The sample's parts as the match needs them. */
  lemma SolidSenderShape()
    ensures |SolidSender| > 0 && NoLineTerminator(SolidSender) && IsTrimmed(SolidSender)
    ensures IsTrimmed("y") && NoLineTerminator("y") && ':' !in "y" && IsTrimmed("z") && NoLineTerminator("z")
    ensures DashedArrows[1] == "-->" && !StartsWith("-->", DashedArrows[0])
  {
  }

  /** The dashed pattern matches the sample with the sender `A -> B : x`. */
  lemma DashedInTextMatch(t: string)
    requires t == MessageText(SolidSender, "-->", "y", "z")
    ensures MessageMatch(t, DashedArrows) == Some(Captures(SolidSender, "-->", "y", "z"))
  {
    SolidSenderScanned(t);
    SolidSenderShape();
    PatternArrowLists();
    MessageAtSender(t, SolidSender, "-->", "y", "z", DashedArrows, 1);
  }

  /** The sample is classified as a dashed message. */
  lemma DashedInTextClassified(t: string)
    requires t == MessageText(SolidSender, "-->", "y", "z")
    ensures Classify(t) == Msg(Dashed, SolidSender, "-->", "y", "z")
  {
    DashedInTextMatch(t);
    SolidSenderShape();
    MessageLineOf(t, DashedArrows, SolidSender, "-->", "y", "z");
    assert t[0] == 'A';
    ClassifyReachesMessages(t);
  }

  /** The Mermaid line of that dashed message. */
  lemma DashedInTextEmitted()
    ensures Emit(Msg(Dashed, SolidSender, "-->", "y", "z")) == ["    A -> B : x-->>y: z"]
  {
    EmitMessage(Dashed, SolidSender, "-->", "y", "z");
    assert MermaidMessage(SolidSender, "-->>", "y", "z") == "    A -> B : x-->>y: z";
  }

  /**
   * `A -> B : x --> y : z` is a solid message from `A` to `B` whose text
   * holds `-->` and a colon. The dashed pattern is tried first, its lazy
   * sender runs up to that arrow, and the line becomes a dashed message
   * from `A -> B : x` to `y`.
   */
  lemma DashedInText(t: string)
    requires t == MessageText(SolidSender, "-->", "y", "z")
    ensures Classify(t) == Msg(Dashed, SolidSender, "-->", "y", "z")
    ensures Emit(Classify(t)) == ["    A -> B : x-->>y: z"]
  {
    DashedInTextClassified(t);
    DashedInTextEmitted();
  }

  // ---------------------------------------------------------------------------
  // The lenient pattern
  // ---------------------------------------------------------------------------

  /** An alternative that succeeds at `q` makes the arrow group succeed there. */
  lemma {:induction false} ArrowFromComplete(t: string, q: nat, arrows: seq<string>, b: string)
    requires q <= |t| && b in arrows && ArrowTry(t, q, b).Some?
    ensures ArrowFrom(t, q, arrows).Some?
    decreases |arrows|
  {
    if ArrowTry(t, q, arrows[0]).None? {
      var i :| 0 <= i < |arrows| && arrows[i] == b;
      assert arrows[1..][i - 1] == b;
      ArrowFromComplete(t, q, arrows[1..], b);
    }
  }

  /** On a line without line terminators, a sender length from `len` on at which the arrow group succeeds makes the lazy sender succeed. */
  lemma {:induction false} SenderComplete(t: string, len: nat, l: nat, arrows: seq<string>)
    requires 1 <= len <= l <= |t| && NoLineTerminator(t)
    requires ArrowFrom(t, ScanWhile(t, l, IsWhitespace), arrows).Some?
    ensures SenderFrom(t, len, arrows).Some?
    decreases l - len
  {
    assert !IsLineTerminator(t[len - 1]);
    if ArrowFrom(t, ScanWhile(t, len, IsWhitespace), arrows).None? {
      SenderComplete(t, len + 1, l, arrows);
    }
  }

  /** The sender length at which the lazy sender succeeds. */
  lemma {:induction false} SenderWitness(t: string, len: nat, arrows: seq<string>) returns (l: nat)
    requires 1 <= len && SenderFrom(t, len, arrows).Some?
    ensures len <= l <= |t| && ArrowFrom(t, ScanWhile(t, l, IsWhitespace), arrows).Some?
    decreases |t| + 1 - len
  {
    if ArrowFrom(t, ScanWhile(t, len, IsWhitespace), arrows).Some? {
      l := len;
    } else {
      l := SenderWitness(t, len + 1, arrows);
    }
  }

  /** An alternative that succeeds at `q` and ends with `b` lets `b` alone succeed where it starts, with the same receiver and text. */
  lemma ArrowTrySuffix(t: string, q: nat, pre: string, b: string)
    requires q <= |t| && |b| > 0 && ArrowTry(t, q, pre + b).Some?
    ensures q + |pre| < |t| && t[q + |pre|] == b[0]
    ensures ArrowTry(t, q + |pre|, b) == ArrowTry(t, q, pre + b)
  {
    var a := pre + b;
    assert t[q + |pre|..q + |a|] == t[q..q + |a|][|pre|..];
    assert a[|pre|..] == b;
    assert t[q + |pre|] == t[q..q + |a|][|pre|];
  }

  /** Every lenient alternative ends with a dashed or a solid alternative. */
  lemma LenientSplit(k: nat) returns (pre: string, b: string)
    requires k < |LenientArrows|
    ensures LenientArrows[k] == pre + b && |b| > 0 && (b[0] == '-' || b[0] == '<')
    ensures b in DashedArrows || b in SolidArrows
  {
    if k == 0 { pre, b := "<<", "-->>"; }
    else if k == 1 { pre, b := "<<", "-->"; }
    else if k == 2 { pre, b := "<<", "->>"; }
    else if k == 3 { pre, b := "<<", "->"; }
    else if k == 4 { pre, b := "<", "-->>"; }
    else if k == 5 { pre, b := "<", "-->"; }
    else if k == 6 { pre, b := "<", "->>"; }
    else if k == 7 { pre, b := "<", "->"; }
    else { pre, b := "", LenientArrows[k]; }
  }

  /** An alternative of `arrows` that succeeds after some sender length makes `arrows` match the line. */
  lemma AlternativeCovered(t: string, l: nat, q: nat, b: string, arrows: seq<string>)
    requires NoLineTerminator(t) && 1 <= l <= |t| && q == ScanWhile(t, l, IsWhitespace)
    requires b in arrows && ArrowTry(t, q, b).Some?
    ensures MessageMatch(t, arrows).Some?
  {
    ArrowFromComplete(t, q, arrows, b);
    SenderComplete(t, 1, l, arrows);
  }

  /** Where an arrow character stands, the `\s*` takes nothing. */
  lemma ScanStops(t: string, i: nat)
    requires i < |t| && (t[i] == '-' || t[i] == '<')
    ensures ScanWhile(t, i, IsWhitespace) == i
  {
  }

  /**
   * On a line without line terminators the lenient pattern never decides:
   * whenever it matches, the dashed or the solid pattern matches too.
   */
  lemma LenientCovered(t: string)
    requires NoLineTerminator(t)
    ensures MessageMatch(t, LenientArrows).Some? ==> MessageMatch(t, DashedArrows).Some? || MessageMatch(t, SolidArrows).Some?
  {
    if MessageMatch(t, LenientArrows).Some? {
      var l := SenderWitness(t, 1, LenientArrows);
      var q := ScanWhile(t, l, IsWhitespace);
      var r := ArrowFrom(t, q, LenientArrows).value;
      ArrowFromSound(t, q, LenientArrows, r.0, r.1, r.2, r.3);
      var k :| 0 <= k < |LenientArrows| && LenientArrows[k] == r.0;
      var pre, b := LenientSplit(k);
      SuffixCovered(t, l, q, pre, b, DashedArrows, SolidArrows);
    }
  }

  /**
   * A lenient alternative `pre + b` that succeeds at `q` leaves `b`, an
   * alternative of `dashed` or `solid`, succeeding in the line too.
   */
  lemma SuffixCovered(t: string, l: nat, q: nat, pre: string, b: string, dashed: seq<string>, solid: seq<string>)
    requires NoLineTerminator(t) && 1 <= l <= |t| && q == ScanWhile(t, l, IsWhitespace)
    requires |b| > 0 && (b[0] == '-' || b[0] == '<') && ArrowTry(t, q, pre + b).Some?
    requires b in dashed || b in solid
    ensures MessageMatch(t, dashed).Some? || MessageMatch(t, solid).Some?
  {
    ArrowTrySuffix(t, q, pre, b);
    var q2 := q + |pre|;
    var l2 := if |pre| == 0 then l else q2;
    if |pre| > 0 {
      ScanStops(t, q2);
    }
    if b in dashed {
      AlternativeCovered(t, l2, q2, b, dashed);
    } else {
      AlternativeCovered(t, l2, q2, b, solid);
    }
  }

  /** So a line without line terminators is never classified by the lenient pattern. */
  lemma LenientUnreachable(t: string)
    requires NoLineTerminator(t)
    ensures MessageLine(t).Msg? ==> MessageLine(t).pattern != Lenient
  {
    LenientCovered(t);
  }

  // ---------------------------------------------------------------------------
  // Where the lenient pattern decides
  // ---------------------------------------------------------------------------

  /** An alternative written at `q` is found by `MatchFrom`. */
  lemma WordAtMatch(t: string, q: nat, w: string)
    ensures WordAt(t, q, w) ==> MatchFrom(t, q, w, 0)
  {
    MatchFromComplete(t, q, w, 0);
    if WordAt(t, q, w) {
      forall x | 0 <= x < |w| ensures t[q + x] == w[x] {
        assert t[q..q + |w|][x] == w[x];
      }
    }
  }

  /** None of the alternatives `j` to `n - 1` is written at `q`, decided character by character. */
  function NoneAt(t: string, q: nat, arrows: seq<string>, j: nat, n: nat): bool
    requires n <= |arrows|
    decreases n - j
  {
    j >= n || (!MatchFrom(t, q, arrows[j], 0) && NoneAt(t, q, arrows, j + 1, n))
  }

  lemma {:induction false} NoneAtSound(t: string, q: nat, arrows: seq<string>, j0: nat, n: nat)
    requires n <= |arrows| && NoneAt(t, q, arrows, j0, n)
    ensures forall j :: j0 <= j < n ==> !WordAt(t, q, arrows[j])
    decreases n - j0
  {
    if j0 < n {
      WordAtMatch(t, q, arrows[j0]);
      NoneAtSound(t, q, arrows, j0 + 1, n);
    }
  }

  /**
   * A message line whose sender ends at a carriage return: the `.` of the
   * lazy sender cannot cross it, and the `\s*` before the arrow can.
   */
  const LenientSample: string := "A\r<->B:m"

  /** Neither the dashed nor the solid pattern has an alternative at the sample's arrow. */
  lemma LenientSampleNoArrowAt() ensures NoneAt(LenientSample, 2, DashedArrows, 0, 4) && NoneAt(LenientSample, 2, SolidArrows, 0, 4) {}

  /** Alternatives not written at `q` are skipped by the arrow group. */
  lemma {:induction false} ArrowSkip(t: string, q: nat, arrows: seq<string>, n: nat)
    requires q <= |t| && n <= |arrows|
    requires forall j :: 0 <= j < n ==> !WordAt(t, q, arrows[j])
    ensures ArrowFrom(t, q, arrows) == ArrowFrom(t, q, arrows[n..])
    decreases n
  {
    if n > 0 {
      assert !WordAt(t, q, arrows[0]);
      ArrowSkip(t, q, arrows[1..], n - 1);
      assert arrows[1..][n - 1..] == arrows[n..];
    }
  }

  /** The `\s*` after the one-character sender takes the carriage return. */
  lemma LenientSampleScan()
    ensures ScanWhile(LenientSample, 1, IsWhitespace) == 2 && IsLineTerminator(LenientSample[1])
  {
  }

  /** The dashed and the solid pattern miss the sample. */
  lemma LenientSampleNotMatched(arrows: seq<string>)
    requires arrows == DashedArrows || arrows == SolidArrows
    ensures MessageMatch(LenientSample, arrows) == None
  {
    LenientSampleNoArrowAt();
    NoneAtSound(LenientSample, 2, arrows, 0, 4);
    NoWordNoArrow(LenientSample, 2, arrows);
    LenientSampleScan();
  }

  /** After the sample's arrow the receiver is `B` and the text `m`. */
  lemma LenientSampleReceiver()
    ensures ReceiverFrom(LenientSample, 5, 6) == Some((6, "m"))
  {
    var t := LenientSample;
    assert ScanWhile(t, 7, IsWhitespace) == 7;
    assert ScanWhile(t, 7, NotTerminator) == 8;
    assert TailStar(t, 7) == Some("m");
    assert ScanWhile(t, 6, IsWhitespace) == 6;
  }

  /** The lenient alternative `<->` succeeds at the sample's arrow. */
  lemma LenientSampleArrow()
    ensures ArrowTry(LenientSample, 2, "<->") == Some((5, 6, "m"))
  {
    assert WordAt(LenientSample, 2, "<->");
    assert ScanWhile(LenientSample, 5, IsWhitespace) == 5;
    LenientSampleReceiver();
  }

  /** None of the seven lenient alternatives before `<->` is written at the sample's arrow. */
  lemma LenientSampleEarlier()
    ensures forall j :: 0 <= j < 7 ==> !WordAt(LenientSample, 2, LenientArrows[j])
  {
    assert NoneAt(LenientSample, 2, LenientArrows, 4, 7);
    assert NoneAt(LenientSample, 2, LenientArrows, 0, 7);
    NoneAtSound(LenientSample, 2, LenientArrows, 0, 7);
  }

  /** A one-character sender followed by a succeeding arrow group is the match. */
  lemma SenderOne(t: string, q: nat, arrows: seq<string>, a: string, i: nat, j: nat, m: string)
    requires 1 <= |t| && !IsLineTerminator(t[0]) && ScanWhile(t, 1, IsWhitespace) == q
    requires ArrowFrom(t, q, arrows) == Some((a, i, j, m))
    ensures MessageMatch(t, arrows) == Some(Captures(t[..1], a, t[i..j], m))
  {
  }

  /** The lenient arrow group takes `<->` in the sample. */
  lemma LenientSampleArrowFrom(t: string, arrows: seq<string>)
    requires t == LenientSample && arrows == LenientArrows
    ensures ArrowFrom(t, 2, arrows) == Some(("<->", 5, 6, "m"))
  {
    LenientSampleEarlier();
    ArrowSkip(t, 2, arrows, 7);
    assert arrows[7..][0] == "<->";
    LenientSampleArrow();
  }

  /** The lenient pattern matches the sample with the parts `A`, `<->`, `B`, `m`. */
  lemma LenientSampleLenient(t: string, arrows: seq<string>)
    requires t == LenientSample && arrows == LenientArrows
    ensures MessageMatch(t, arrows) == Some(Captures("A", "<->", "B", "m"))
  {
    LenientSampleArrowFrom(t, arrows);
    LenientSampleScan();
    LenientSampleParts(t);
    SenderOne(t, 2, arrows, "<->", 5, 6, "m");
  }

  /** Where the sample's sender and receiver sit. */
  lemma LenientSampleParts(t: string)
    requires t == LenientSample
    ensures |t| == 8 && !IsLineTerminator(t[0]) && t[..1] == "A" && t[5..6] == "B"
  {
  }

  /** A line only the lenient pattern matches is classified by it. */
  lemma LenientLine(t: string, f: string, a: string, to: string, m: string)
    requires |t| > 0 && OrdinaryStart(t[0])
    requires MessageMatch(t, DashedArrows) == None && MessageMatch(t, SolidArrows) == None
    requires MessageMatch(t, LenientArrows) == Some(Captures(f, a, to, m))
    requires IsTrimmed(f) && IsTrimmed(to) && IsTrimmed(m)
    ensures Classify(t) == Msg(Lenient, f, a, to, m)
  {
    TrimmedIsFixed(f);
    TrimmedIsFixed(to);
    TrimmedIsFixed(m);
    ClassifyReachesMessages(t);
  }

  /** The sample's parts need no trimming. */
  lemma LenientSampleTrimmed()
    ensures IsTrimmed("A") && IsTrimmed("B") && IsTrimmed("m") && OrdinaryStart('A')
  {
  }

  /** The sample is classified by the lenient pattern. */
  lemma LenientSampleClassified(t: string)
    requires t == LenientSample
    ensures Classify(t) == Msg(Lenient, "A", "<->", "B", "m")
  {
    LenientSampleNotMatched(DashedArrows);
    LenientSampleNotMatched(SolidArrows);
    LenientSampleLenient(t, LenientArrows);
    LenientSampleParts(t);
    LenientSampleTrimmed();
    assert t[0] == 'A';
    LenientLine(t, "A", "<->", "B", "m");
  }

  /** `includes` is false when `MissesOne` decides so. */
  lemma {:induction false} MissesOneContains(a: string, w: string, k: nat)
    requires |w| > 0 && k <= |a| && MissesOne(a, w, k)
    ensures !Contains(a[k..], w)
    decreases |a| - k
  {
    StartsWithMatch(a, k, w);
    if k < |a| {
      MissesOneContains(a, w, k + 1);
      assert a[k..][1..] == a[k + 1..];
    }
  }

  /** The lenient Mermaid line of the sample: `<->` starts with `<`, so the ends swap, and holds no `--`, so the arrow is solid. */
  lemma LenientSampleEmitted()
    ensures Emit(Msg(Lenient, "A", "<->", "B", "m")) == ["    B->>A: m"]
  {
    assert MissesOne("<->", "--", 0);
    MissesOneContains("<->", "--", 0);
    assert "<->"[0..] == "<->";
    assert StartsWith("<->", "<");
    assert MermaidArrow(Lenient, "<->") == ("->>", true);
    assert "    " + "B" + "->>" + "A" + ": " + "m" == "    B->>A: m";
  }

  /**
   * The lenient pattern is reachable only through a line terminator before
   * the arrow: `A`, carriage return, `<->B:m` becomes `B->>A: m`.
   */
  lemma LenientReachable(t: string)
    requires t == LenientSample
    ensures Classify(t) == Msg(Lenient, "A", "<->", "B", "m")
    ensures Emit(Classify(t)) == ["    B->>A: m"]
  {
    LenientSampleClassified(t);
    LenientSampleEmitted();
  }
}
