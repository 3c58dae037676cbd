/**
 * What `convertPlantUmlToMermaid` does with the lines that are not
 * messages: skipped lines, participant and actor declarations and block
 * keywords.
 */
module PlantUmlLines {
  import opened Wrappers
  import opened JsString
  import opened PlantUml
  import opened PlantUmlMessages

  // ---------------------------------------------------------------------------
  // Telling keywords apart
  // ---------------------------------------------------------------------------

  /** `p` and `w` differ at some position `i` or later that both have. */
  function Clash(p: string, w: string, i: nat): bool
    decreases |p| - i
  {
    i < |p| && i < |w| && (p[i] != w[i] || Clash(p, w, i + 1))
  }

  /** A line that starts with `p` cannot start with `w`. */
  lemma {:induction false} ClashNotPrefix(p: string, x: string, w: string, i: nat)
    requires Clash(p, w, i)
    ensures !StartsWith(p + x, w)
    decreases |p| - i
  {
    if p[i] == w[i] {
      ClashNotPrefix(p, x, w, i + 1);
    } else if |w| <= |p + x| {
      assert (p + x)[..|w|][i] == p[i];
    }
  }

  /** A line that starts with `p` is not `w`: the two clash, or `w` is shorter. */
  lemma ClashNotEqual(p: string, x: string, w: string)
    requires Clash(p, w, 0) || |w| < |p|
    ensures p + x != w
  {
    if Clash(p, w, 0) {
      ClashNotPrefix(p, x, w, 0);
    }
  }

  /** Each of `ws` from the `j`-th to the `k - 1`-th clashes with `p`. */
  function ClashAll(p: string, ws: seq<string>, j: nat, k: nat): bool
    requires k <= |ws|
    decreases k - j
  {
    j >= k || (Clash(p, ws[j], 0) && ClashAll(p, ws, j + 1, k))
  }

  lemma {:induction false} ClashAllSound(p: string, x: string, ws: seq<string>, j0: nat, k: nat)
    requires k <= |ws| && ClashAll(p, ws, j0, k)
    ensures forall j :: j0 <= j < k ==> !StartsWith(p + x, ws[j])
    decreases k - j0
  {
    if j0 < k {
      ClashNotPrefix(p, x, ws[j0], 0);
      ClashAllSound(p, x, ws, j0 + 1, k);
    }
  }

  /** The keywords whose lines the loop skips or reads as declarations, in the order it tests them. */
  const LeadKeywords: seq<string> :=
    ["@startuml", "@enduml", "skinparam", "hide ", "show ", "title ", "participant ", "actor "]

  /** The lead keywords, one by one. */
  lemma LeadKeywordsNamed(t: string)
    requires forall j :: 0 <= j < |LeadKeywords| ==> !StartsWith(t, LeadKeywords[j])
    ensures !StartsWith(t, "@startuml") && !StartsWith(t, "@enduml")
    ensures !StartsWith(t, "skinparam") && !StartsWith(t, "hide ") && !StartsWith(t, "show ")
    ensures !StartsWith(t, "title ") && !StartsWith(t, "participant ") && !StartsWith(t, "actor ")
  {
    assert !StartsWith(t, LeadKeywords[0]) && !StartsWith(t, LeadKeywords[1]) && !StartsWith(t, LeadKeywords[2]);
    assert !StartsWith(t, LeadKeywords[3]) && !StartsWith(t, LeadKeywords[4]) && !StartsWith(t, LeadKeywords[5]);
    assert !StartsWith(t, LeadKeywords[6]) && !StartsWith(t, LeadKeywords[7]);
  }

  // ---------------------------------------------------------------------------
  // Block keywords
  // ---------------------------------------------------------------------------

  /** Every block prefix clashes with every lead keyword. */
  lemma LeadClash(k: nat)
    requires k < |BlockPrefixes|
    ensures ClashAll(BlockPrefixes[k], LeadKeywords, 0, |LeadKeywords|)
  {
    if k == 0 {
      assert BlockPrefixes[k] == "alt ";
      assert ClashAll("alt ", LeadKeywords, 4, 8);
    } else if k == 1 {
      assert BlockPrefixes[k] == "else ";
      assert ClashAll("else ", LeadKeywords, 4, 8);
    } else if k == 2 {
      assert BlockPrefixes[k] == "loop ";
      assert ClashAll("loop ", LeadKeywords, 4, 8);
    } else if k == 3 {
      assert BlockPrefixes[k] == "opt ";
      assert ClashAll("opt ", LeadKeywords, 4, 8);
    } else if k == 4 {
      assert BlockPrefixes[k] == "par ";
      assert ClashAll("par ", LeadKeywords, 4, 8);
    } else if k == 5 {
      assert BlockPrefixes[k] == "critical ";
      assert ClashAll("critical ", LeadKeywords, 4, 8);
    } else if k == 6 {
      assert BlockPrefixes[k] == "break ";
      assert ClashAll("break ", LeadKeywords, 4, 8);
    } else if k == 7 {
      assert BlockPrefixes[k] == "activate ";
      assert ClashAll("activate ", LeadKeywords, 4, 8);
    } else {
      assert BlockPrefixes[k] == "deactivate ";
      assert ClashAll("deactivate ", LeadKeywords, 4, 8);
    }
  }

  /** Every block prefix clashes with the block prefixes before it. */
  lemma EarlierClash(k: nat)
    requires k < |BlockPrefixes|
    ensures ClashAll(BlockPrefixes[k], BlockPrefixes, 0, k)
  {
    if k == 0 {
      assert BlockPrefixes[k] == "alt ";
    } else if k == 1 {
      assert BlockPrefixes[k] == "else ";
    } else if k == 2 {
      assert BlockPrefixes[k] == "loop ";
    } else if k == 3 {
      assert BlockPrefixes[k] == "opt ";
    } else if k == 4 {
      assert BlockPrefixes[k] == "par ";
    } else if k == 5 {
      assert BlockPrefixes[k] == "critical ";
      assert ClashAll("critical ", BlockPrefixes, 4, 5);
    } else if k == 6 {
      assert BlockPrefixes[k] == "break ";
      assert ClashAll("break ", BlockPrefixes, 4, 6);
    } else if k == 7 {
      assert BlockPrefixes[k] == "activate ";
      assert ClashAll("activate ", BlockPrefixes, 4, 7);
    } else {
      assert BlockPrefixes[k] == "deactivate ";
      assert ClashAll("deactivate ", BlockPrefixes, 4, 8);
    }
  }

  /** No line that starts with a block prefix is `end note`, `else` or `end`. */
  lemma EndClash(k: nat)
    requires k < |BlockPrefixes|
    ensures Clash(BlockPrefixes[k], "end note", 0) && (Clash(BlockPrefixes[k], "else", 0) || |"else"| < |BlockPrefixes[k]|) && Clash(BlockPrefixes[k], "end", 0)
  {
    if k == 0 {
      assert BlockPrefixes[k] == "alt ";
    } else if k == 1 {
      assert BlockPrefixes[k] == "else ";
    } else if k == 2 {
      assert BlockPrefixes[k] == "loop ";
    } else if k == 3 {
      assert BlockPrefixes[k] == "opt ";
    } else if k == 4 {
      assert BlockPrefixes[k] == "par ";
    } else if k == 5 {
      assert BlockPrefixes[k] == "critical ";
    } else if k == 6 {
      assert BlockPrefixes[k] == "break ";
    } else if k == 7 {
      assert BlockPrefixes[k] == "activate ";
    } else {
      assert BlockPrefixes[k] == "deactivate ";
    }
  }

  /** The first block prefix a line starts with is the one `BlockPrefix` returns. */
  lemma {:induction false} BlockPrefixAt(t: string, ps: seq<string>, k: nat)
    requires k < |ps| && |ps[k]| > 0 && StartsWith(t, ps[k])
    requires forall j :: 0 <= j < k ==> !StartsWith(t, ps[j])
    ensures BlockPrefix(t, ps) == Some(ps[k])
    decreases k
  {
    if k > 0 {
      assert !StartsWith(t, ps[0]);
      BlockPrefixAt(t, ps[1..], k - 1);
    }
  }

  /** The facts about a block line the classifier tests before its block prefixes. */
  lemma BlockLineFacts(k: nat, x: string)
    requires k < |BlockPrefixes|
    ensures var t := BlockPrefixes[k] + x;
            && !StartsWith(t, "@startuml") && !StartsWith(t, "@enduml")
            && !StartsWith(t, "skinparam") && !StartsWith(t, "hide ") && !StartsWith(t, "show ")
            && !StartsWith(t, "title ") && !StartsWith(t, "participant ") && !StartsWith(t, "actor ")
            && NoteMatch(t) == None && NoteHead(t) == 0 && |t| > 0
            && t != "end note" && t != "else" && t != "end"
            && BlockPrefix(t, BlockPrefixes) == Some(BlockPrefixes[k])
  {
    var p := BlockPrefixes[k];
    var t := p + x;
    LeadClash(k);
    ClashAllSound(p, x, LeadKeywords, 0, |LeadKeywords|);
    LeadKeywordsNamed(t);
    EndClash(k);
    ClashNotEqual(p, x, "end note");
    ClashNotEqual(p, x, "else");
    ClashNotEqual(p, x, "end");
    assert t[0] == p[0];
    NoNote(t);
    EarlierClash(k);
    ClashAllSound(p, x, BlockPrefixes, 0, k);
    assert t[..|p|] == p;
    BlockPrefixAt(t, BlockPrefixes, k);
  }

  /** A line that starts with a block prefix is that block, with the rest of the line after the keyword and its space. */
  lemma BlockLine(k: nat, x: string)
    requires k < |BlockPrefixes|
    ensures var p := BlockPrefixes[k];
            Classify(p + x) == Block(p[..|p| - 1], Some(x))
  {
    var p := BlockPrefixes[k];
    BlockLineFacts(k, x);
    assert (p + x)[|p|..] == x;
  }

  /** So a block line is echoed as it stands, indented. */
  lemma BlockEchoed(k: nat, x: string)
    requires k < |BlockPrefixes|
    ensures Emit(Classify(BlockPrefixes[k] + x)) == ["    " + BlockPrefixes[k] + x]
  {
    var p := BlockPrefixes[k];
    var kw := p[..|p| - 1];
    assert Classify(p + x) == Block(kw, Some(x)) by {
      BlockLine(k, x);
    }
    assert p == kw + " " by {
      BlockPrefixSpace(k);
    }
    assert "    " + kw + " " + x == "    " + p + x;
  }

  /** Every block prefix is its keyword and one space. */
  lemma BlockPrefixSpace(k: nat)
    requires k < |BlockPrefixes|
    ensures |BlockPrefixes[k]| > 1 && BlockPrefixes[k] == BlockPrefixes[k][..|BlockPrefixes[k]| - 1] + " "
  {
  }

  /** `else` and `end` alone are blocks without text, echoed indented; `end note` closes a note and is skipped. */
  lemma BareBlockLine(t: string)
    requires t == "else" || t == "end" || t == "end note"
    ensures t != "end note" ==> Classify(t) == Block(t, None) && Emit(Classify(t)) == ["    " + t]
    ensures t == "end note" ==> Classify(t) == Skip && Emit(Classify(t)) == []
  {
    assert forall j :: 0 <= j < |LeadKeywords| ==> !StartsWith(t, LeadKeywords[j]) by {
      forall j | 0 <= j < |LeadKeywords| ensures !StartsWith(t, LeadKeywords[j]) {
        assert t[0] == 'e' && LeadKeywords[j][0] != 'e';
        FirstCharDiffers(t, LeadKeywords[j]);
      }
    }
    LeadKeywordsNamed(t);
    NoNote(t);
  }

  // ---------------------------------------------------------------------------
  // Declarations
  // ---------------------------------------------------------------------------

  /** The two keywords the declaration rule reads. */
  predicate DeclKeyword(keyword: string) {
    keyword == "participant" || keyword == "actor"
  }

  /** A line that starts with a declaration keyword and a space is read by the declaration rule. */
  lemma DeclReached(t: string, keyword: string)
    requires DeclKeyword(keyword) && StartsWith(t, keyword + " ")
    ensures Classify(t) == DeclLine(t, keyword)
  {
    assert t[0] == (keyword + " ")[0] == keyword[0];
    FirstCharDiffers(t, "@startuml");
    FirstCharDiffers(t, "@enduml");
    FirstCharDiffers(t, "skinparam");
    FirstCharDiffers(t, "hide ");
    FirstCharDiffers(t, "show ");
    FirstCharDiffers(t, "title ");
    if keyword == "actor" {
      FirstCharDiffers(t, "participant ");
    }
  }

  /** `\s+"?([^"]+)` after the keyword takes the whole unquoted name when no quote follows. */
  lemma PlainName(t: string, base: nat, name: string)
    requires base + 1 + |name| == |t| && t[base] == ' ' && t[base + 1..] == name
    requires |name| > 0 && !IsWhitespace(name[0]) && '"' !in name
    ensures ScanWhile(t, base, IsWhitespace) == base + 1
    ensures DeclFrom(t, base, 1) == Some((base + 1, |t|))
  {
    assert t[base + 1] == name[0];
    ScanWhileAt(t, base, base + 1, IsWhitespace);
    assert forall x :: base + 1 <= x < |t| ==> t[x] == name[x - base - 1];
    ScanWhileAt(t, base + 1, |t|, NotQuote);
  }

  /** A declaration with an unquoted name: the name is the whole rest of the line, without alias. */
  lemma PlainDecl(keyword: string, name: string)
    requires DeclKeyword(keyword)
    requires |name| > 0 && !IsWhitespace(name[0]) && '"' !in name
    ensures Classify(keyword + " " + name) == Decl(keyword, name, None)
  {
    var t := keyword + " " + name;
    var base := |keyword|;
    assert t[..|keyword + " "|] == keyword + " ";
    DeclReached(t, keyword);
    assert t[base + 1..] == name;
    PlainName(t, base, name);
  }

  /** So a declaration whose name has no run of white space is echoed, indented. */
  lemma PlainDeclEchoed(keyword: string, name: string)
    requires DeclKeyword(keyword)
    requires |name| > 0 && !IsWhitespace(name[0]) && '"' !in name && Collapsed(name)
    ensures Emit(Classify(keyword + " " + name)) == ["    " + keyword + " " + name]
  {
    PlainDecl(keyword, name);
    CollapseFixed(name);
  }

  /** An `as` alias after an unquoted name is not read as an alias: it stays part of the name. */
  lemma UnquotedAliasKept(keyword: string, name: string, alias: string)
    requires DeclKeyword(keyword)
    requires |name| > 0 && !IsWhitespace(name[0]) && '"' !in name && '"' !in alias
    ensures Classify(keyword + " " + name + " as " + alias) == Decl(keyword, name + " as " + alias, None)
  {
    assert keyword + " " + name + " as " + alias == keyword + " " + (name + " as " + alias);
    PlainDecl(keyword, name + " as " + alias);
  }

  /** `"?([^"]+)` at an opening quote: the capture ends at the closing quote. */
  lemma QuotedName(t: string, base: nat, e: nat)
    requires base + 2 < e < |t| && t[base] == ' ' && t[base + 1] == '"' && t[e] == '"'
    requires forall x :: base + 2 <= x < e ==> t[x] != '"'
    ensures ScanWhile(t, base, IsWhitespace) == base + 1
    ensures DeclFrom(t, base, 1) == Some((base + 2, e))
  {
    ScanWhileAt(t, base, base + 1, IsWhitespace);
    ScanWhileAt(t, base + 2, e, NotQuote);
  }

  /** `"?\s*(?:as\s+(\w+))?` after the name: the closing quote, one space, `as`, one space and a word. */
  lemma QuotedAlias(t: string, e: nat, alias: string)
    requires e + 5 + |alias| == |t| && t[e] == '"' && t[e + 1] == ' ' && t[e + 2..e + 4] == "as" && t[e + 4] == ' '
    requires t[e + 5..] == alias && |alias| > 0 && AllWordChars(alias)
    ensures AliasAfter(t, e) == Some(alias)
  {
    assert t[e + 2] == 'a';
    ScanWhileAt(t, e + 1, e + 2, IsWhitespace);
    assert t[e + 5] == alias[0];
    ScanWhileAt(t, e + 4, e + 5, IsWhitespace);
    assert forall x :: e + 5 <= x < |t| ==> t[x] == alias[x - e - 5];
    ScanWhileAt(t, e + 5, |t|, IsWordChar);
    assert WordAt(t, e + 2, "as");
    assert IsWordChar(t[e + 5]);
    assert t[e + 5..|t|] == alias;
  }

  /** A declaration written `keyword "name" as alias`. */
  function QuotedDeclText(keyword: string, name: string, alias: string): string {
    keyword + " \"" + name + "\" as " + alias
  }

  /** Where the parts of a quoted declaration sit. */
  lemma QuotedDeclParts(keyword: string, name: string, alias: string, base: nat, e: nat)
    requires |name| > 0 && '"' !in name && base == |keyword| && e == base + 2 + |name|
    ensures var t := QuotedDeclText(keyword, name, alias);
            && StartsWith(t, keyword + " ")
            && base + 2 < e < |t| && t[base] == ' ' && t[base + 1] == '"' && t[e] == '"'
            && (forall x :: base + 2 <= x < e ==> t[x] != '"') && t[base + 2..e] == name
            && e + 5 + |alias| == |t| && t[e + 1] == ' ' && t[e + 2..e + 4] == "as" && t[e + 4] == ' '
            && t[e + 5..] == alias
  {
    var t := QuotedDeclText(keyword, name, alias);
    assert t[..|keyword + " "|] == keyword + " ";
    assert forall x :: base + 2 <= x < e ==> t[x] == name[x - base - 2];
  }

  /** A quoted declaration: the name inside the quotes and the alias. */
  lemma QuotedDecl(keyword: string, name: string, alias: string)
    requires DeclKeyword(keyword)
    requires |name| > 0 && '"' !in name && |alias| > 0 && AllWordChars(alias)
    ensures Classify(QuotedDeclText(keyword, name, alias)) == Decl(keyword, name, Some(alias))
  {
    var t := QuotedDeclText(keyword, name, alias);
    var base := |keyword|;
    var e := base + 2 + |name|;
    QuotedDeclParts(keyword, name, alias, base, e);
    DeclReached(t, keyword);
    QuotedName(t, base, e);
    QuotedAlias(t, e, alias);
  }

  /** So the quoted declaration becomes Mermaid's `keyword alias as name`. */
  lemma QuotedDeclEmitted(keyword: string, name: string, alias: string)
    requires DeclKeyword(keyword)
    requires |name| > 0 && '"' !in name && |alias| > 0 && AllWordChars(alias)
    ensures Emit(Classify(QuotedDeclText(keyword, name, alias))) == ["    " + keyword + " " + alias + " as " + name]
  {
    QuotedDecl(keyword, name, alias);
  }

  // ---------------------------------------------------------------------------
  // Notes
  // ---------------------------------------------------------------------------

  /** A line that starts with `n` reaches the note rule. */
  lemma NoteReached(t: string)
    requires |t| > 0 && t[0] == 'n'
    ensures NoteMatch(t).Some? ==> Classify(t) == NoteMatch(t).value
    ensures NoteMatch(t).None? && NoteHead(t) > 0 && ':' !in t ==> Classify(t) == Skip
  {
    FirstCharDiffers(t, "@startuml");
    FirstCharDiffers(t, "@enduml");
    FirstCharDiffers(t, "skinparam");
    FirstCharDiffers(t, "hide ");
    FirstCharDiffers(t, "show ");
    FirstCharDiffers(t, "title ");
    FirstCharDiffers(t, "participant ");
    FirstCharDiffers(t, "actor ");
  }

  /** The three positions a note is placed at. */
  predicate NotePosition(pos: string) {
    pos == "left" || pos == "right" || pos == "over"
  }

  /** A word whose first letter is not the first letter of `w` does not match `w` without regard to case. */
  lemma NotLowerAt(t: string, i: nat, w: string)
    requires i < |t| && |w| > 0 && LowerChar(t[i]) != w[0]
    ensures !LowerAt(t, i, w)
  {
    if i + |w| <= |t| {
      assert AsciiLower(t[i..i + |w|])[0] == LowerChar(t[i]);
    }
  }

  /** `note`, white space and a position: where the head of the note pattern ends. */
  lemma NoteHeadAt(t: string, pos: string)
    requires NotePosition(pos) && |t| > 5 + |pos|
    requires t[..5] == "note " && t[5..5 + |pos|] == pos && !IsWhitespace(t[5])
    ensures ScanWhile(t, 4, IsWhitespace) == 5
    ensures NoteHead(t) == 5 + |pos| && t[5..NoteHead(t)] == pos
  {
    assert t[0..4] == "note";
    assert AsciiLower(t[0..4]) == "note";
    ScanWhileAt(t, 4, 5, IsWhitespace);
    assert AsciiLower(t[5..5 + |pos|]) == pos;
    assert t[5] == pos[0];
    if pos != "left" {
      NotLowerAt(t, 5, "left");
    }
    if pos == "over" {
      NotLowerAt(t, 5, "right");
    }
  }

  /** `\s*(.+)$` after the colon: one space and a text that starts with no white space. */
  lemma NoteTail(t: string, i: nat, m: string)
    requires i < |t| && t[i] == ' ' && t[i + 1..] == m
    requires |m| > 0 && !IsWhitespace(m[0]) && NoLineTerminator(m)
    ensures TailPlus(t, i) == Some(m)
  {
    assert t[i + 1] == m[0];
    ScanWhileAt(t, i, i + 1, IsWhitespace);
    assert forall x :: i + 1 <= x < |t| ==> t[x] == m[x - i - 1];
    ScanWhileAt(t, i + 1, |t|, NotTerminator);
  }

  /** One participant right before the colon. */
  lemma NoteOneParticipant(t: string, x: nat, a: string, c: nat)
    requires x < c < |t| && t[x..c] == a && t[c] == ':' && AllWordChars(a) && |a| > 0
    ensures NoteParticipants(t, x) == Some((Some(a), None, c))
  {
    assert forall y :: x <= y < c ==> t[y] == a[y - x];
    ScanWhileAt(t, x, c, IsWordChar);
    ScanWhileAt(t, c, c, IsWhitespace);
  }

  /** Two participants, `a, b`, right before the colon. */
  lemma NoteTwoParticipants(t: string, x: nat, a: string, b: string, c: nat)
    requires |a| > 0 && AllWordChars(a) && |b| > 0 && AllWordChars(b)
    requires x + |a| + 2 + |b| == c < |t| && t[x..x + |a|] == a && t[x + |a|] == ',' && t[x + |a| + 1] == ' '
    requires t[x + |a| + 2..c] == b && t[c] == ':'
    ensures NoteParticipants(t, x) == Some((Some(a), Some(b), c))
  {
    var w := x + |a|;
    assert forall y :: x <= y < w ==> t[y] == a[y - x];
    ScanWhileAt(t, x, w, IsWordChar);
    ScanWhileAt(t, w, w, IsWhitespace);
    assert t[w + 2] == b[0];
    ScanWhileAt(t, w + 1, w + 2, IsWhitespace);
    assert forall y :: w + 2 <= y < c ==> t[y] == b[y - w - 2];
    ScanWhileAt(t, w + 2, c, IsWordChar);
    ScanWhileAt(t, c, c, IsWhitespace);
  }

  /** A one-line note over two participants, written `note over a, b: m`. */
  function NoteOverText(a: string, b: string, m: string): string {
    "note over " + a + ", " + b + ": " + m
  }

  /** Where the parts of a note over two participants sit. */
  lemma NoteOverParts(a: string, b: string, m: string, c: nat)
    requires c == 12 + |a| + |b|
    ensures var t := NoteOverText(a, b, m);
            && |t| == c + 2 + |m| && t[..5] == "note " && t[5..9] == "over" && t[9] == ' '
            && t[10..10 + |a|] == a && t[10 + |a|] == ',' && t[11 + |a|] == ' '
            && t[12 + |a|..c] == b && t[c] == ':' && t[c + 1] == ' ' && t[c + 2..] == m
  {
  }

  /** The optional `of\s+` cannot be read inside a word followed by a comma. */
  lemma NoOfInWord(t: string, x: nat, a: string)
    requires |a| > 0 && AllWordChars(a) && x + |a| < |t| && t[x..x + |a|] == a && t[x + |a|] == ','
    ensures !(LowerAt(t, x, "of") && x + 2 < |t| && IsWhitespace(t[x + 2]))
  {
    if |a| == 1 {
      NotLowerAt(t, x + 1, "f");
      if x + 2 <= |t| {
        assert AsciiLower(t[x..x + 2])[1] == LowerChar(t[x + 1]);
      }
    } else if |a| == 2 {
      assert t[x + 2] == ',';
    } else {
      assert t[x + 2] == a[2];
    }
  }

  /** The note pattern on a line laid out as `note over a, b: m`. */
  lemma NoteOverAt(t: string, a: string, b: string, m: string, c: nat)
    requires |a| > 0 && AllWordChars(a) && |b| > 0 && AllWordChars(b)
    requires |m| > 0 && !IsWhitespace(m[0]) && NoLineTerminator(m)
    requires c == 12 + |a| + |b| && |t| == c + 2 + |m| && t[..5] == "note " && t[5..9] == "over" && t[9] == ' '
    requires t[10..10 + |a|] == a && t[10 + |a|] == ',' && t[11 + |a|] == ' '
    requires t[12 + |a|..c] == b && t[c] == ':' && t[c + 1] == ' ' && t[c + 2..] == m
    ensures NoteMatch(t) == Some(Note("over", Some(a), Some(b), m))
  {
    assert t[5] == 'o';
    NoteHeadAt(t, "over");
    assert t[10] == a[0];
    ScanWhileAt(t, 9, 10, IsWhitespace);
    NoOfInWord(t, 10, a);
    NoteTwoParticipants(t, 10, a, b, c);
    NoteTail(t, c + 1, m);
  }

  /** The note pattern reads `note over a, b: m` as a note over `a` and `b` with the text `m`. */
  lemma NoteOverMatch(a: string, b: string, m: string)
    requires |a| > 0 && AllWordChars(a) && |b| > 0 && AllWordChars(b)
    requires |m| > 0 && !IsWhitespace(m[0]) && NoLineTerminator(m)
    ensures NoteMatch(NoteOverText(a, b, m)) == Some(Note("over", Some(a), Some(b), m))
  {
    var c := 12 + |a| + |b|;
    NoteOverParts(a, b, m, c);
    NoteOverAt(NoteOverText(a, b, m), a, b, m, c);
  }

  /** The classifier takes `note over a, b: m` as that note. */
  lemma NoteOverClassified(a: string, b: string, m: string)
    requires |a| > 0 && AllWordChars(a) && |b| > 0 && AllWordChars(b)
    requires |m| > 0 && !IsWhitespace(m[0]) && NoLineTerminator(m)
    ensures Classify(NoteOverText(a, b, m)) == Note("over", Some(a), Some(b), m)
  {
    var t := NoteOverText(a, b, m);
    NoteOverParts(a, b, m, 12 + |a| + |b|);
    assert t[0] == t[..5][0];
    NoteOverMatch(a, b, m);
    NoteReached(t);
  }

  /** So it becomes Mermaid's `Note over a,b: m`. */
  lemma NoteOverPair(a: string, b: string, m: string)
    requires |a| > 0 && AllWordChars(a) && |b| > 0 && AllWordChars(b)
    requires |m| > 0 && !IsWhitespace(m[0]) && NoLineTerminator(m)
    ensures Emit(Classify(NoteOverText(a, b, m))) == ["    Note over " + a + "," + b + ": " + m]
  {
    var n := Classify(NoteOverText(a, b, m));
    assert n == Note("over", Some(a), Some(b), m) by { NoteOverClassified(a, b, m); }
    NoteOverEmitted(a, b, m);
  }

  /** Emitting a note over two participants. */
  lemma NoteOverEmitted(a: string, b: string, m: string)
    ensures Emit(Note("over", Some(a), Some(b), m)) == ["    Note over " + a + "," + b + ": " + m]
  {
    assert AsciiLower("over") == "over";
  }

  /** A one-line note beside a participant, written `note left of a: m` or `note right of a: m`. */
  function NoteSideText(pos: string, a: string, m: string): string {
    "note " + pos + " of " + a + ": " + m
  }

  /** Where the parts of a note beside a participant sit. */
  lemma NoteSideParts(pos: string, a: string, m: string, h: nat, c: nat)
    requires h == 5 + |pos| && c == h + 4 + |a|
    ensures var t := NoteSideText(pos, a, m);
            && |t| == c + 2 + |m| && t[..5] == "note " && t[5..h] == pos && t[h] == ' '
            && t[h + 1..h + 3] == "of" && t[h + 3] == ' ' && t[h + 4..c] == a
            && t[c] == ':' && t[c + 1] == ' ' && t[c + 2..] == m
  {
  }

  /** ` of ` after the position, followed by a participant: the optional `of\s+` is taken. */
  lemma NoteOf(t: string, h: nat)
    requires h + 4 < |t| && t[h] == ' ' && t[h + 1..h + 3] == "of" && t[h + 3] == ' ' && !IsWhitespace(t[h + 4])
    ensures ScanWhile(t, h, IsWhitespace) == h + 1
    ensures LowerAt(t, h + 1, "of") && IsWhitespace(t[h + 3]) && ScanWhile(t, h + 3, IsWhitespace) == h + 4
  {
    assert t[h + 1] == 'o';
    ScanWhileAt(t, h, h + 1, IsWhitespace);
    assert AsciiLower(t[h + 1..h + 3]) == "of";
    ScanWhileAt(t, h + 3, h + 4, IsWhitespace);
  }

  /** The positions are written in lower case. */
  lemma PositionLower(pos: string)
    requires NotePosition(pos)
    ensures AsciiLower(pos) == pos
  {
    if pos == "left" {
    } else if pos == "right" {
    } else {
    }
  }

  /** The note pattern on a line laid out as `note pos of a: m`. */
  lemma NoteSideAt(t: string, pos: string, a: string, m: string, h: nat, c: nat)
    requires (pos == "left" || pos == "right") && |a| > 0 && AllWordChars(a)
    requires |m| > 0 && !IsWhitespace(m[0]) && NoLineTerminator(m)
    requires h == 5 + |pos| && c == h + 4 + |a| && |t| == c + 2 + |m|
    requires t[..5] == "note " && t[5..h] == pos && t[h] == ' '
    requires t[h + 1..h + 3] == "of" && t[h + 3] == ' ' && t[h + 4..c] == a
    requires t[c] == ':' && t[c + 1] == ' ' && t[c + 2..] == m
    ensures NoteMatch(t) == Some(Note(pos, Some(a), None, m))
  {
    assert t[5] == pos[0];
    NoteHeadAt(t, pos);
    assert t[h + 4] == a[0];
    NoteOf(t, h);
    NoteOneParticipant(t, h + 4, a, c);
    NoteTail(t, c + 1, m);
  }

  /** The classifier takes `note pos of a: m` as that note. */
  lemma NoteSideClassified(pos: string, a: string, m: string)
    requires (pos == "left" || pos == "right") && |a| > 0 && AllWordChars(a)
    requires |m| > 0 && !IsWhitespace(m[0]) && NoLineTerminator(m)
    ensures Classify(NoteSideText(pos, a, m)) == Note(pos, Some(a), None, m)
  {
    var t := NoteSideText(pos, a, m);
    var h := 5 + |pos|;
    NoteSideParts(pos, a, m, h, h + 4 + |a|);
    assert t[0] == t[..5][0];
    NoteSideAt(t, pos, a, m, h, h + 4 + |a|);
    NoteReached(t);
  }

  /** So it becomes Mermaid's `Note pos of a: m`. */
  lemma NoteSide(pos: string, a: string, m: string)
    requires (pos == "left" || pos == "right") && |a| > 0 && AllWordChars(a)
    requires |m| > 0 && !IsWhitespace(m[0]) && NoLineTerminator(m)
    ensures Emit(Classify(NoteSideText(pos, a, m))) == ["    Note " + pos + " of " + a + ": " + m]
  {
    NoteSideClassified(pos, a, m);
    PositionLower(pos);
  }

  /** The head of a note without a colon opens a note block, and the line is skipped. */
  lemma NoteHeaderSkipped(pos: string, rest: string)
    requires NotePosition(pos) && |rest| > 0 && ':' !in rest
    ensures Classify("note " + pos + rest) == Skip
  {
    var t := "note " + pos + rest;
    assert t[..5] == "note " && t[5..5 + |pos|] == pos && t[5] == pos[0] && t[0] == 'n';
    NoteHeadAt(t, pos);
    assert ':' !in t by {
      assert forall i :: 0 <= i < |t| ==> t[i] in "note " || t[i] in pos || t[i] in rest;
    }
    NoteReached(t);
  }

  // ---------------------------------------------------------------------------
  // Detection
  // ---------------------------------------------------------------------------

  /** Text without upper-case ASCII letters is its own lower-cased form. */
  lemma LowerFixed(p: string)
    requires forall i :: 0 <= i < |p| ==> !('A' <= p[i] <= 'Z')
    ensures AsciiLower(p) == p
  {
  }

  /** `@startuml` right after the leading white space is what `Trim` leaves at the front. */
  lemma StartTagAt(s: string, n: nat)
    requires n + 9 <= |s| && AllWhitespace(s[..n]) && s[n..n + 9] == "@startuml"
    ensures IsPlantUml(s)
  {
    TrimKeeps(s, n, n + 9);
    assert WsRun(s) == n;
    var r := Trim(s);
    assert r[0..9] == "@startuml";
    LowerWindow(r, 0, "@startuml");
    LowerFixed("@startuml");
  }

  /** A text that begins, after white space, with `@startuml` is taken for PlantUML, whatever follows. */
  lemma StartTagDetected(ws: string, rest: string)
    requires AllWhitespace(ws)
    ensures IsPlantUml(ws + "@startuml" + rest)
  {
    var s := ws + "@startuml" + rest;
    assert s[..|ws|] == ws && s[|ws|..|ws| + 9] == "@startuml";
    StartTagAt(s, |ws|);
  }

  /** A window whose ends are not white space is still there after trimming and lower-casing. */
  lemma LoweredHolds(s: string, i: nat, w: string)
    requires |w| > 0 && i + |w| <= |s| && s[i..i + |w|] == w
    requires !IsWhitespace(w[0]) && !IsWhitespace(w[|w| - 1])
    ensures Contains(AsciiLower(Trim(s)), AsciiLower(w))
  {
    assert s[i] == w[0] && s[i + |w| - 1] == w[|w| - 1];
    TrimKeeps(s, i, i + |w|);
    var k := i - WsRun(s);
    LowerWindow(Trim(s), k, w);
    ContainsAt(AsciiLower(Trim(s)), AsciiLower(w), k);
  }

  /** What the lower-cased, trimmed text of a Mermaid header with a `->>` holds. */
  lemma MermaidLowered(s: string, b: nat)
    requires 15 <= |s| && s[0..15] == "sequenceDiagram"
    requires b + 3 <= |s| && s[b..b + 3] == "->>"
    ensures var lower := AsciiLower(Trim(s));
      |lower| > 0 && lower[0] == 's' && Contains(lower, "sequencediagram") && Contains(lower, "->>")
  {
    LoweredHolds(s, 0, "sequenceDiagram");
    assert AsciiLower("sequenceDiagram") == "sequencediagram";
    LoweredHolds(s, b, "->>");
    LowerFixed("->>");
    assert s[0] == "sequenceDiagram"[0];
    TrimKeeps(s, 0, 1);
    assert Trim(s)[0] == 's';
  }

  /** A text that opens with `sequenceDiagram` and holds `->>` is not taken for PlantUML. */
  lemma MermaidNotDetected(s: string, b: nat)
    requires 15 <= |s| && s[0..15] == "sequenceDiagram"
    requires b + 3 <= |s| && s[b..b + 3] == "->>"
    ensures !IsPlantUml(s)
  {
    MermaidLowered(s, b);
  }

  /** The Mermaid line of every message carries `->>`, at the offset returned. */
  lemma MessageArrowAt(l: Line) returns (p: nat)
    requires l.Msg?
    ensures |Emit(l)| == 1 && p + 3 <= |Emit(l)[0]| && Emit(l)[0][p..p + 3] == "->>"
  {
    var (a, swap) := MermaidArrow(l.pattern, l.arrow);
    var x, y := if swap then l.to else l.from, if swap then l.from else l.to;
    var u, w := "    " + x, y + ": " + l.text;
    assert Emit(l)[0] == u + a + w;
    Window(u, a, w);
    if a == "->>" {
      p := |u|;
    } else {
      assert a == "-->>";
      p := |u| + 1;
      assert (u + a + w)[p..p + 3] == (u + a + w)[|u|..|u| + 4][1..4];
    }
  }

  /** The middle part of a concatenation, read back by its offsets. */
  lemma Window(u: string, v: string, w: string)
    ensures (u + v + w)[|u|..|u| + |v|] == v
  {
  }

  /** The lines `f` gives for each of `lines`, concatenated in order. */
  function FlatMap(lines: seq<string>, f: string -> seq<string>): (r: seq<string>)
  {
    if |lines| == 0 then [] else f(lines[0]) + FlatMap(lines[1..], f)
  }

  /** A line `f` gives for element `k` appears in the concatenation. */
  lemma {:induction false} FlatMapHas(lines: seq<string>, f: string -> seq<string>, k: nat) returns (j: nat)
    requires k < |lines| && |f(lines[k])| > 0
    ensures j < |FlatMap(lines, f)| && FlatMap(lines, f)[j] == f(lines[k])[0]
    decreases k
  {
    var head, rest := f(lines[0]), FlatMap(lines[1..], f);
    if k == 0 {
      j := 0;
    } else {
      assert lines[1..][k - 1] == lines[k];
      var i := FlatMapHas(lines[1..], f, k - 1);
      j := |head| + i;
      assert (head + rest)[j] == rest[i];
    }
  }

  /** `EmitLines` is the concatenation of what each trimmed line emits. */
  lemma {:induction false} EmitLinesFlat(lines: seq<string>)
    ensures EmitLines(lines) == FlatMap(lines, line => Emit(Classify(Trim(line))))
    decreases |lines|
  {
    if |lines| > 0 {
      EmitLinesFlat(lines[1..]);
    }
  }

  /** A Mermaid body with a `->>` line, under the `sequenceDiagram` header, is not taken for PlantUML. */
  lemma JoinedNotDetected(body: seq<string>, j: nat, p: nat)
    requires j < |body| && p + 3 <= |body[j]| && body[j][p..p + 3] == "->>"
    ensures !IsPlantUml(Join(["sequenceDiagram"] + body))
  {
    var all := ["sequenceDiagram"] + body;
    var m := body[j];
    assert all[j + 1] == m;
    var s := Join(all);
    var q := JoinHas(all, j + 1);
    var h := JoinHas(all, 0);
    assert s[q + p..q + p + 3] == s[q..q + |m|][p..p + 3];
    MermaidNotDetected(s, q + p);
  }

  /**
   * The output of the converter is not taken for PlantUML once any input
   * line is a message: a converted diagram is never converted again.
   */
  lemma ConvertedNotDetected(plantUml: string, k: nat)
    requires k < |Split(plantUml)| && Classify(Trim(Split(plantUml)[k])).Msg?
    ensures !IsPlantUml(Convert(plantUml))
  {
    var lines := Split(plantUml);
    var p := MessageArrowAt(Classify(Trim(lines[k])));
    var f := line => Emit(Classify(Trim(line)));
    EmitLinesFlat(lines);
    var j := FlatMapHas(lines, f, k);
    JoinedNotDetected(EmitLines(lines), j, p);
  }
}
