/**
 * The shortcut table of the share token: before compression the diagram text
 * is normalised line by line and verbose Mermaid keywords and arrows are
 * replaced by short `~` tokens, in table order; on load the tokens are
 * expanded again in reverse table order.
 */
module Shortcuts {
  import opened JsString

  /** `CODE_SHORTCUTS`: (long form, short form), in the order the encoder applies them. */
  const Table: seq<(string, string)> := [
    ("sequenceDiagram", "~SD"),
    ("participant", "~P"),
    ("actor", "~A"),
    ("activate", "~+"),
    ("deactivate", "~-"),
    ("Note left of", "~NL"),
    ("Note right of", "~NR"),
    ("Note over", "~NO"),
    ("loop", "~LP"),
    ("alt", "~AL"),
    ("else", "~EL"),
    ("opt", "~OP"),
    ("par", "~PA"),
    ("and", "~AN"),
    ("rect", "~RC"),
    ("end", "~EN"),
    ("->>>", "~3"),
    ("-->>>", "~4"),
    ("->>", "~1"),
    ("-->>", "~2"),
    ("->", "~5"),
    ("-->", "~6")
  ]

  /**
   * The shape every table entry has: the long form holds no `~`, the short
   * form is `~` followed by characters other than `~`, and neither holds a
   * line feed.
   */
  predicate WellFormedPair(pair: (string, string)) {
    && |pair.0| > 0 && '~' !in pair.0 && '\n' !in pair.0
    && |pair.1| > 0 && pair.1[0] == '~' && '~' !in pair.1[1..] && '\n' !in pair.1
  }

  predicate WellFormedTable(t: seq<(string, string)>) {
    forall i :: 0 <= i < |t| ==> WellFormedPair(t[i])
  }

  lemma TableIsWellFormed()
    ensures WellFormedTable(Table)
  {
  }

  /** The trimmed, non-blank lines of `lines`, in order. */
  function TrimmedNonBlank(lines: seq<string>): (r: seq<string>)
    requires forall i :: 0 <= i < |lines| ==> '\n' !in lines[i]
    ensures |r| <= |lines|
    ensures forall i :: 0 <= i < |r| ==> r[i] != "" && IsTrimmed(r[i]) && '\n' !in r[i]
  {
    if |lines| == 0 then []
    else
      var t := Trim(lines[0]);
      assert '\n' !in t by {
        forall i | 0 <= i < |t| ensures t[i] != '\n' {
          TrimChars(lines[0], i);
        }
      }
      (if t == "" then [] else [t]) + TrimmedNonBlank(lines[1..])
  }

  /** The first statement of `compressCode`: trim every line and drop the blank ones. */
  function NormalizeLines(code: string): string {
    Join(TrimmedNonBlank(Split(code)))
  }

  /** The normalised text's lines are exactly the trimmed non-blank lines of the input. */
  lemma NormalizeLinesSplit(code: string)
    ensures TrimmedNonBlank(Split(code)) == [] ==> NormalizeLines(code) == ""
    ensures TrimmedNonBlank(Split(code)) != [] ==>
              Split(NormalizeLines(code)) == TrimmedNonBlank(Split(code))
  {
    var ls := TrimmedNonBlank(Split(code));
    if ls != [] {
      SplitJoin(ls);
    }
  }

  /** Applies the pairs of `t` first to last, each as `split(long).join(short)`. */
  function ApplyForward(s: string, t: seq<(string, string)>): string
    decreases |t|
  {
    if |t| == 0 then s
    else ApplyForward(ReplaceAll(s, t[0].0, t[0].1), t[1..])
  }

  /** Applies the pairs of `t` last to first, each as `split(short).join(long)`. */
  function ApplyBackward(s: string, t: seq<(string, string)>): string
  {
    if |t| == 0 then s
    else ReplaceAll(ApplyBackward(s, t[1..]), t[0].1, t[0].0)
  }

  /** `compressCode`: the substitutions never add or remove a line. */
  function CompressCode(code: string): (r: string)
    ensures CountChar(r, '\n') == CountChar(NormalizeLines(code), '\n')
  {
    TableIsWellFormed();
    ForwardKeepsLineFeeds(NormalizeLines(code), Table);
    ApplyForward(NormalizeLines(code), Table)
  }

  /**
   * `decompressCode`: only shortcut tokens, which all start with `~`, are
   * expanded, and no line is added or removed.
   */
  function DecompressCode(code: string): (r: string)
    ensures '~' !in code ==> r == code
    ensures CountChar(r, '\n') == CountChar(code, '\n')
  {
    TableIsWellFormed();
    BackwardKeepsLineFeeds(code, Table);
    if '~' !in code then BackwardWithoutTilde(code, Table); ApplyBackward(code, Table)
    else ApplyBackward(code, Table)
  }

  /**
   * No token collision: before each pair of `t` is applied, the text holds no
   * literal occurrence of that pair's short form.
   */
  predicate NoCollision(s: string, t: seq<(string, string)>)
    decreases |t|
  {
    |t| == 0 ||
    (!Contains(s, t[0].1) && NoCollision(ReplaceAll(s, t[0].0, t[0].1), t[1..]))
  }

  lemma {:induction false} ContainsDrop(s: string, p: string, k: nat)
    requires k <= |s| && Contains(s[k..], p)
    ensures Contains(s, p)
    decreases k
  {
    if k > 0 {
      assert s[1..][k - 1..] == s[k..];
      ContainsDrop(s[1..], p, k - 1);
    }
  }

  /** Replacing a pattern that does not occur changes nothing. */
  lemma {:induction false} ReplaceAbsent(s: string, p: string, r: string)
    requires |p| > 0 && !Contains(s, p)
    ensures ReplaceAll(s, p, r) == s
    decreases |s|
  {
    if |s| >= |p| {
      ReplaceAbsent(s[1..], p, r);
      assert s == [s[0]] + s[1..];
    }
  }

  /**
   * A `~`-free prefix of the replaced text was already a prefix of the
   * original: every inserted short form starts with `~`.
   */
  lemma {:induction false} PrefixPreserved(t: string, p: string, r: string, q: string)
    requires |p| > 0 && |r| > 0 && r[0] == '~' && '~' !in q
    requires StartsWith(ReplaceAll(t, p, r), q)
    ensures StartsWith(t, q)
    decreases |t|
  {
    var out := ReplaceAll(t, p, r);
    assert |t| >= |p| && t[..|p|] == p ==> out == r + ReplaceAll(t[|p|..], p, r);
    assert |t| >= |p| && t[..|p|] == p ==> out[0] == '~';
    assert |q| > 0 ==> q[0] == out[0] && q[0] in q;
    if |q| > 0 && |t| >= |p| && t[..|p|] != p {
      var rest := ReplaceAll(t[1..], p, r);
      assert out == [t[0]] + rest;
      assert out[..|q|] == q;
      assert out[..|q|] == [t[0]] + rest[..|q| - 1];
      assert rest[..|q| - 1] == q[1..];
      PrefixPreserved(t[1..], p, r, q[1..]);
      assert t[..|q|] == [t[0]] + t[1..][..|q| - 1];
    }
  }

  /** A short form that appears right after an unreplaced character was already in the text. */
  lemma TokenAfterChar(s: string, p: string, r: string)
    requires |s| > 0 && |p| > 0 && |r| > 0 && r[0] == '~' && '~' !in r[1..]
    ensures StartsWith([s[0]] + ReplaceAll(s[1..], p, r), r) ==> StartsWith(s, r)
  {
    var x := [s[0]] + ReplaceAll(s[1..], p, r);
    if StartsWith(x, r) {
      assert ReplaceAll(s[1..], p, r)[..|r| - 1] == r[1..];
      PrefixPreserved(s[1..], p, r, r[1..]);
      assert s[..|r|] == [s[0]] + s[1..][..|r| - 1];
    }
  }

  /**
   * One table pair round-trips: expanding the short form undoes the
   * substitution whenever the text held no literal short form.
   */
  lemma {:induction false} ReplaceRoundTrip(s: string, p: string, r: string)
    requires |p| > 0 && '~' !in p
    requires |r| > 0 && r[0] == '~' && '~' !in r[1..]
    requires !Contains(s, r)
    ensures ReplaceAll(ReplaceAll(s, p, r), r, p) == s
    decreases |s|
  {
    if |s| < |p| {
      ReplaceAbsent(s, r, p);
    } else if s[..|p|] == p {
      var rest := ReplaceAll(s[|p|..], p, r);
      assert !Contains(s[|p|..], r) by {
        if Contains(s[|p|..], r) { ContainsDrop(s, r, |p|); }
      }
      ReplaceRoundTrip(s[|p|..], p, r);
      assert (r + rest)[..|r|] == r;
      assert (r + rest)[|r|..] == rest;
      assert s == p + s[|p|..];
    } else {
      var rest := ReplaceAll(s[1..], p, r);
      assert !Contains(s[1..], r);
      TokenAfterChar(s, p, r);
      ReplaceRoundTrip(s[1..], p, r);
      assert ([s[0]] + rest)[1..] == rest;
      assert s == [s[0]] + s[1..];
    }
  }

  /** Every well-formed table round-trips on a text without token collisions. */
  lemma {:induction false} TableRoundTrip(s: string, t: seq<(string, string)>)
    requires WellFormedTable(t)
    requires NoCollision(s, t)
    ensures ApplyBackward(ApplyForward(s, t), t) == s
    decreases |t|
  {
    if |t| > 0 {
      var s1 := ReplaceAll(s, t[0].0, t[0].1);
      TableRoundTrip(s1, t[1..]);
      ReplaceRoundTrip(s, t[0].0, t[0].1);
    }
  }

  /**
   * `decompressCode(compressCode(code))` gives back the trimmed, blank-free
   * text whenever no substitution step meets a literal short form.
   */
  lemma CodeRoundTrip(code: string)
    requires NoCollision(NormalizeLines(code), Table)
    ensures DecompressCode(CompressCode(code)) == NormalizeLines(code)
  {
    var n := NormalizeLines(code);
    TableIsWellFormed();
    TableRoundTrip(n, Table);
    assert CompressCode(code) == ApplyForward(n, Table);
  }

  /** Replacing line-feed-free text by line-feed-free text keeps the line count. */
  lemma {:induction false} ReplaceKeepsLineFeeds(s: string, p: string, r: string)
    requires |p| > 0 && '\n' !in p && '\n' !in r
    ensures CountChar(ReplaceAll(s, p, r), '\n') == CountChar(s, '\n')
    decreases |s|
  {
    if |s| >= |p| {
      if s[..|p|] == p {
        ReplaceKeepsLineFeeds(s[|p|..], p, r);
        CountCharAppend(r, ReplaceAll(s[|p|..], p, r), '\n');
        CountCharAppend(p, s[|p|..], '\n');
        CountCharAbsent(r, '\n');
        CountCharAbsent(p, '\n');
        assert s == p + s[|p|..];
      } else {
        ReplaceKeepsLineFeeds(s[1..], p, r);
        CountCharAppend([s[0]], ReplaceAll(s[1..], p, r), '\n');
      }
    }
  }

  lemma {:induction false} ForwardKeepsLineFeeds(s: string, t: seq<(string, string)>)
    requires WellFormedTable(t)
    ensures CountChar(ApplyForward(s, t), '\n') == CountChar(s, '\n')
    decreases |t|
  {
    if |t| > 0 {
      ReplaceKeepsLineFeeds(s, t[0].0, t[0].1);
      ForwardKeepsLineFeeds(ReplaceAll(s, t[0].0, t[0].1), t[1..]);
    }
  }

  lemma {:induction false} BackwardKeepsLineFeeds(s: string, t: seq<(string, string)>)
    requires WellFormedTable(t)
    ensures CountChar(ApplyBackward(s, t), '\n') == CountChar(s, '\n')
    decreases |t|
  {
    if |t| > 0 {
      BackwardKeepsLineFeeds(s, t[1..]);
      ReplaceKeepsLineFeeds(ApplyBackward(s, t[1..]), t[0].1, t[0].0);
    }
  }

  /** Text without `~` holds no short form, so expanding leaves it alone. */
  lemma {:induction false} BackwardWithoutTilde(s: string, t: seq<(string, string)>)
    requires WellFormedTable(t) && '~' !in s
    ensures ApplyBackward(s, t) == s
    decreases |t|
  {
    if |t| > 0 {
      BackwardWithoutTilde(s, t[1..]);
      NotContainsChar(s, t[0].1, 0);
      ReplaceAbsent(s, t[0].1, t[0].0);
    }
  }

  // ---------------------------------------------------------------------------
  // A collision: the round trip needs its premise
  // ---------------------------------------------------------------------------

  /** Some character of `p`, from the `j`-th on, does not occur in `s`. */
  function CharMissing(s: string, p: string, j: nat): bool
    decreases |p| - j
  {
    j < |p| && (p[j] !in s || CharMissing(s, p, j + 1))
  }

  /** A pattern with a character that `s` lacks does not occur in `s`. */
  lemma {:induction false} NotContainsChar(s: string, p: string, j: nat)
    requires j < |p| && p[j] !in s
    ensures !Contains(s, p)
    decreases |s|
  {
    if |s| > 0 {
      if |p| <= |s| {
        assert s[..|p|][j] == s[j];
      }
      assert forall x :: 0 <= x < |s| - 1 ==> s[1..][x] == s[x + 1];
      NotContainsChar(s[1..], p, j);
    }
  }

  lemma {:induction false} CharMissingSound(s: string, p: string, j: nat)
    requires CharMissing(s, p, j)
    ensures |p| > 0 && !Contains(s, p)
    decreases |p| - j
  {
    if p[j] !in s {
      NotContainsChar(s, p, j);
    } else {
      CharMissingSound(s, p, j + 1);
    }
  }

  /** Every long form of `Table[lo..hi]` lacks a character of `s`. */
  function LongsMissing(s: string, lo: nat, hi: nat): bool
    requires hi <= |Table|
    decreases hi - lo
  {
    lo >= hi || (CharMissing(s, Table[lo].0, 0) && LongsMissing(s, lo + 1, hi))
  }

  /** Every short form of `Table[lo..hi]` lacks a character of `s`. */
  function ShortsMissing(s: string, lo: nat, hi: nat): bool
    requires hi <= |Table|
    decreases hi - lo
  {
    lo >= hi || (CharMissing(s, Table[lo].1, 0) && ShortsMissing(s, lo + 1, hi))
  }

  /** Pairs whose long forms do not occur leave the text as it is. */
  lemma {:induction false} ForwardUnchanged(s: string, lo: nat, hi: nat)
    requires lo <= hi <= |Table| && LongsMissing(s, lo, hi)
    ensures ApplyForward(s, Table[lo..hi]) == s
    decreases hi - lo
  {
    if lo < hi {
      assert Table[lo..hi][0] == Table[lo] && Table[lo..hi][1..] == Table[lo + 1..hi];
      CharMissingSound(s, Table[lo].0, 0);
      ReplaceAbsent(s, Table[lo].0, Table[lo].1);
      ForwardUnchanged(s, lo + 1, hi);
    }
  }

  /** Pairs whose short forms do not occur leave the text as it is. */
  lemma {:induction false} BackwardUnchanged(s: string, lo: nat, hi: nat)
    requires lo <= hi <= |Table| && ShortsMissing(s, lo, hi)
    ensures ApplyBackward(s, Table[lo..hi]) == s
    decreases hi - lo
  {
    if lo < hi {
      assert Table[lo..hi][0] == Table[lo] && Table[lo..hi][1..] == Table[lo + 1..hi];
      BackwardUnchanged(s, lo + 1, hi);
      CharMissingSound(s, Table[lo].1, 0);
      ReplaceAbsent(s, Table[lo].1, Table[lo].0);
    }
  }

  /** Substituting the pairs of `a + b` is substituting those of `a`, then those of `b`. */
  lemma {:induction false} ForwardAppend(s: string, a: seq<(string, string)>, b: seq<(string, string)>)
    ensures ApplyForward(s, a + b) == ApplyForward(ApplyForward(s, a), b)
    decreases |a|
  {
    if |a| > 0 {
      assert (a + b)[0] == a[0] && (a + b)[1..] == a[1..] + b;
      ForwardAppend(ReplaceAll(s, a[0].0, a[0].1), a[1..], b);
    } else {
      assert a + b == b;
    }
  }

  /** Expanding the pairs of `a + b` is expanding those of `b`, then those of `a`. */
  lemma {:induction false} BackwardAppend(s: string, a: seq<(string, string)>, b: seq<(string, string)>)
    ensures ApplyBackward(s, a + b) == ApplyBackward(ApplyBackward(s, b), a)
    decreases |a|
  {
    if |a| > 0 {
      assert (a + b)[0] == a[0] && (a + b)[1..] == a[1..] + b;
      BackwardAppend(s, a[1..], b);
    } else {
      assert a + b == b;
    }
  }

  /** The text is free of collisions for `a + b` when it is for `a`, and the result of `a` is for `b`. */
  lemma {:induction false} NoCollisionAppend(s: string, a: seq<(string, string)>, b: seq<(string, string)>)
    ensures NoCollision(s, a + b) <==> NoCollision(s, a) && NoCollision(ApplyForward(s, a), b)
    decreases |a|
  {
    if |a| > 0 {
      assert (a + b)[0] == a[0] && (a + b)[1..] == a[1..] + b;
      NoCollisionAppend(ReplaceAll(s, a[0].0, a[0].1), a[1..], b);
    } else {
      assert a + b == b;
    }
  }

  lemma ForwardSplit(s: string, lo: nat, mid: nat, hi: nat)
    requires lo <= mid <= hi <= |Table|
    ensures ApplyForward(s, Table[lo..hi]) == ApplyForward(ApplyForward(s, Table[lo..mid]), Table[mid..hi])
  {
    assert Table[lo..hi] == Table[lo..mid] + Table[mid..hi];
    ForwardAppend(s, Table[lo..mid], Table[mid..hi]);
  }

  lemma BackwardSplit(s: string, lo: nat, mid: nat, hi: nat)
    requires lo <= mid <= hi <= |Table|
    ensures ApplyBackward(s, Table[lo..hi]) == ApplyBackward(ApplyBackward(s, Table[mid..hi]), Table[lo..mid])
  {
    assert Table[lo..hi] == Table[lo..mid] + Table[mid..hi];
    BackwardAppend(s, Table[lo..mid], Table[mid..hi]);
  }

  /** `actorLog` is one trimmed line. */
  lemma ActorLogNormal()
    ensures NormalizeLines("actorLog") == "actorLog"
  {
    var w := "actorLog";
    assert forall i :: 0 <= i < |w| ==> w[i] != '\n';
    SplitSingle(w);
    assert IsTrimmed(w);
    TrimmedIsFixed(w);
    assert TrimmedNonBlank([w]) == [w];
  }

  lemma ActorReplaced()
    ensures ReplaceAll("actorLog", "actor", "~A") == "~ALog"
  {
    assert "actorLog"[..5] == "actor" && "actorLog"[5..] == "Log";
    assert ReplaceAll("Log", "actor", "~A") == "Log";
    assert "~A" + "Log" == "~ALog";
  }

  lemma AltExpanded()
    ensures ReplaceAll("~ALog", "~AL", "alt") == "altog"
  {
    assert "~ALog"[..3] == "~AL" && "~ALog"[3..] == "og";
    assert ReplaceAll("og", "~AL", "alt") == "og";
    assert "alt" + "og" == "altog";
  }

  lemma ActorLogMisses()
    ensures LongsMissing("actorLog", 0, 2)
  {
  }

  /** Long forms from `activate` to `loop` all lack a character of `~ALog`. */
  lemma ShortenedMissesBlocks()
    ensures LongsMissing("~ALog", 3, 9)
  {
  }

  /** Long forms from `alt` to `end` all lack a character of `~ALog`. */
  lemma ShortenedMissesBranches()
    ensures LongsMissing("~ALog", 9, 16)
  {
  }

  /** No arrow occurs in `~ALog`. */
  lemma ShortenedMissesArrows()
    ensures LongsMissing("~ALog", 16, 22)
  {
  }

  /** Short forms from `~EL` to `~EN` all lack a character of `~ALog`. */
  lemma ShortenedMissesBranchTokens()
    ensures ShortsMissing("~ALog", 10, 16)
  {
  }

  /** No arrow token occurs in `~ALog`. */
  lemma ShortenedMissesArrowTokens()
    ensures ShortsMissing("~ALog", 16, 22)
  {
  }

  /** No short form before `alt` occurs in `altog`, which holds no `~`. */
  lemma AltogMisses()
    ensures ShortsMissing("altog", 0, 9)
  {
  }

  /** Of the pairs before `alt`, only `actor` occurs in `actorLog`. */
  lemma ActorLogBeforeAlt()
    ensures ApplyForward("actorLog", Table[..9]) == "~ALog"
  {
    assert Table[..9] == Table[0..9];
    ForwardSplit("actorLog", 0, 2, 9);
    ForwardSplit("actorLog", 2, 3, 9);
    ActorLogMisses();
    ForwardUnchanged("actorLog", 0, 2);
    assert Table[2..3] == [("actor", "~A")];
    ActorReplaced();
    ShortenedMissesBlocks();
    ForwardUnchanged("~ALog", 3, 9);
  }

  /** No pair from `alt` on occurs in `~ALog`, so `actorLog` is shortened to `~ALog`. */
  lemma ActorLogCompressed()
    ensures ApplyForward("actorLog", Table) == "~ALog"
  {
    assert Table == Table[0..22] && Table[..9] == Table[0..9];
    ActorLogBeforeAlt();
    ForwardSplit("actorLog", 0, 9, 22);
    ForwardSplit("~ALog", 9, 16, 22);
    ShortenedMissesBranches();
    ForwardUnchanged("~ALog", 9, 16);
    ShortenedMissesArrows();
    ForwardUnchanged("~ALog", 16, 22);
  }

  /** No short form after `~AL` occurs in `~ALog`. */
  lemma ShortenedTailExpanded()
    ensures ApplyBackward("~ALog", Table[10..22]) == "~ALog"
  {
    BackwardSplit("~ALog", 10, 16, 22);
    ShortenedMissesArrowTokens();
    BackwardUnchanged("~ALog", 16, 22);
    ShortenedMissesBranchTokens();
    BackwardUnchanged("~ALog", 10, 16);
  }

  /** `~AL` becomes `alt`, and nothing before it occurs in the result. */
  lemma ShortenedHeadExpanded()
    ensures ApplyBackward("~ALog", Table[0..10]) == "altog"
  {
    BackwardSplit("~ALog", 0, 9, 10);
    assert Table[9..10] == [("alt", "~AL")];
    AltExpanded();
    AltogMisses();
    BackwardUnchanged("altog", 0, 9);
  }

  /** Expanding `~ALog` meets `~AL` (for `alt`) before `~A` (for `actor`). */
  lemma ActorLogExpanded()
    ensures ApplyBackward("~ALog", Table) == "altog"
  {
    assert Table == Table[0..22];
    BackwardSplit("~ALog", 0, 10, 22);
    ShortenedTailExpanded();
    ShortenedHeadExpanded();
  }

  /** When `alt` is tried, the shortened `actorLog` already holds its short form `~AL`. */
  lemma ActorLogCollides()
    ensures !NoCollision("actorLog", Table)
  {
    assert Table == Table[..9] + Table[9..];
    NoCollisionAppend("actorLog", Table[..9], Table[9..]);
    ActorLogBeforeAlt();
    assert Table[9..][0] == ("alt", "~AL");
    assert "~ALog"[0..3] == "~AL";
    ContainsAt("~ALog", "~AL", 0);
  }

  /**
   * The shortcut round trip fails without its premise: `actorLog` is
   * shortened to `~ALog`, which expands to `altog`.
   */
  lemma CollisionCounterexample()
    ensures !NoCollision(NormalizeLines("actorLog"), Table)
    ensures CompressCode("actorLog") == "~ALog"
    ensures DecompressCode(CompressCode("actorLog")) == "altog"
  {
    ActorLogNormal();
    ActorLogCompressed();
    ActorLogExpanded();
    ActorLogCollides();
  }
}
