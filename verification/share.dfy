/**
 * Saving, sharing and loading a diagram (`lib/save-load.ts`): the colour
 * theme and its default, the minimal record a share link carries, the
 * defaults `parseFromUrl` fills back in, the validation of an imported
 * configuration file, and the name a new configuration gets.
 *
 * JSON text is not modelled character by character: serialisation and
 * parsing are parameters, and the lemmas that need them state the one
 * round trip they rely on as a precondition.
 */
module Share {
  import opened Wrappers
  import opened JsString
  import Shortcuts
  import UrlCodec
  import Participants
  import Messages

  datatype SyntaxMode = Mermaid | PlantUml

  /** The nine colours of a diagram theme. */
  datatype ColorTheme = ColorTheme(
    primary: string,
    secondary: string,
    background: string,
    text: string,
    actorBackground: string,
    actorText: string,
    lineColor: string,
    noteBackground: string,
    noteBorder: string)

  /** The "Cyber" theme every diagram starts with. */
  const DefaultTheme := ColorTheme(
    "#0ea5e9", "#a855f7", "#1e1e2e", "#e2e8f0", "#0ea5e9",
    "#ffffff", "#0ea5e9", "#1e1e2e", "#a855f7")

  /**
   * What the editor saves, shares and loads. The theme is optional: an
   * imported file may carry none.
   */
  datatype SaveData = SaveData(
    code: string,
    syntaxMode: SyntaxMode,
    colorTheme: Option<ColorTheme>,
    customTooltips: Messages.Tooltips,
    customParticipants: Participants.CustomParticipants)

  /**
   * The object a share link carries: the shortened code `c`, and the mode
   * `s`, theme `t`, tooltips `tt` and participant notes `p`, each present
   * only when it differs from what a reader would assume anyway.
   */
  datatype ShareRecord = ShareRecord(
    c: Option<string>,
    s: Option<SyntaxMode>,
    t: Option<ColorTheme>,
    tt: Option<Messages.Tooltips>,
    p: Option<Participants.CustomParticipants>)

  // ---------------------------------------------------------------------------
  // Share links
  // ---------------------------------------------------------------------------

  /** The colours in the key order `JSON.stringify` writes them. */
  function Colours(t: ColorTheme): seq<string> {
    [t.primary, t.secondary, t.background, t.text, t.actorBackground,
     t.actorText, t.lineColor, t.noteBackground, t.noteBorder]
  }

  /**
   * `isDefaultTheme`: a missing theme counts as the default one; a present
   * one is compared with the default colour by colour, in key order. That
   * comparison is equality of themes, so the check holds exactly when a
   * reader filling in the default would see it.
   */
  predicate IsDefaultTheme(theme: Option<ColorTheme>)
    ensures IsDefaultTheme(theme) <==> theme.None? || theme.value == DefaultTheme
    ensures IsDefaultTheme(theme) <==> theme.GetOr(DefaultTheme) == DefaultTheme
  {
    theme.None? || Colours(theme.value) == Colours(DefaultTheme)
  }

  /**
   * The record `generateShareUrl` serialises around the shortened code `c`.
   * It never carries a value the reader would restore anyway: no Mermaid
   * mode, no default theme, no empty map.
   */
  function MinimalFields(data: SaveData, c: string): (r: ShareRecord)
    ensures r.c == Some(c)
    ensures r.s != Some(Mermaid)
    ensures r.t.Some? ==> r.t.value != DefaultTheme
    ensures r.tt.Some? ==> |r.tt.value| > 0
    ensures r.p.Some? ==> |r.p.value| > 0
  {
    ShareRecord(
      Some(c),
      if data.syntaxMode.Mermaid? then None else Some(data.syntaxMode),
      if data.colorTheme.Some? && !IsDefaultTheme(data.colorTheme) then data.colorTheme else None,
      if |data.customTooltips| > 0 then Some(data.customTooltips) else None,
      if |data.customParticipants| > 0 then Some(data.customParticipants) else None)
  }

  /** The record of `generateShareUrl`, with the code shortened by `compressCode`. */
  function MinimalRecord(data: SaveData): ShareRecord {
    MinimalFields(data, Shortcuts.CompressCode(data.code))
  }

  /** What `parseFromUrl` builds from a parsed record: every missing field gets its default. */
  function RestoreRecord(r: ShareRecord): (d: SaveData)
    ensures d.colorTheme.Some?
  {
    SaveData(
      Shortcuts.DecompressCode(r.c.GetOr("")),
      r.s.GetOr(Mermaid),
      Some(r.t.GetOr(DefaultTheme)),
      r.tt.GetOr(map[]),
      r.p.GetOr(map[]))
  }

  /**
   * What a reader of a share link sees: the code with its lines trimmed and
   * blank lines dropped, and the default theme in place of a missing one.
   */
  function Shared(data: SaveData): SaveData {
    data.(code := Shortcuts.NormalizeLines(data.code),
          colorTheme := Some(data.colorTheme.GetOr(DefaultTheme)))
  }

  /**
   * Dropping the default fields loses nothing: restoring the minimal record
   * gives back the data, up to line normalisation of the code and the
   * default theme in place of a missing one.
   */
  lemma ShareRoundTrip(data: SaveData)
    requires Shortcuts.NoCollision(Shortcuts.NormalizeLines(data.code), Shortcuts.Table)
    ensures RestoreRecord(MinimalRecord(data)) == Shared(data)
  {
    Shortcuts.CodeRoundTrip(data.code);
  }

  /** The theme travels exactly when `isDefaultTheme` says it differs from the default. */
  lemma ThemeOmittedIff(data: SaveData, c: string)
    ensures MinimalFields(data, c).t == None <==> IsDefaultTheme(data.colorTheme)
    ensures MinimalFields(data, c).t.Some? ==> MinimalFields(data, c).t == data.colorTheme
  {
  }

  /** A link without a theme, or with the default one, restores the default theme. */
  lemma DefaultThemeRestored(data: SaveData)
    requires IsDefaultTheme(data.colorTheme)
    ensures RestoreRecord(MinimalRecord(data)).colorTheme == Some(DefaultTheme)
  {
  }

  /** The token of `generateShareUrl`, for a given codec and JSON serialiser. */
  function ShareTokenWith(data: SaveData, compress: string -> string, serialize: ShareRecord -> string): string {
    compress(serialize(MinimalRecord(data)))
  }

  /**
   * `generateShareUrl`: the page address (empty outside a browser) and the
   * token as the query parameter `d`.
   */
  function ShareUrl(base: string, data: SaveData, serialize: ShareRecord -> string): (r: string)
    ensures |r| >= |base| + 3 && r[..|base|] == base && r[|base|..|base| + 3] == "?d="
    ensures forall i :: |base| + 3 <= i < |r| ==> r[i] != '+' && r[i] != '/' && r[i] != '='
  {
    var t := ShareTokenWith(data, UrlCodec.CompressForUrl, serialize);
    QueryParts(base, t);
    base + "?d=" + t
  }

  /** The parts of `base?d=t`, and where the token's characters sit in it. */
  lemma QueryParts(base: string, t: string)
    ensures |base + "?d=" + t| == |base| + 3 + |t|
    ensures (base + "?d=" + t)[..|base|] == base && (base + "?d=" + t)[|base|..|base| + 3] == "?d="
    ensures forall i :: |base| + 3 <= i < |base| + 3 + |t| ==> (base + "?d=" + t)[i] == t[i - |base| - 3]
  {
  }

  /**
   * `parseFromUrl` for a given codec, on the value of the query parameter
   * `d`: no link without a non-empty `d`, and none when the decoded text
   * does not parse as a record.
   */
  function ParseFromUrlWith(d: Option<string>, decompress: string -> string, parse: string -> Option<ShareRecord>): (r: Option<SaveData>)
    ensures r.Some? ==> d.Some? && d.value != ""
    ensures r.Some? ==> r.value.colorTheme.Some?
  {
    if d.None? || d.value == "" then None
    else
      match parse(decompress(d.value))
      case None => None
      case Some(rec) => Some(RestoreRecord(rec))
  }

  /** `parseFromUrl` as written. */
  function ParseFromUrl(d: Option<string>, parse: string -> Option<ShareRecord>): (r: Option<SaveData>)
    ensures r.Some? ==> d.Some? && d.value != ""
    ensures r.Some? ==> r.value.colorTheme.Some?
  {
    ParseFromUrlWith(d, UrlCodec.DecompressFromUrl, parse)
  }

  /**
   * With the corrected codec a share link restores what its author shared,
   * provided the JSON text of the record parses back to it and starts with
   * `{` (as an object's text does).
   */
  lemma ShareLinkRoundTrip(data: SaveData, serialize: ShareRecord -> string, parse: string -> Option<ShareRecord>)
    requires Shortcuts.NoCollision(Shortcuts.NormalizeLines(data.code), Shortcuts.Table)
    requires parse(serialize(MinimalRecord(data))) == Some(MinimalRecord(data))
    requires |serialize(MinimalRecord(data))| > 0 && serialize(MinimalRecord(data))[0] == '{'
    requires |serialize(MinimalRecord(data))| + 257 <= 0x20_0000
    ensures ParseFromUrlWith(Some(ShareTokenWith(data, UrlCodec.CompressForUrlFixed, serialize)),
                             UrlCodec.DecompressFromUrlFixed, parse) == Some(Shared(data))
  {
    var json := serialize(MinimalRecord(data));
    var token := UrlCodec.CompressForUrlFixed(json);
    UrlCodec.FixedRoundTrip(json);
    if token == "" {
      UrlCodec.EmptyFixed();
      assert false;
    }
    ShareRoundTrip(data);
  }

  // ---------------------------------------------------------------------------
  // Configuration files
  // ---------------------------------------------------------------------------

  /** The object `exportToJson` writes. */
  datatype DiagramConfig = DiagramConfig(
    version: string,
    name: string,
    createdAt: string,
    updatedAt: string,
    syntaxMode: SyntaxMode,
    code: string,
    colorTheme: Option<ColorTheme>,
    customTooltips: Messages.Tooltips,
    customParticipants: Participants.CustomParticipants)

  /** The fields `importFromJson` reads from a parsed file, each possibly missing. */
  datatype ParsedConfig = ParsedConfig(
    code: Option<string>,
    syntaxMode: Option<SyntaxMode>,
    colorTheme: Option<ColorTheme>,
    customTooltips: Option<Messages.Tooltips>,
    customParticipants: Option<Participants.CustomParticipants>)

  /** The fields of a written configuration as a parser reads them back. */
  function AsParsed(c: DiagramConfig): ParsedConfig {
    ParsedConfig(Some(c.code), Some(c.syntaxMode), c.colorTheme, Some(c.customTooltips), Some(c.customParticipants))
  }

  /**
   * `exportToJson`'s record: a custom name unless it is missing or empty,
   * version `1.0`, and the clock's time as both timestamps.
   */
  function ExportConfig(data: SaveData, customName: Option<string>, now: string, today: string): (c: DiagramConfig)
    ensures c.name != "" || customName.None? || customName.value == ""
  {
    DiagramConfig(
      "1.0",
      if customName.Some? && customName.value != "" then customName.value else GenerateConfigName(data.code, today),
      now, now,
      data.syntaxMode, data.code, data.colorTheme, data.customTooltips, data.customParticipants)
  }

  /**
   * `importFromJson` on the text of the file. Text that does not parse, and
   * a file whose code is missing or empty, are rejected with the same
   * message; missing optional fields get their defaults.
   */
  function ImportFromJson(text: string, parse: string -> Option<ParsedConfig>): (r: Result<SaveData>)
    ensures r.Err? ==> r.msg == "Invalid JSON file"
    ensures r.Ok? ==> parse(text).Some? && r.value.code != "" && parse(text).value.code == Some(r.value.code)
    ensures r.Ok? ==> r.value.colorTheme == parse(text).value.colorTheme
    ensures parse(text).Some? && parse(text).value.code.Some? && parse(text).value.code.value != "" ==> r.Ok?
    ensures r.Ok? ==> r.value.syntaxMode == parse(text).value.syntaxMode.GetOr(Mermaid)
    ensures r.Ok? ==> r.value.customTooltips == parse(text).value.customTooltips.GetOr(map[])
                      && r.value.customParticipants == parse(text).value.customParticipants.GetOr(map[])
  {
    match parse(text)
    case None => Err("Invalid JSON file")
    case Some(config) =>
      if config.code.None? || config.code.value == "" then Err("Invalid JSON file")
      else Ok(SaveData(
        config.code.value,
        config.syntaxMode.GetOr(Mermaid),
        config.colorTheme,
        config.customTooltips.GetOr(map[]),
        config.customParticipants.GetOr(map[])))
  }

  /**
   * Importing an exported file gives the saved data back exactly, unless its
   * code is empty, in which case the import is refused.
   */
  lemma ImportExport(data: SaveData, customName: Option<string>, now: string, today: string,
                     text: string, parse: string -> Option<ParsedConfig>)
    requires parse(text) == Some(AsParsed(ExportConfig(data, customName, now, today)))
    ensures data.code == "" ==> ImportFromJson(text, parse) == Err("Invalid JSON file")
    ensures data.code != "" ==> ImportFromJson(text, parse) == Ok(data)
  {
  }

  /** The class `[a-zA-Z0-9]`. */
  predicate IsAlphanumeric(c: char) {
    ('a' <= c <= 'z') || ('A' <= c <= 'Z') || ('0' <= c <= '9')
  }

  /**
   * The download name of an exported file: every character outside
   * `[a-zA-Z0-9]` becomes `-`, letters are lower-cased, `.json` follows.
   */
  function DownloadName(name: string): (r: string)
    ensures |r| == |name| + 5 && r[|name|..] == ".json"
    ensures forall i :: 0 <= i < |name| ==> ('a' <= r[i] <= 'z') || ('0' <= r[i] <= '9') || r[i] == '-'
    ensures forall i :: 0 <= i < |name| ==> (r[i] == '-' <==> !IsAlphanumeric(name[i]))
  {
    FileStem(name) + ".json"
  }

  /** The download name without its extension. */
  function FileStem(name: string): (r: string)
    ensures |r| == |name|
    ensures forall i :: 0 <= i < |name| ==> r[i] == (if IsAlphanumeric(name[i]) then LowerChar(name[i]) else '-')
  {
    if |name| == 0 then "" else
      [if IsAlphanumeric(name[0]) then LowerChar(name[0]) else '-'] + FileStem(name[1..])
  }

  /** Naming a file after an already sanitised name changes nothing. */
  lemma FileStemIdempotent(name: string)
    ensures FileStem(FileStem(name)) == FileStem(name)
  {
    var r := FileStem(name);
    assert forall i :: 0 <= i < |r| ==> FileStem(r)[i] == r[i] by {
      forall i | 0 <= i < |r| ensures FileStem(r)[i] == r[i] {
        if IsAlphanumeric(name[i]) {
          assert IsAlphanumeric(r[i]);
        }
      }
    }
  }

  // ---------------------------------------------------------------------------
  // The default configuration name
  // ---------------------------------------------------------------------------

  /**
   * `/participant\s+(\w+)/` matches at `i` of `t` with `n` characters of
   * white space and the capture `w`: the greedy `\w+` takes the whole word.
   */
  predicate DeclaresAt(t: string, i: nat, n: nat, w: string) {
    && i + 11 + n + |w| <= |t|
    && t[i..i + 11] == "participant"
    && n > 0 && AllWhitespace(t[i + 11..i + 11 + n])
    && |w| > 0 && AllWordChars(w) && t[i + 11 + n..i + 11 + n + |w|] == w
    && (i + 11 + n + |w| == |t| || !IsWordChar(t[i + 11 + n + |w|]))
  }

  /**
   * The capture of `/participant\s+(\w+)/` when the match starts at `i`.
   * The greedy `\s+` takes the whole white-space run; giving any back leaves
   * white space where `\w` is needed, so there is no other way to match.
   */
  function ParticipantAt(t: string, i: nat): (r: Option<string>)
    requires i <= |t|
    ensures r.Some? ==> i + 11 <= |t| && DeclaresAt(t, i, ScanWhile(t, i + 11, IsWhitespace) - (i + 11), r.value)
  {
    if i + 11 <= |t| && t[i..i + 11] == "participant" then
      var j := ScanWhile(t, i + 11, IsWhitespace);
      if j > i + 11 && j < |t| && IsWordChar(t[j]) then
        var k := ScanWhile(t, j, IsWordChar);
        assert AllWhitespace(t[i + 11..j]);
        assert AllWordChars(t[j..k]);
        Some(t[j..k])
      else None
    else None
  }

  /** Every way the pattern matches at `i` yields the capture `ParticipantAt` reports. */
  lemma DeclaresAtCapture(t: string, i: nat, n: nat, w: string)
    requires DeclaresAt(t, i, n, w)
    ensures ParticipantAt(t, i) == Some(w)
  {
    var j := i + 11 + n;
    forall x | i + 11 <= x < j ensures IsWhitespace(t[x]) {
      assert t[x] == t[i + 11..j][x - (i + 11)];
    }
    assert t[j] == w[0];
    ScanWhileAt(t, i + 11, j, IsWhitespace);
    forall x | j <= x < j + |w| ensures IsWordChar(t[x]) {
      assert t[x] == w[x - j];
    }
    ScanWhileAt(t, j, j + |w|, IsWordChar);
  }

  /** The leftmost match of `/participant\s+(\w+)/` from `i` on: its start and capture. */
  function FirstParticipant(t: string, i: nat): (r: Option<(nat, string)>)
    requires i <= |t|
    ensures r.Some? ==> i <= r.value.0 <= |t| && ParticipantAt(t, r.value.0) == Some(r.value.1)
    ensures r.Some? ==> forall k :: i <= k < r.value.0 ==> ParticipantAt(t, k).None?
    ensures r.None? ==> forall k :: i <= k <= |t| ==> ParticipantAt(t, k).None?
    decreases |t| - i
  {
    match ParticipantAt(t, i)
    case Some(w) => Some((i, w))
    case None => if i == |t| then None else FirstParticipant(t, i + 1)
  }

  /** Any match of the pattern means the search finds one, no later than it. */
  lemma FirstParticipantComplete(t: string, i: nat, n: nat, w: string)
    requires DeclaresAt(t, i, n, w)
    ensures FirstParticipant(t, 0).Some? && FirstParticipant(t, 0).value.0 <= i
  {
    DeclaresAtCapture(t, i, n, w);
  }

  /**
   * The name one line gives a diagram: after a leading `title`, the rest of
   * the trimmed line, trimmed; otherwise `Diagram - ` and the first
   * declared participant's word, if any.
   */
  function LineName(line: string): Option<string> {
    var trimmed := Trim(line);
    if StartsWith(trimmed, "title") then Some(Trim(trimmed[5..]))
    else
      match FirstParticipant(trimmed, 0)
      case Some((_, w)) => Some("Diagram - " + w)
      case None => None
  }

  /** Some line of `lines` gives the name `name`. */
  predicate NamedBy(lines: seq<string>, name: string) {
    exists i :: 0 <= i < |lines| && LineName(lines[i]) == Some(name)
  }

  /** The first name a line gives, else `Diagram - ` and the date. */
  function NameFromLines(lines: seq<string>, today: string): (r: string)
    ensures r == "Diagram - " + today || NamedBy(lines, r)
  {
    if |lines| == 0 then "Diagram - " + today
    else
      match LineName(lines[0])
      case Some(name) => name
      case None => NameFromLines(lines[1..], today)
  }

  /**
   * `generateConfigName`, with the locale date of today as a parameter: the
   * name is the date's or the one some line of the code gives.
   */
  function GenerateConfigName(code: string, today: string): (r: string)
    ensures r == "Diagram - " + today || NamedBy(Split(code), r)
  {
    var lines := Split(code);
    NameFromLines(lines, today)
  }

  /** The name comes from the first line that gives one. */
  lemma {:induction false} NameIsFirst(lines: seq<string>, today: string, i: nat)
    requires i < |lines| && LineName(lines[i]).Some?
    requires forall k :: 0 <= k < i ==> LineName(lines[k]).None?
    ensures NameFromLines(lines, today) == LineName(lines[i]).value
  {
    if i > 0 {
      NameIsFirst(lines[1..], today, i - 1);
    }
  }

  /** With no line naming the diagram, the name is the date's. */
  lemma {:induction false} NameDefault(lines: seq<string>, today: string)
    requires forall k :: 0 <= k < |lines| ==> LineName(lines[k]).None?
    ensures NameFromLines(lines, today) == "Diagram - " + today
  {
    if |lines| > 0 {
      NameDefault(lines[1..], today);
    }
  }

  /** `title` and a trimmed text names the diagram after the text. */
  lemma TitleLine(x: string)
    requires |x| > 0 && IsTrimmed(x)
    ensures LineName("title " + x) == Some(x)
  {
    var line := "title " + x;
    assert line[|line| - 1] == x[|x| - 1];
    TrimmedIsFixed(line);
    assert line[..5] == "title";
    var rest := line[5..];
    assert rest == " " + x;
    assert rest[1..] == x;
    assert WsRun(rest) == 1;
    assert WsRunEnd(x) == 0;
    assert Trim(line) == line;
    assert StartsWith(line, "title");
    assert Trim(rest) == x;
  }

  /** `participant` and a word names the diagram after the participant. */
  lemma ParticipantLine(x: string)
    requires |x| > 0 && AllWordChars(x)
    ensures LineName("participant " + x) == Some("Diagram - " + x)
  {
    var line := "participant " + x;
    assert IsWordChar(line[|line| - 1]) by {
      assert line[|line| - 1] == x[|x| - 1];
    }
    TrimmedIsFixed(line);
    assert line[..5] != "title";
    assert line[11..12] == " ";
    assert line[12..12 + |x|] == x;
    DeclaresAtCapture(line, 0, 1, x);
  }

  /** A one-line diagram is named by its line, or by the date. */
  lemma SingleLineName(line: string, today: string)
    requires '\n' !in line
    ensures GenerateConfigName(line, today) == LineName(line).GetOr("Diagram - " + today)
  {
    SplitSingle(line);
    assert GenerateConfigName(line, today) == NameFromLines([line], today);
    assert [line][1..] == [];
    assert NameFromLines([], today) == "Diagram - " + today;
    assert [line][0] == line;
  }
}
