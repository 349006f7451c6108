/** includes/admin.php, `mp_sanitize_settings`: parses the settings form
    (line-based `slug|Label` segments, `Raw => slug` aliases, a CTA key list,
    per-key selector lists and flags) into the typed settings, and drops the
    cached access token. */
module Admin {
  import opened Options
  import opened Strings
  import opened OrderedMap
  import opened Helpers
  import Api
  import Wp

  /** One submitted CTA cell `cta[key][segment]`, whose fields may be missing. */
  datatype RawCell = RawCell(text: Option<string>, url: Option<string>)

  /** The submitted form; a missing field is `None`. */
  datatype SettingsInput = SettingsInput(
    identityUrl: Option<string>,
    restUrl: Option<string>,
    clientId: Option<string>,
    clientSecret: Option<string>,
    segmentField: Option<string>,
    segments: Option<string>,
    segmentAlias: Option<string>,
    ctaKeys: Option<string>,
    cta: seq<(string, seq<(string, RawCell)>)>,
    ctaSelectors: seq<(string, string)>,
    ctaUpdateHref: seq<(string, string)>)

  /** The saved settings and the token cache after saving. */
  datatype Saved = Saved(settings: Settings, cache: Api.TokenCache)

  const BuiltinCtaKeys: seq<string> := ["demo", "help_choose", "banner"]

  predicate IsLineBreak(c: char) { c == '\r' || c == '\n' }
  predicate IsPipe(c: char) { c == '|' }
  predicate IsComma(c: char) { c == ',' }
  predicate IsKeySeparator(c: char) { IsPcreSpace(c) || c == ',' }

  /** `[a-z0-9_]`, the characters a custom CTA key keeps. */
  predicate IsKeyChar(c: char) { IsAsciiLower(c) || IsDigit(c) || c == '_' }

  /** The characters a selector keeps: `[.#a-z0-9_\-\s\[\]="':>+~]`, letters
      of either case. */
  predicate IsSelectorChar(c: char) {
    IsAsciiLower(c) || IsAsciiUpper(c) || IsDigit(c) || IsPcreSpace(c)
    || c == '.' || c == '#' || c == '_' || c == '-' || c == '[' || c == ']' || c == '='
    || c == '"' || c == '\'' || c == ':' || c == '>' || c == '+' || c == '~'
  }

  /** `preg_split('/[\r\n]+/', $raw)`, or no lines at all for an empty field. */
  function Lines(raw: string): seq<string> {
    if raw == "" then [] else SplitRuns(raw, IsLineBreak)
  }

  /** Upper-cases ASCII letters only. */
  function UpperChar(c: char): char {
    if IsAsciiLower(c) then (c as int - 'a' as int + 'A' as int) as char else c
  }

  /** PHP's `ucwords` delimiters. */
  predicate IsWordDelimiter(c: char) {
    c == ' ' || c == '\t' || c == '\r' || c == '\n' || c == '\U{000C}' || c == '\U{000B}'
  }

  /** `ucwords`: the first character and every character after a delimiter
      upper-cased. */
  function UcWords(s: string): (r: string)
    ensures |r| == |s|
    ensures forall i :: 0 <= i < |s| ==> r[i] == UcWordsAt(s, i)
  {
    seq(|s|, i requires 0 <= i < |s| => UcWordsAt(s, i))
  }

  function UcWordsAt(s: string, i: nat): char
    requires i < |s|
  {
    if i == 0 || IsWordDelimiter(s[i - 1]) then UpperChar(s[i]) else s[i]
  }

  /** One line of the segments field: the slug and name it defines, or
      `None` when it is blank or its slug sanitises to `""`. A label after
      `|` is kept sanitised, except that `default` falls back to `Default`
      when it is PHP-empty; `LabelFromSlug` covers a line without one. */
  function SegmentLine(line: string, wp: Wp.Library): (r: Option<(string, string)>)
    ensures r.Some? <==> PhpTrim(line) != "" && wp.sanitizeTitle(Split(PhpTrim(line), IsPipe)[0]) != ""
    ensures r.Some? ==> r.value.0 == wp.sanitizeTitle(Split(PhpTrim(line), IsPipe)[0]) && r.value.1 != ""
    ensures var parts := Split(PhpTrim(line), IsPipe);
            r.Some? && |parts| > 1 && wp.sanitizeText(parts[1]) != "" ==>
              var given := wp.sanitizeText(parts[1]);
              r.value.1 == if r.value.0 == DefaultSegment && Wp.Empty(given) then "Default" else given
  {
    var t := PhpTrim(line);
    if t == "" then None
    else
      var parts := Split(t, IsPipe);
      var slug := wp.sanitizeTitle(parts[0]);
      var name := if |parts| > 1 then wp.sanitizeText(parts[1]) else "";
      if slug == "" then None
      else
        var name' := if name == "" then UcWords(ReplaceChar(slug, '_', ' ')) else name;
        if slug == DefaultSegment then Some((slug, if Wp.Empty(name') then "Default" else name'))
        else Some((slug, name'))
  }

  /** A line with a slug but no name is labelled with the slug's words. */
  lemma LabelFromSlug(line: string, wp: Wp.Library)
    requires SegmentLine(line, wp).Some?
    requires var parts := Split(PhpTrim(line), IsPipe);
             |parts| == 1 || wp.sanitizeText(parts[1]) == ""
    ensures var slug := SegmentLine(line, wp).value.0;
            var words := UcWords(ReplaceChar(slug, '_', ' '));
            SegmentLine(line, wp).value.1 == if slug == DefaultSegment && Wp.Empty(words) then "Default" else words
  {
  }

  /** One line of the aliases field: split at the first `=>`, both sides
      trimmed; `None` without `=>` or when either side ends up empty. */
  function AliasLine(line: string, wp: Wp.Library): (r: Option<(string, string)>)
    ensures var k := FindPair(line, '=', '>');
            r.Some? <==> k >= 0 && PhpTrim(line[..k]) != "" && wp.sanitizeTitle(PhpTrim(line[k + 2..])) != ""
    ensures r.Some? ==>
              var k := FindPair(line, '=', '>');
              r.value == (wp.sanitizeText(PhpTrim(line[..k])), wp.sanitizeTitle(PhpTrim(line[k + 2..])))
  {
    var k := FindPair(line, '=', '>');
    if k < 0 then None
    else
      var raw := PhpTrim(line[..k]);
      var slug := wp.sanitizeTitle(PhpTrim(line[k + 2..]));
      if raw == "" || slug == "" then None else Some((wp.sanitizeText(raw), slug))
  }

  /** Assigns the parsed pairs in line order, so a later line with the same
      key overwrites an earlier one in place. */
  function Collect(lines: seq<string>, parse: string -> Option<(string, string)>): (r: seq<(string, string)>)
    ensures DistinctKeys(r)
    ensures forall k :: k in Keys(r) <==> exists i :: 0 <= i < |lines| && Parsed(parse, lines[i], k)
  {
    if lines == [] then []
    else
      var init := Collect(lines[..|lines| - 1], parse);
      var last := lines[|lines| - 1];
      assert forall i :: 0 <= i < |lines| - 1 ==> lines[..|lines| - 1][i] == lines[i];
      match parse(last)
      case None => init
      case Some((k, v)) =>
        PutKeepsDistinct(init, k, v);
        Put(init, k, v)
  }

  predicate Parsed(parse: string -> Option<(string, string)>, line: string, k: string) {
    parse(line).Some? && parse(line).value.0 == k
  }

  lemma {:induction false} PutKeepsDistinct(m: seq<(string, string)>, k: string, v: string)
    requires DistinctKeys(m)
    ensures DistinctKeys(Put(m, k, v))
  {
    if m != [] && m[0].0 != k {
      PutKeepsDistinct(m[1..], k, v);
      assert k in Keys(m[1..]) ==> Keys(Put(m[1..], k, v)) == Keys(m[1..]);
      var rest := Put(m[1..], k, v);
      assert forall j :: 0 <= j < |rest| ==> rest[j].0 == Keys(rest)[j];
      assert m[0].0 !in Keys(m[1..]);
      assert m[0].0 !in Keys(rest);
    } else if m != [] {
      assert forall j :: 1 <= j < |m| ==> m[j].0 != k;
    }
  }

  /** The value of a key is the one on the last line that defines it. */
  lemma {:induction false} LastLineWins(lines: seq<string>, parse: string -> Option<(string, string)>, i: int)
    requires 0 <= i < |lines| && parse(lines[i]).Some?
    requires forall j :: i < j < |lines| ==> !Parsed(parse, lines[j], parse(lines[i]).value.0)
    ensures Get(Collect(lines, parse), parse(lines[i]).value.0) == Some(parse(lines[i]).value.1)
  {
    var init := lines[..|lines| - 1];
    var k := parse(lines[i]).value.0;
    if i == |lines| - 1 {
      PutGet(Collect(init, parse), k, parse(lines[i]).value.1, k);
    } else {
      assert init[i] == lines[i];
      assert forall j :: i < j < |init| ==> init[j] == lines[j];
      LastLineWins(init, parse, i);
      var last := lines[|lines| - 1];
      if parse(last).Some? {
        PutGet(Collect(init, parse), parse(last).value.0, parse(last).value.1, k);
      }
    }
  }

  function SegmentParser(wp: Wp.Library): string -> Option<(string, string)> {
    line => SegmentLine(line, wp)
  }

  function AliasParser(wp: Wp.Library): string -> Option<(string, string)> {
    line => AliasLine(line, wp)
  }

  /** The segments table: the parsed lines, with `default` appended when no
      line defined it. */
  function ParseSegments(raw: string, wp: Wp.Library): (r: seq<(string, string)>)
    ensures DefaultSegment in Keys(r)
    ensures DistinctKeys(r)
    ensures forall k :: k in Keys(r) <==>
              k == DefaultSegment || exists i :: 0 <= i < |Lines(raw)| && Parsed(SegmentParser(wp), Lines(raw)[i], k)
    ensures var parsed := Collect(Lines(raw), SegmentParser(wp));
            forall k :: k in Keys(parsed) ==> Get(r, k) == Get(parsed, k)
  {
    var parsed := Collect(Lines(raw), SegmentParser(wp));
    if DefaultSegment in Keys(parsed) then parsed
    else
      PutKeepsDistinct(parsed, DefaultSegment, "Default");
      assert forall k :: k in Keys(parsed) ==> Get(Put(parsed, DefaultSegment, "Default"), k) == Get(parsed, k) by {
        forall k | k in Keys(parsed) { PutGet(parsed, DefaultSegment, "Default", k); }
      }
      Put(parsed, DefaultSegment, "Default")
  }

  /** The alias table, raw external value to slug. */
  function ParseAliases(raw: string, wp: Wp.Library): (r: seq<(string, string)>)
    ensures DistinctKeys(r)
    ensures forall k :: k in Keys(r) <==> exists i :: 0 <= i < |Lines(raw)| && Parsed(AliasParser(wp), Lines(raw)[i], k)
  {
    Collect(Lines(raw), AliasParser(wp))
  }

  /** One piece of the custom CTA key list, lower-cased, trimmed and
      filtered; `None` when nothing is left or it names a built-in key. */
  function CustomKey(piece: string): (r: Option<string>)
    ensures var k := Filter(Lower(PhpTrim(piece)), IsKeyChar);
            r.Some? <==> k != "" && k !in BuiltinCtaKeys
    ensures r.Some? ==> r.value == Filter(Lower(PhpTrim(piece)), IsKeyChar)
    ensures r.Some? ==> forall i :: 0 <= i < |r.value| ==> IsKeyChar(r.value[i])
  {
    var k := Lower(PhpTrim(piece));
    if k == "" then None
    else
      var k' := Filter(k, IsKeyChar);
      if k' == "" || k' in BuiltinCtaKeys then None else Some(k')
  }

  /** The custom CTA keys, split on whitespace and commas, each kept once. */
  function CustomCtaKeys(raw: string): (r: seq<string>)
    ensures forall k :: k in r <==> exists p :: p in Pieces(raw) && CustomKey(p) == Some(k)
    ensures forall i, j :: 0 <= i < j < |r| ==> r[i] != r[j]
    ensures forall k :: k in r ==> k != "" && k !in BuiltinCtaKeys && forall i :: 0 <= i < |k| ==> IsKeyChar(k[i])
  {
    Dedup(KeysOf(Pieces(raw)))
  }

  /** The custom keys keep the order in which the pieces first produce
      them. */
  lemma CustomCtaKeysOrder(raw: string)
    ensures var r := CustomCtaKeys(raw);
            var keys := KeysOf(Pieces(raw));
            forall i, j :: 0 <= i < j < |r| ==> IndexOf(keys, r[i]) < IndexOf(keys, r[j])
  {
    var keys := KeysOf(Pieces(raw));
    assert CustomCtaKeys(raw) == Dedup(keys);
  }

  function Pieces(raw: string): seq<string> {
    if raw == "" then [] else SplitRuns(raw, IsKeySeparator)
  }

  function KeysOf(pieces: seq<string>): (r: seq<string>)
    ensures forall k :: k in r <==> exists p :: p in pieces && CustomKey(p) == Some(k)
  {
    if pieces == [] then []
    else
      var rest := KeysOf(pieces[1..]);
      assert forall p :: p in pieces <==> p == pieces[0] || p in pieces[1..];
      match CustomKey(pieces[0])
      case None => rest
      case Some(k) => [k] + rest
  }

  /** The keys come out in the order of their pieces: one key per piece
      that yields one, none for the others. */
  lemma {:induction false} KeysOfInOrder(a: seq<string>, b: seq<string>)
    ensures KeysOf(a + b) == KeysOf(a) + KeysOf(b)
  {
    if a == [] {
      assert a + b == b;
    } else {
      assert (a + b)[1..] == a[1..] + b;
      KeysOfInOrder(a[1..], b);
    }
  }

  lemma KeysOfOne(p: string)
    ensures KeysOf([p]) == if CustomKey(p).Some? then [CustomKey(p).value] else []
  {
    assert [p][1..] == [];
  }

  /** One selector list: split on commas, trimmed, filtered to selector
      characters, empty ones dropped. */
  function CleanSelectorList(raw: string): (r: seq<string>)
    ensures forall i :: 0 <= i < |r| ==> r[i] != "" && forall j :: 0 <= j < |r[i]| ==> IsSelectorChar(r[i][j])
    ensures forall x :: x in r <==> exists p :: p in SplitRuns(raw, IsComma) && SelectorOf(p) == Some(x)
  {
    SelectorsOf(SplitRuns(raw, IsComma))
  }

  /** What one comma-separated piece leaves once trimmed and filtered;
      `None` when that is nothing. */
  function SelectorOf(p: string): (r: Option<string>)
    ensures r.Some? <==> Filter(PhpTrim(p), IsSelectorChar) != ""
    ensures r.Some? ==> r.value == Filter(PhpTrim(p), IsSelectorChar)
  {
    var t := PhpTrim(p);
    var f := Filter(t, IsSelectorChar);
    if t == "" || f == "" then None else Some(f)
  }

  function SelectorsOf(parts: seq<string>): (r: seq<string>)
    ensures forall i :: 0 <= i < |r| ==> r[i] != "" && forall j :: 0 <= j < |r[i]| ==> IsSelectorChar(r[i][j])
    ensures forall x :: x in r <==> exists p :: p in parts && SelectorOf(p) == Some(x)
  {
    if parts == [] then []
    else
      var rest := SelectorsOf(parts[1..]);
      assert forall p :: p in parts <==> p == parts[0] || p in parts[1..];
      match SelectorOf(parts[0])
      case None => rest
      case Some(f) => [f] + rest
  }

  /** The selectors come out in the order of their pieces: one per piece
      that keeps something, none for the others. */
  lemma {:induction false} SelectorsOfInOrder(a: seq<string>, b: seq<string>)
    ensures SelectorsOf(a + b) == SelectorsOf(a) + SelectorsOf(b)
  {
    if a == [] {
      assert a + b == b;
    } else {
      assert (a + b)[1..] == a[1..] + b;
      SelectorsOfInOrder(a[1..], b);
    }
  }

  lemma SelectorsOfOne(p: string)
    ensures SelectorsOf([p]) == if SelectorOf(p).Some? then [SelectorOf(p).value] else []
  {
    assert [p][1..] == [];
  }

  /** The selector lists of the keys whose submitted list is not PHP-empty. */
  function SelectorTable(keys: seq<string>, input: seq<(string, string)>): (r: seq<(string, seq<string>)>)
    ensures forall k :: k in Keys(r) <==> k in keys && !Wp.EmptyOpt(Get(input, k))
    ensures forall i :: 0 <= i < |r| ==>
              Get(input, r[i].0).Some? && r[i].1 == CleanSelectorList(Get(input, r[i].0).value)
  {
    if keys == [] then []
    else
      var rest := SelectorTable(keys[1..], input);
      var v := Get(input, keys[0]);
      if Wp.EmptyOpt(v) then rest
      else
        ConsFacts((keys[0], CleanSelectorList(v.value)), rest);
        [(keys[0], CleanSelectorList(v.value))] + rest
  }

  /** `$raw_cta[$ctaKey][$seg]['text'] ?? ''`. */
  function SubmittedText(input: seq<(string, seq<(string, RawCell)>)>, ctaKey: string, seg: string): string {
    match Get(input, ctaKey)
    case None => ""
    case Some(row) =>
      match Get(row, seg)
      case None => ""
      case Some(cell) => cell.text.GetOr("")
  }

  /** `$raw_cta[$ctaKey][$seg]['url'] ?? ''`. */
  function SubmittedUrl(input: seq<(string, seq<(string, RawCell)>)>, ctaKey: string, seg: string): string {
    match Get(input, ctaKey)
    case None => ""
    case Some(row) =>
      match Get(row, seg)
      case None => ""
      case Some(cell) => cell.url.GetOr("")
  }

  /** The sanitised row of one CTA key: a cell for every segment key,
      holding the submitted text through `sanitize_text_field` and the
      submitted URL through `esc_url_raw`, each `''` when not submitted. */
  function CtaRow(ctaKey: string, segKeys: seq<string>, input: seq<(string, seq<(string, RawCell)>)>,
                  wp: Wp.Library): (r: seq<(string, Cell)>)
    ensures Keys(r) == segKeys
    ensures forall i :: 0 <= i < |r| ==>
              r[i].1 == Entry(Some(wp.sanitizeText(SubmittedText(input, ctaKey, segKeys[i]))),
                              Some(wp.escUrlRaw(SubmittedUrl(input, ctaKey, segKeys[i]))))
  {
    var row := Get(input, ctaKey).GetOr([]);
    seq(|segKeys|, i requires 0 <= i < |segKeys| =>
      var cell := Get(row, segKeys[i]);
      var text := if cell.Some? then cell.value.text.GetOr("") else "";
      var url := if cell.Some? then cell.value.url.GetOr("") else "";
      (segKeys[i], Entry(Some(wp.sanitizeText(text)), Some(wp.escUrlRaw(url)))))
  }

  /** The CTA table: one row per CTA key, in key order. */
  function CtaTable(keys: seq<string>, segKeys: seq<string>, input: seq<(string, seq<(string, RawCell)>)>,
                    wp: Wp.Library): (r: seq<(string, seq<(string, Cell)>)>)
    ensures Keys(r) == keys
    ensures forall i :: 0 <= i < |r| ==> Keys(r[i].1) == segKeys
    ensures forall i, j :: 0 <= i < |r| && 0 <= j < |r[i].1| ==>
              r[i].1[j].1 == Entry(Some(wp.sanitizeText(SubmittedText(input, r[i].0, r[i].1[j].0))),
                                   Some(wp.escUrlRaw(SubmittedUrl(input, r[i].0, r[i].1[j].0))))
  {
    seq(|keys|, i requires 0 <= i < |keys| => (keys[i], CtaRow(keys[i], segKeys, input, wp)))
  }

  /** Looking a CTA key and a segment key up in the saved table gives the
      submitted text and URL of that cell, sanitised. */
  lemma CtaTableCell(keys: seq<string>, segKeys: seq<string>, input: seq<(string, seq<(string, RawCell)>)>,
                     wp: Wp.Library, ctaKey: string, seg: string)
    requires ctaKey in keys && seg in segKeys
    ensures var row := Get(CtaTable(keys, segKeys, input, wp), ctaKey);
            && row.Some?
            && Get(row.value, seg) == Some(Entry(Some(wp.sanitizeText(SubmittedText(input, ctaKey, seg))),
                                                 Some(wp.escUrlRaw(SubmittedUrl(input, ctaKey, seg)))))
  {
    var t := CtaTable(keys, segKeys, input, wp);
    var row := Get(t, ctaKey);
    assert row.Some?;
    var i :| 0 <= i < |t| && t[i] == (ctaKey, row.value);
    var cell := Get(row.value, seg);
    assert seg in Keys(row.value);
    assert cell.Some?;
    var j :| 0 <= j < |row.value| && row.value[j] == (seg, cell.value);
  }

  /** The update-href flags: a key's flag is set iff its submitted value is
      not PHP-empty. */
  function FlagTable(keys: seq<string>, input: seq<(string, string)>): (r: seq<(string, bool)>)
    ensures Keys(r) == keys
    ensures forall i :: 0 <= i < |r| ==> (r[i].1 <==> !Wp.EmptyOpt(Get(input, r[i].0)))
  {
    seq(|keys|, i requires 0 <= i < |keys| => (keys[i], !Wp.EmptyOpt(Get(input, keys[i]))))
  }

  /** The segment field: sanitised, `web_segment` when missing or
      PHP-empty. */
  function SegmentFieldOf(input: Option<string>, wp: Wp.Library): (r: string)
    ensures !Wp.Empty(r)
    ensures Wp.Empty(wp.sanitizeText(input.GetOr("web_segment"))) ==> r == "web_segment"
    ensures !Wp.Empty(wp.sanitizeText(input.GetOr("web_segment"))) ==> r == wp.sanitizeText(input.GetOr("web_segment"))
  {
    var field := wp.sanitizeText(input.GetOr("web_segment"));
    if Wp.Empty(field) then "web_segment" else field
  }

  /** `mp_sanitize_settings`. */
  function SanitizeSettings(input: SettingsInput, wp: Wp.Library): (r: Saved)
    ensures r.cache == Api.EmptyCache
    ensures DefaultSegment in Keys(r.settings.segments)
    ensures !Wp.Empty(r.settings.segmentField)
    ensures Keys(r.settings.cta) == BuiltinCtaKeys + r.settings.ctaKeys
    ensures forall i :: 0 <= i < |r.settings.cta| ==> Keys(r.settings.cta[i].1) == Keys(r.settings.segments)
    ensures Keys(r.settings.ctaUpdateHref) == Keys(r.settings.cta)
    ensures forall i :: 0 <= i < |r.settings.ctaUpdateHref| ==>
              (r.settings.ctaUpdateHref[i].1 <==> !Wp.EmptyOpt(Get(input.ctaUpdateHref, r.settings.ctaUpdateHref[i].0)))
    ensures forall k :: k in Keys(r.settings.ctaSelectors) <==> k in Keys(r.settings.cta) && !Wp.EmptyOpt(Get(input.ctaSelectors, k))
    ensures r.settings.identityUrl == NormalizeUrl(input.identityUrl.GetOr(""))
    ensures r.settings.restUrl == NormalizeUrl(input.restUrl.GetOr(""))
    ensures r.settings.clientId == wp.sanitizeText(input.clientId.GetOr(""))
    ensures r.settings.clientSecret == wp.sanitizeText(input.clientSecret.GetOr(""))
    ensures r.settings.segmentField == SegmentFieldOf(input.segmentField, wp)
    ensures r.settings.segments == ParseSegments(input.segments.GetOr(""), wp)
    ensures r.settings.segmentAlias == ParseAliases(input.segmentAlias.GetOr(""), wp)
    ensures r.settings.ctaKeys == CustomCtaKeys(input.ctaKeys.GetOr(""))
    ensures r.settings.cta == CtaTable(Keys(r.settings.cta), Keys(r.settings.segments), input.cta, wp)
    ensures r.settings.ctaSelectors == SelectorTable(Keys(r.settings.cta), input.ctaSelectors)
    ensures r.settings.ctaUpdateHref == FlagTable(Keys(r.settings.cta), input.ctaUpdateHref)
  {
    var segments := ParseSegments(input.segments.GetOr(""), wp);
    var custom := CustomCtaKeys(input.ctaKeys.GetOr(""));
    Saved(Assemble(input, wp, segments, custom), Api.EmptyCache)
  }

  function Assemble(input: SettingsInput, wp: Wp.Library, segments: seq<(string, string)>, custom: seq<string>): (r: Settings)
    ensures r.segments == segments && r.ctaKeys == custom
    ensures !Wp.Empty(r.segmentField)
  {
    var keys := BuiltinCtaKeys + custom;
    Settings(
      NormalizeUrl(input.identityUrl.GetOr("")),
      NormalizeUrl(input.restUrl.GetOr("")),
      wp.sanitizeText(input.clientId.GetOr("")),
      wp.sanitizeText(input.clientSecret.GetOr("")),
      SegmentFieldOf(input.segmentField, wp),
      segments,
      ParseAliases(input.segmentAlias.GetOr(""), wp),
      CtaTable(keys, Keys(segments), input.cta, wp),
      custom,
      SelectorTable(keys, input.ctaSelectors),
      FlagTable(keys, input.ctaUpdateHref))
  }

  /** Without a `default` line the `default` segment is labelled `Default`;
      with one, it takes the label of the last such line. */
  lemma {:induction false} DefaultLabel(raw: string, wp: Wp.Library)
    ensures var lines := Lines(raw);
            (forall i :: 0 <= i < |lines| ==> !Parsed(SegmentParser(wp), lines[i], DefaultSegment)) ==>
              Get(ParseSegments(raw, wp), DefaultSegment) == Some("Default")
    ensures var lines := Lines(raw);
            forall i :: 0 <= i < |lines| && Parsed(SegmentParser(wp), lines[i], DefaultSegment)
                        && (forall j :: i < j < |lines| ==> !Parsed(SegmentParser(wp), lines[j], DefaultSegment)) ==>
              Get(ParseSegments(raw, wp), DefaultSegment) == Some(SegmentLine(lines[i], wp).value.1)
  {
    var lines := Lines(raw);
    var parsed := Collect(lines, SegmentParser(wp));
    if DefaultSegment !in Keys(parsed) {
      PutGet(parsed, DefaultSegment, "Default", DefaultSegment);
    }
    forall i | 0 <= i < |lines| && Parsed(SegmentParser(wp), lines[i], DefaultSegment)
               && (forall j :: i < j < |lines| ==> !Parsed(SegmentParser(wp), lines[j], DefaultSegment))
      ensures Get(ParseSegments(raw, wp), DefaultSegment) == Some(SegmentLine(lines[i], wp).value.1)
    {
      LastLineWins(lines, SegmentParser(wp), i);
    }
  }
}
