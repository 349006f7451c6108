/** includes/helpers.php: the segment catalogue, the segment normaliser with
    its alias table, the per-segment CTA configuration with its fallback to
    the `default` segment, and two small sanitisers. Settings are passed in
    instead of being read from the options table. */
module Helpers {
  import opened Options
  import opened Strings
  import opened OrderedMap
  import Wp

  /** A stored cell `$settings['cta'][$key][$segment]`: an array whose
      `text` and `url` may be unset, or a value that is not an array. */
  datatype Cell = Entry(text: Option<string>, url: Option<string>) | NotArray

  /** The saved plugin settings, as `mp_get_settings` returns them. */
  datatype Settings = Settings(
    identityUrl: string,
    restUrl: string,
    clientId: string,
    clientSecret: string,
    segmentField: string,
    segments: seq<(string, string)>,            // slug => label
    segmentAlias: seq<(string, string)>,        // raw external value => slug
    cta: seq<(string, seq<(string, Cell)>)>,    // CTA key => segment => cell
    ctaKeys: seq<string>,                       // custom CTA keys
    ctaSelectors: seq<(string, seq<string>)>,   // CTA key => selectors
    ctaUpdateHref: seq<(string, bool)>)         // CTA key => update href

  const DefaultSegment: string := "default"

  /** `mp_get_segment_keys`: the configured segments, or just `default` when
      none are configured, with `default` appended when it is missing. */
  function SegmentKeys(s: Settings): (r: seq<(string, string)>)
    ensures DefaultSegment in Keys(r)
    ensures s.segments == [] ==> r == [(DefaultSegment, "Default")]
    ensures s.segments != [] && DefaultSegment in Keys(s.segments) ==> r == s.segments
    ensures s.segments != [] && DefaultSegment !in Keys(s.segments) ==>
              r == s.segments + [(DefaultSegment, "Default")]
  {
    var base := if s.segments == [] then [(DefaultSegment, "Default")] else s.segments;
    if DefaultSegment in Keys(base) then base
    else
      assert Keys(base + [(DefaultSegment, "Default")]) == Keys(base) + [DefaultSegment];
      base + [(DefaultSegment, "Default")]
  }

  /** `mp_get_cta_keys`: the saved CTA table's keys followed by the custom
      keys, each kept once at its first occurrence. */
  function CtaKeys(s: Settings): (r: seq<string>)
    ensures forall k :: k in r <==> k in Keys(s.cta) || k in s.ctaKeys
    ensures forall i, j :: 0 <= i < j < |r| ==> r[i] != r[j]
    ensures forall i, j :: 0 <= i < j < |r| ==>
              IndexOf(Keys(s.cta) + s.ctaKeys, r[i]) < IndexOf(Keys(s.cta) + s.ctaKeys, r[j])
  {
    Dedup(Keys(s.cta) + s.ctaKeys)
  }

  /** Lower-cased and trimmed, the first step of `mp_segment_to_key` and of
      its alias comparison. */
  function Fold(s: string): string {
    Lower(PhpTrim(s))
  }

  /** The characters a slug keeps as they are: neither whitespace nor one
      of the separators `-` and `_`. */
  predicate IsSlugText(c: char) {
    !IsPcreSpace(c) && c != '-' && c != '_'
  }

  /** Lines 86-92 of `mp_segment_to_key`: whitespace runs and hyphens become
      `_`, and the legacy spelling `publicsafety` is repaired. What else the
      slug keeps is stated by `SlugifyKeepsText`, `SlugifyCollapsesRuns`
      and `SlugifyPlain`. */
  function Slugify(t: string): (r: string)
    ensures forall i :: 0 <= i < |r| ==> !IsPcreSpace(r[i]) && r[i] != '-'
    ensures (forall i :: 0 <= i < |t| ==> !IsAsciiUpper(t[i])) ==>
              forall i :: 0 <= i < |r| ==> !IsAsciiUpper(r[i])
  {
    var a := ReplaceRuns(t, IsPcreSpace, '_');
    var b := ReplaceChar(a, '-', '_');
    if b == "publicsafety" then "public_safety" else b
  }

  /** Leaving the separators aside, the slug has the input's characters,
      in order. */
  lemma SlugifyKeepsText(t: string)
    ensures Filter(Slugify(t), IsSlugText) == Filter(t, IsSlugText)
  {
    var a := ReplaceRuns(t, IsPcreSpace, '_');
    var b := ReplaceChar(a, '-', '_');
    FilterReplaceRuns(t, IsPcreSpace, '_', IsSlugText);
    FilterReplaceChar(a, '-', '_', IsSlugText);
    if b == "publicsafety" {
      PublicSafetyLetters();
    }
  }

  /** Input with no whitespace and no `-` is its own slug, except that the
      legacy spelling `publicsafety` is repaired. */
  lemma SlugifyPlain(t: string)
    requires forall i :: 0 <= i < |t| ==> !IsPcreSpace(t[i]) && t[i] != '-'
    ensures Slugify(t) == if t == "publicsafety" then "public_safety" else t
  {
    ReplaceRunsNoop(t, IsPcreSpace, '_');
    assert '-' !in t;
    ReplaceCharAbsent(t, '-', '_');
  }

  /** `mp_segment_to_key` repairs the legacy spelling. */
  lemma SlugifyRepairsPublicSafety(t: string)
    requires t == "publicsafety"
    ensures Slugify(t) == "public_safety"
  {
    assert forall i :: 0 <= i < |t| ==> !IsPcreSpace(t[i]) && t[i] != '-';
    SlugifyPlain(t);
  }

  /** Without `-` or `_` in the input, no two `_` are adjacent in the slug:
      each whitespace run becomes exactly one `_`. */
  lemma SlugifyCollapsesRuns(t: string)
    requires '-' !in t && '_' !in t
    ensures NoDoubled(Slugify(t), '_')
  {
    var a := ReplaceRuns(t, IsPcreSpace, '_');
    ReplaceRunsAdds(t, IsPcreSpace, '_', '-');
    ReplaceCharAbsent(a, '-', '_');
    ReplaceRunsSingle(t, IsPcreSpace, '_');
    if a == "publicsafety" {
      PublicSafetySingle();
    }
  }

  /** `public_safety` and `publicsafety` differ only in the separator. */
  lemma PublicSafetyLetters()
    ensures Filter("public_safety", IsSlugText) == Filter("publicsafety", IsSlugText) == "publicsafety"
  {
    var p, q := "public", "safety";
    assert forall i :: 0 <= i < |p| ==> IsSlugText(p[i]);
    assert forall i :: 0 <= i < |q| ==> IsSlugText(q[i]);
    assert p + "_" + q == "public_safety";
    assert p + q == "publicsafety";
    SeparatorDropped(p, '_', q);
  }

  /** Filtering drops one separator between two runs of kept characters. */
  lemma SeparatorDropped(p: string, c: char, q: string)
    requires forall i :: 0 <= i < |p| ==> IsSlugText(p[i])
    requires forall i :: 0 <= i < |q| ==> IsSlugText(q[i])
    requires !IsSlugText(c)
    ensures Filter(p + [c] + q, IsSlugText) == Filter(p + q, IsSlugText) == p + q
  {
    FilterNoop(p, IsSlugText);
    FilterNoop(q, IsSlugText);
    var fc := Filter([c], IsSlugText);
    assert [c][1..] == [];
    assert fc == [];
    FilterAppend(p, [c], IsSlugText);
    assert Filter(p + [c], IsSlugText) == p;
    FilterAppend(p + [c], q, IsSlugText);
    FilterAppend(p, q, IsSlugText);
  }

  /** The repaired spelling has a single `_`. */
  lemma PublicSafetySingle()
    ensures NoDoubled("public_safety", '_')
  {
    var s := "public_safety";
    forall i | 0 <= i < |s| - 1 ensures s[i] != '_' || s[i + 1] != '_' {
      assert s[6] == '_' && s[5] != '_' && s[7] != '_';
    }
  }

  /** An alias `raw => slug` fires for `v` when its folded raw value is
      non-empty and equals `v` and its folded slug is non-empty. */
  predicate Fires(alias: (string, string), v: string) {
    Fold(alias.0) != "" && Fold(alias.0) == v && Fold(alias.1) != ""
  }

  /** The index of the first alias that fires for `v`, or -1. */
  function FirstFiring(aliases: seq<(string, string)>, v: string): (k: int)
    ensures -1 <= k < |aliases|
    ensures k >= 0 ==> Fires(aliases[k], v)
    ensures forall j :: 0 <= j < |aliases| && (k < 0 || j < k) ==> !Fires(aliases[j], v)
  {
    if aliases == [] then -1
    else if Fires(aliases[0], v) then 0
    else
      var k := FirstFiring(aliases[1..], v);
      assert forall j :: 1 <= j < |aliases| ==> aliases[j] == aliases[1..][j - 1];
      if k < 0 then -1 else k + 1
  }

  /** The folded slug of the first alias that fires for `v`. */
  function AliasTarget(aliases: seq<(string, string)>, v: string): (r: Option<string>)
    ensures r.None? <==> forall i :: 0 <= i < |aliases| ==> !Fires(aliases[i], v)
    ensures r.Some? ==> exists i :: 0 <= i < |aliases| && Fires(aliases[i], v) && r.value == Fold(aliases[i].1)
                          && forall j :: 0 <= j < i ==> !Fires(aliases[j], v)
  {
    var k := FirstFiring(aliases, v);
    if k < 0 then None else Some(Fold(aliases[k].1))
  }

  /** The first alias decides when it fires; otherwise the rest do. */
  lemma AliasTargetCons(aliases: seq<(string, string)>, v: string)
    requires aliases != []
    ensures AliasTarget(aliases, v) == if Fires(aliases[0], v) then Some(Fold(aliases[0].1)) else AliasTarget(aliases[1..], v)
  {
  }

  /** The candidate slug `mp_segment_to_key` checks against the catalogue:
      the slugified input, replaced by the first firing alias's target. */
  function Candidate(s: Settings, raw: string): string
    requires Fold(raw) != ""
  {
    var v := Slugify(Fold(raw));
    AliasTarget(s.segmentAlias, v).GetOr(v)
  }

  /** `mp_segment_to_key`: a known segment key for any input. */
  function SegmentToKey(s: Settings, raw: string): (r: string)
    ensures r in Keys(SegmentKeys(s))
    ensures Fold(raw) == "" ==> r == DefaultSegment
    ensures Fold(raw) != "" && Candidate(s, raw) in Keys(SegmentKeys(s)) ==> r == Candidate(s, raw)
    ensures Fold(raw) != "" && Candidate(s, raw) !in Keys(SegmentKeys(s)) ==> r == DefaultSegment
  {
    if Fold(raw) == "" then DefaultSegment
    else
      var w := Candidate(s, raw);
      if w in Keys(SegmentKeys(s)) then w else DefaultSegment
  }

  /** A slug character after folding and slugifying leaves it alone. */
  predicate IsPlainSlugChar(c: char) {
    !IsPhpTrimChar(c) && !IsPcreSpace(c) && c != '-' && !IsAsciiUpper(c)
  }

  /** A known key made of plain slug characters, other than the legacy
      `publicsafety` and not the source of a firing alias, maps to itself. */
  lemma CanonicalKeyIsFixed(s: Settings, k: string)
    requires k in Keys(SegmentKeys(s))
    requires k != "" && k != "publicsafety"
    requires forall i :: 0 <= i < |k| ==> IsPlainSlugChar(k[i])
    requires forall i :: 0 <= i < |s.segmentAlias| ==> !Fires(s.segmentAlias[i], k)
    ensures SegmentToKey(s, k) == k
  {
    PlainSlugIsFixed(k);
  }

  /** Folding and slugifying a string of plain slug characters is the identity. */
  lemma PlainSlugIsFixed(k: string)
    requires k != "publicsafety"
    requires forall i :: 0 <= i < |k| ==> IsPlainSlugChar(k[i])
    ensures Fold(k) == k
    ensures Slugify(k) == k
  {
    assert PhpTrim(k) == k by {
      TrimNoop(k, IsPhpTrimChar);
    }
    assert Lower(k) == k;
    assert ReplaceRuns(k, IsPcreSpace, '_') == k by {
      ReplaceRunsNoop(k, IsPcreSpace, '_');
    }
    assert ReplaceChar(k, '-', '_') == k;
  }

  /** The caution about aliases: the value compared against an alias key has
      had its whitespace and hyphens replaced, so an alias whose folded key
      contains whitespace or a hyphen never fires. */
  lemma {:induction false} SeparatorAliasNeverFires(aliases: seq<(string, string)>, raw: string)
    requires Fold(raw) != ""
    ensures forall i :: 0 <= i < |aliases| && HasSeparator(Fold(aliases[i].0)) ==>
              !Fires(aliases[i], Slugify(Fold(raw)))
  {
    var v := Slugify(Fold(raw));
    forall i | 0 <= i < |aliases| && HasSeparator(Fold(aliases[i].0))
      ensures !Fires(aliases[i], v)
    {
      var j :| 0 <= j < |Fold(aliases[i].0)| && (IsPcreSpace(Fold(aliases[i].0)[j]) || Fold(aliases[i].0)[j] == '-');
      assert Fold(aliases[i].0) != v by {
        if |Fold(aliases[i].0)| == |v| {
          assert !IsPcreSpace(v[j]) && v[j] != '-';
        }
      }
    }
  }

  predicate HasSeparator(t: string) {
    exists j :: 0 <= j < |t| && (IsPcreSpace(t[j]) || t[j] == '-')
  }

  /** Consequently, deleting such aliases from the table changes no lookup. */
  lemma {:induction false} SeparatorAliasesAreDead(aliases: seq<(string, string)>, raw: string)
    requires Fold(raw) != ""
    ensures AliasTarget(aliases, Slugify(Fold(raw)))
         == AliasTarget(WithoutSeparatorAliases(aliases), Slugify(Fold(raw)))
  {
    if aliases != [] {
      var v := Slugify(Fold(raw));
      var rest := WithoutSeparatorAliases(aliases[1..]);
      SeparatorAliasesAreDead(aliases[1..], raw);
      AliasTargetCons(aliases, v);
      if HasSeparator(Fold(aliases[0].0)) {
        SeparatorAliasNeverFires(aliases[..1], raw);
        assert WithoutSeparatorAliases(aliases) == rest;
      } else {
        assert WithoutSeparatorAliases(aliases) == [aliases[0]] + rest;
        assert ([aliases[0]] + rest)[1..] == rest;
        AliasTargetCons([aliases[0]] + rest, v);
      }
    }
  }

  /** An alias written as `Healthcare & Life Sciences => healthcare` does
      not map that value to `healthcare`: the alias key `Healthcare & Life Sciences` keeps its spaces, the
      looked-up value has them replaced, so the alias never fires and the
      visitor falls back to `default` instead of `healthcare`. */
  lemma HealthcareAliasExampleGivesDefault()
    ensures SegmentToKey(HealthcareExample(), "Healthcare & Life Sciences") == DefaultSegment
  {
    var raw := "Healthcare & Life Sciences";
    HealthcareExampleFacts();
    HealthcareFoldFacts(raw);
    UnmatchedAmpersandFallsBack(HealthcareExample(), raw);
  }

  lemma HealthcareFoldFacts(raw: string)
    requires raw == "Healthcare & Life Sciences"
    ensures '&' in Fold(raw) && HasSeparator(Fold(raw))
  {
    assert |raw| == 26 && raw[0] == 'H' && raw[25] == 's' && raw[10] == ' ' && raw[11] == '&';
    FoldKeeps(raw, 10);
    FoldKeeps(raw, 11);
    assert Fold(raw)[11] == '&';
  }

  lemma HealthcareExampleFacts()
    ensures HealthcareExample().segmentAlias == [("Healthcare & Life Sciences", "healthcare")]
    ensures forall k :: k in Keys(SegmentKeys(HealthcareExample())) ==> '&' !in k
  {
    var s := HealthcareExample();
    assert Keys(SegmentKeys(s)) == ["default", "healthcare"];
    assert forall k :: 0 <= k < |"healthcare"| ==> "healthcare"[k] != '&';
    assert forall k :: 0 <= k < |"default"| ==> "default"[k] != '&';
  }

  /** A value with an ampersand, where every alias key has a separator and no
      segment key has an ampersand, falls back to `default`. */
  lemma UnmatchedAmpersandFallsBack(s: Settings, raw: string)
    requires '&' in Fold(raw)
    requires forall i :: 0 <= i < |s.segmentAlias| ==> HasSeparator(Fold(s.segmentAlias[i].0))
    requires forall k :: k in Keys(SegmentKeys(s)) ==> '&' !in k
    ensures SegmentToKey(s, raw) == DefaultSegment
  {
    var b := Slugify(Fold(raw));
    ExampleSlugKeepsAmpersand(Fold(raw));
    SeparatorAliasNeverFires(s.segmentAlias, raw);
    assert Candidate(s, raw) == b;
  }

  /** Folding a string without strippable ends keeps its characters that
      are not upper-case letters where they are. */
  lemma FoldKeeps(raw: string, i: int)
    requires 0 <= i < |raw| && !IsAsciiUpper(raw[i])
    requires !IsPhpTrimChar(raw[0]) && !IsPhpTrimChar(raw[|raw| - 1])
    ensures |Fold(raw)| == |raw| && Fold(raw)[i] == raw[i]
  {
    assert PhpTrim(raw) == raw by {
      TrimNoop(raw, IsPhpTrimChar);
    }
  }

  /** An ampersand survives slugification. */
  lemma ExampleSlugKeepsAmpersand(f: string)
    requires '&' in f
    ensures '&' in Slugify(f)
  {
    ReplaceRunsKeeps(f, IsPcreSpace, '_', '&');
    var a := ReplaceRuns(f, IsPcreSpace, '_');
    var j :| 0 <= j < |a| && a[j] == '&';
    var b := ReplaceChar(a, '-', '_');
    assert b[j] == '&';
    NoAmpersandInLegacySpelling();
    assert Slugify(f) == b;
  }

  lemma NoAmpersandInLegacySpelling()
    ensures '&' !in "publicsafety"
  {
    var p := "publicsafety";
    assert forall k :: 0 <= k < |p| ==> p[k] != '&';
  }

  function HealthcareExample(): Settings {
    Settings("", "", "", "", "web_segment",
             [("default", "Default"), ("healthcare", "Healthcare")],
             [("Healthcare & Life Sciences", "healthcare")],
             [], [], [], [])
  }

  function WithoutSeparatorAliases(aliases: seq<(string, string)>): seq<(string, string)> {
    if aliases == [] then []
    else (if HasSeparator(Fold(aliases[0].0)) then [] else [aliases[0]])
         + WithoutSeparatorAliases(aliases[1..])
  }

  /** The `{text, url, selectors, update_href}` record `mp_get_cta_config`
      returns for one CTA key. */
  datatype CtaConfig = CtaConfig(text: string, url: string, selectors: seq<string>, updateHref: bool)

  /** `$cta[$key][$segment] ?? null`. */
  function CellAt(s: Settings, ctaKey: string, segKey: string): Option<Cell> {
    match Get(s.cta, ctaKey)
    case None => None
    case Some(row) => Get(row, segKey)
  }

  /** A cell the builder accepts without falling back: an array whose text
      and url are not both PHP-empty. */
  predicate Usable(c: Option<Cell>) {
    c.Some? && c.value.Entry? && !(Wp.EmptyOpt(c.value.text) && Wp.EmptyOpt(c.value.url))
  }

  /** The cell used when a segment's own cell is not usable: the `default`
      segment's cell, or an array with empty text and url when there is none. */
  function FallbackCell(s: Settings, ctaKey: string): Cell {
    CellAt(s, ctaKey, DefaultSegment).GetOr(Entry(Some(""), Some("")))
  }

  /** The sanitised text and url read from one cell; unset fields and
      non-array cells read as `""`. */
  function Render(c: Cell, wp: Wp.Library): (string, string) {
    ( if c.Entry? && c.text.Some? then wp.sanitizeText(c.text.value) else "",
      if c.Entry? && c.url.Some? then wp.escUrlRaw(c.url.value) else "" )
  }

  /** `update_href`: the stored flag when one is set, otherwise `false` for
      the modal-opening `help_choose` CTA and `true` for every other key. */
  function UpdateHref(s: Settings, ctaKey: string): (r: bool)
    ensures Get(s.ctaUpdateHref, ctaKey).Some? ==> r == Get(s.ctaUpdateHref, ctaKey).value
    ensures Get(s.ctaUpdateHref, ctaKey).None? ==> (r <==> ctaKey != "help_choose")
  {
    match Get(s.ctaUpdateHref, ctaKey)
    case Some(b) => b
    case None => ctaKey != "help_choose"
  }

  /** The stored selectors of one CTA key, trimmed, with PHP-empty ones
      dropped, numbered from zero: the corrected form of lines 129-132, the
      values `array_filter` keeps without the gaps in their indices. */
  function Selectors(s: Settings, ctaKey: string): (r: seq<string>)
    ensures forall i :: 0 <= i < |r| ==> !Wp.Empty(r[i]) && r[i] == PhpTrim(r[i])
    ensures Get(s.ctaSelectors, ctaKey).None? ==> r == []
    ensures Get(s.ctaSelectors, ctaKey).Some? ==>
              r == Values(SelectorsAsWritten(Get(s.ctaSelectors, ctaKey).value))
  {
    match Get(s.ctaSelectors, ctaKey)
    case None => []
    case Some(sels) =>
      CleanSelectorsRenumbers(sels, 0);
      CleanSelectors(sels)
  }

  /** `mp_get_cta_config`. */
  function CtaConfigFor(s: Settings, ctaKey: string, segment: string, wp: Wp.Library): (r: CtaConfig)
    ensures r.selectors == Selectors(s, ctaKey) && r.updateHref == UpdateHref(s, ctaKey)
  {
    var own := CellAt(s, ctaKey, SegmentToKey(s, segment));
    var cell := if Usable(own) then own.value else FallbackCell(s, ctaKey);
    var (text, url) := Render(cell, wp);
    CtaConfig(text, url, Selectors(s, ctaKey), UpdateHref(s, ctaKey))
  }

  /** The fallback is all or nothing: text and url come together from the
      segment's own cell when it is usable, from the `default` cell
      otherwise, and never one from each. */
  lemma CtaConfigNeverMerges(s: Settings, ctaKey: string, segment: string, wp: Wp.Library)
    ensures var r := CtaConfigFor(s, ctaKey, segment, wp);
            var own := CellAt(s, ctaKey, SegmentToKey(s, segment));
            && (Usable(own) ==> (r.text, r.url) == Render(own.value, wp))
            && (!Usable(own) ==> (r.text, r.url) == Render(FallbackCell(s, ctaKey), wp))
            && (!Usable(own) && CellAt(s, ctaKey, DefaultSegment).None? ==>
                  r.text == wp.sanitizeText("") && r.url == wp.escUrlRaw(""))
  {
  }

  /** A blank cell of the resolved segment takes the `default` cell's text
      and url. */
  lemma BlankCellFallsBack(s: Settings, ctaKey: string, segment: string, wp: Wp.Library, text: string, url: string)
    requires CellAt(s, ctaKey, SegmentToKey(s, segment)) == Some(Entry(Some(""), Some("")))
    requires CellAt(s, ctaKey, DefaultSegment) == Some(Entry(Some(text), Some(url)))
    ensures CtaConfigFor(s, ctaKey, segment, wp).text == wp.sanitizeText(text)
    ensures CtaConfigFor(s, ctaKey, segment, wp).url == wp.escUrlRaw(url)
  {
    CtaConfigNeverMerges(s, ctaKey, segment, wp);
  }

  /** A concrete fallback: `finance` has neither text nor url
      for `demo`, so both come from `default`. */
  lemma FinanceFallsBackToDefault(wp: Wp.Library)
    ensures var r := CtaConfigFor(FinanceExample(), "demo", "finance", wp);
            r.text == wp.sanitizeText("Request a demo") && r.url == wp.escUrlRaw("/demo") && r.updateHref
  {
    var s := FinanceExample();
    FinanceResolves(s);
    FinanceCells(s);
    BlankCellFallsBack(s, "demo", "finance", wp, "Request a demo", "/demo");
    assert Get(s.ctaUpdateHref, "demo").None?;
  }

  lemma FinanceResolves(s: Settings)
    requires s == FinanceExample()
    ensures SegmentToKey(s, "finance") == "finance"
  {
    assert Keys(s.segments) == ["default", "finance"];
    assert SegmentKeys(s) == s.segments;
    assert forall i :: 0 <= i < |"finance"| ==> IsPlainSlugChar("finance"[i]);
    CanonicalKeyIsFixed(s, "finance");
  }

  lemma FinanceCells(s: Settings)
    requires s == FinanceExample()
    ensures CellAt(s, "demo", "finance") == Some(Entry(Some(""), Some("")))
    ensures CellAt(s, "demo", DefaultSegment) == Some(Entry(Some("Request a demo"), Some("/demo")))
  {
    var row := s.cta[0].1;
    assert Get(s.cta, "demo") == Some(row);
    assert row[0].0 != DefaultSegment && row[1..][0].0 == DefaultSegment;
  }

  function FinanceExample(): Settings {
    Settings("", "", "", "", "web_segment",
             [("default", "Default"), ("finance", "Finance")], [],
             [("demo", [("finance", Entry(Some(""), Some(""))),
                        ("default", Entry(Some("Request a demo"), Some("/demo")))])],
             [], [], [])
  }

  /** `mp_get_all_cta_configs`: one configuration per CTA key, in key order. */
  function AllCtaConfigs(s: Settings, segment: string, wp: Wp.Library): (r: seq<(string, CtaConfig)>)
    ensures Keys(r) == CtaKeys(s)
    ensures DistinctKeys(r)
    ensures forall i :: 0 <= i < |r| ==> r[i].1 == CtaConfigFor(s, r[i].0, segment, wp)
  {
    var keys := CtaKeys(s);
    seq(|keys|, i requires 0 <= i < |keys| => (keys[i], CtaConfigFor(s, keys[i], segment, wp)))
  }

  /** `array_filter(array_map('trim', $selectors))` as PHP evaluates it: the
      kept selectors keep their original indices. */
  function SelectorsAsWritten(sels: seq<string>): (r: seq<(int, string)>)
    ensures forall i :: 0 <= i < |r| ==> !Wp.Empty(r[i].1)
    ensures forall i :: 0 <= i < |r| ==> 0 <= r[i].0 < |sels| && r[i].1 == TrimAll(sels)[r[i].0]
  {
    KeyedFrom(TrimAll(sels), 0)
  }

  /** Every selector that does not trim to a PHP-empty string is kept, under
      its original index. */
  lemma {:induction false} SelectorsAsWrittenKeeps(sels: seq<string>, j: int)
    requires 0 <= j < |sels| && !Wp.Empty(TrimAll(sels)[j])
    ensures (j, TrimAll(sels)[j]) in SelectorsAsWritten(sels)
  {
    KeyedFromKeepsIndex(TrimAll(sels), j);
  }

  /** `array_map('trim', $selectors)`. */
  function TrimAll(sels: seq<string>): (ts: seq<string>)
    ensures |ts| == |sels| && forall i :: 0 <= i < |sels| ==> ts[i] == PhpTrim(sels[i])
  {
    seq(|sels|, i requires 0 <= i < |sels| => PhpTrim(sels[i]))
  }

  /** `array_filter` of trimmed selectors whose first index is `from`. */
  function KeyedFrom(ts: seq<string>, from: int): (r: seq<(int, string)>)
    ensures forall i :: 0 <= i < |r| ==>
              && from <= r[i].0 < from + |ts| && r[i].1 == ts[r[i].0 - from] && !Wp.Empty(r[i].1)
  {
    if ts == [] then []
    else
      var rest := KeyedFrom(ts[1..], from + 1);
      assert forall i :: 0 <= i < |rest| ==> ts[1..][rest[i].0 - (from + 1)] == ts[rest[i].0 - from];
      if Wp.Empty(ts[0]) then rest else [(from, ts[0])] + rest
  }

  lemma {:induction false} KeyedFromKeepsIndex(ts: seq<string>, j: int)
    requires 0 <= j < |ts| && !Wp.Empty(ts[j])
    ensures (j, ts[j]) in KeyedFrom(ts, 0)
  {
    KeyedFromKeeps(ts, 0, j);
  }

  lemma {:induction false} KeyedFromKeeps(ts: seq<string>, from: int, j: int)
    requires 0 <= j < |ts| && !Wp.Empty(ts[j])
    ensures (from + j, ts[j]) in KeyedFrom(ts, from)
  {
    if j > 0 {
      assert ts[1..][j - 1] == ts[j];
      KeyedFromKeeps(ts[1..], from + 1, j - 1);
    }
  }

  /** `json_encode` writes a PHP array as a JSON array only when its keys
      are 0, 1, 2, ... in order; otherwise it writes an object. */
  predicate IsList<V>(a: seq<(int, V)>) {
    forall i :: 0 <= i < |a| ==> a[i].0 == i
  }

  /** The discrepancy: a dropped selector in front of a kept one leaves a
      gap in the indices, so the payload's `selectors` becomes a JSON object
      and the browser script, which only accepts an array, patches nothing. */
  lemma DroppedSelectorBreaksList()
    ensures SelectorsAsWritten(["0", ".hero-cta"]) == [(1, ".hero-cta")]
    ensures !IsList(SelectorsAsWritten(["0", ".hero-cta"]))
  {
    var a, b := "0", ".hero-cta";
    ZeroTrims();
    HeroCtaTrims();
    BlankThenKept(a, b);
    assert !IsList([(1, b)]) by {
      assert [(1, b)][0].0 != 0;
    }
  }

  lemma ZeroTrims()
    ensures PhpTrim("0") == "0"
  {
    TrimNoop("0", IsPhpTrimChar);
  }

  lemma HeroCtaTrims()
    ensures PhpTrim(".hero-cta") == ".hero-cta"
  {
    var s := ".hero-cta";
    assert s[0] == '.' && s[|s| - 1] == 'a';
    TrimNoop(s, IsPhpTrimChar);
  }

  /** A selector that trims to something PHP-empty, then one that is kept:
      only the second survives, under index 1. */
  lemma BlankThenKept(a: string, b: string)
    requires Wp.Empty(PhpTrim(a)) && PhpTrim(b) == b && !Wp.Empty(b)
    ensures SelectorsAsWritten([a, b]) == [(1, b)]
  {
    var ts := TrimAll([a, b]);
    assert ts == [PhpTrim(a), b];
    KeyedFromBlankThenKept(ts[0], b);
  }

  lemma KeyedFromBlankThenKept(x: string, b: string)
    requires Wp.Empty(x) && !Wp.Empty(b)
    ensures KeyedFrom([x, b], 0) == [(1, b)]
  {
    assert [x, b][1..] == [b];
    assert [b][1..] == [];
    assert KeyedFrom([b], 1) == [(1, b)] + KeyedFrom([], 2);
  }

  /** The selectors as evidently intended: the same values, renumbered from
      zero (`array_values`), so they always encode as a list. */
  function CleanSelectors(sels: seq<string>): (r: seq<string>)
    ensures forall i :: 0 <= i < |r| ==> !Wp.Empty(r[i]) && r[i] == PhpTrim(r[i])
    ensures |r| <= |sels|
  {
    if sels == [] then []
    else
      var t := PhpTrim(sels[0]);
      TrimIdempotent(sels[0]);
      (if Wp.Empty(t) then [] else [t]) + CleanSelectors(sels[1..])
  }

  /** The correction only renumbers: the values are those PHP keeps, in the
      same order, and the numbering is a list. */
  lemma {:induction false} CleanSelectorsRenumbers(sels: seq<string>, from: int)
    ensures Values(KeyedFrom(TrimAll(sels), from)) == CleanSelectors(sels)
  {
    if sels != [] {
      CleanSelectorsRenumbers(sels[1..], from + 1);
      var ts := TrimAll(sels);
      assert ts[1..] == TrimAll(sels[1..]);
      var t := PhpTrim(sels[0]);
      var head: seq<(int, string)> := if Wp.Empty(t) then [] else [(from, t)];
      assert KeyedFrom(ts, from) == head + KeyedFrom(ts[1..], from + 1);
      ValuesAppend(head, KeyedFrom(ts[1..], from + 1));
      assert Values(head) == if Wp.Empty(t) then [] else [t];
    }
  }

  function Values<V>(a: seq<(int, V)>): (r: seq<V>)
    ensures |r| == |a| && forall i :: 0 <= i < |a| ==> r[i] == a[i].1
  {
    seq(|a|, i requires 0 <= i < |a| => a[i].1)
  }

  lemma ValuesAppend<V>(a: seq<(int, V)>, b: seq<(int, V)>)
    ensures Values(a + b) == Values(a) + Values(b)
  {
  }

  lemma TrimIdempotent(s: string)
    ensures PhpTrim(PhpTrim(s)) == PhpTrim(s)
  {
    var t := PhpTrim(s);
    TrimNoop(t, IsPhpTrimChar);
  }

  /** `mp_normalize_url`: trimmed, then stripped of trailing slashes; a
      blank URL stays `""`. */
  function NormalizeUrl(u: string): (r: string)
    ensures r == "" || r[|r| - 1] != '/'
    ensures PhpTrim(u) == "" ==> r == ""
    ensures |r| <= |PhpTrim(u)| && r == PhpTrim(u)[..|r|]
    ensures forall i :: |r| <= i < |PhpTrim(u)| ==> PhpTrim(u)[i] == '/'
  {
    var t := PhpTrim(u);
    if t == "" then "" else TrimRight(t, IsSlash)
  }

  predicate IsSlash(c: char) { c == '/' }

  /** Normalising twice gives the first result unless that result ends in
      whitespace uncovered by the slash strip. */
  lemma NormalizeUrlIdempotent(u: string)
    requires var r := NormalizeUrl(u); r == "" || !IsPhpTrimChar(r[|r| - 1])
    ensures NormalizeUrl(NormalizeUrl(u)) == NormalizeUrl(u)
  {
    var r := NormalizeUrl(u);
    if r != "" {
      var t := PhpTrim(u);
      assert r == t[..|r|];
      assert !IsPhpTrimChar(r[0]) by {
        assert t != [] && !IsPhpTrimChar(t[0]);
      }
      TrimNoop(r, IsPhpTrimChar);
    }
  }

  /** It is not idempotent in general: `"a /"` becomes `"a "`, which in
      turn becomes `"a"`. */
  lemma NormalizeUrlNotIdempotent()
    ensures NormalizeUrl("a /") == "a "
    ensures NormalizeUrl(NormalizeUrl("a /")) == "a"
  {
    NormalizeUrlSlashAfterSpace();
    NormalizeUrlTrailingSpace();
  }

  lemma NormalizeUrlSlashAfterSpace()
    ensures NormalizeUrl("a /") == "a "
  {
    var u := "a /";
    TrimsToItself(u);
    SlashStripped(u);
  }

  lemma TrimsToItself(u: string)
    requires u == "a /"
    ensures PhpTrim(u) == u
  {
    assert u[0] == 'a' && u[2] == '/';
    TrimNoop(u, IsPhpTrimChar);
  }

  lemma SlashStripped(u: string)
    requires u == "a /"
    ensures TrimRight(u, IsSlash) == "a "
  {
    assert u[1] == ' ' && u[2] == '/';
    TrimRightAt(u, IsSlash, 2);
    assert u[..2] == "a ";
  }

  lemma NormalizeUrlTrailingSpace()
    ensures NormalizeUrl("a ") == "a"
  {
    var u := "a ";
    assert u[0] == 'a' && u[1] == ' ';
    TrimLeftAt(u, IsPhpTrimChar, 0);
    TrimRightAt(u, IsPhpTrimChar, 1);
    assert u[..1] == "a";
    assert PhpTrim(u) == "a";
    TrimRightAt("a", IsSlash, 1);
  }

  /** A PHP value as it reaches `mp_sanitize_segment`: a scalar, as its
      string form, or an array or object. */
  datatype PhpValue = Scalar(s: string) | NonScalar

  /** `mp_sanitize_segment`: false for a non-scalar or for a value that
      sanitises to `""`, the sanitised string otherwise. */
  function SanitizeSegment(v: PhpValue, wp: Wp.Library): (r: Option<string>)
    ensures r.None? <==> v.NonScalar? || wp.sanitizeText(v.s) == ""
    ensures r.Some? ==> r.value == wp.sanitizeText(v.s) && r.value != ""
  {
    if v.NonScalar? then None
    else
      var t := wp.sanitizeText(v.s);
      if t == "" then None else Some(t)
  }
}
