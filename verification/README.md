# Marketo personalization, modelled in Dafny

This project models the core of a WordPress plugin that personalises a site
from a visitor's Marketo segment. The server side (PHP) works in five steps:

- It resolves the visitor's segment. A segment cookie is used when present.
  Otherwise the Marketo tracking cookie is looked up in Marketo's REST API
  through a cached OAuth access token.
- It normalises the raw segment value to one of the configured segment keys.
- It builds, for each CTA ("call to action"), the text, URL, selectors and
  `update_href` flag for that segment. An empty cell falls back to the
  `default` segment.
- It sanitises the settings the administrator saves.
- It renders the `[mp_dynamic]` shortcode as a placeholder element.

The browser side (JavaScript) applies that personalisation to the page:

- It rewrites CTA labels and links.
- It fills shortcode placeholders.
- It shows exactly the dynamic-content blocks of the visitor's segment.

The editor block stores one content object per segment and saves one `div`
per segment.

The model is functional. Each PHP or JS function becomes a Dafny function
over immutable data. PHP arrays and JS objects become ordered association
lists (`OrderedMap`). A PHP array assignment to an existing key keeps that
key's position.

The WordPress environment is passed in as parameters:

- The sanitisers and escapers (`sanitize_text_field`, `sanitize_title`,
  `esc_url_raw`, `esc_attr`, `esc_html`) are the uninterpreted functions of
  a `Wp.Library` value.
- HTTP answers are explicit `Http` values.
- The transient store is an explicit cache with expiry times, read against
  an explicit `now`.
- Cookies are explicit inputs. Cookie writes are returned as values.
- The DOM is a finite map from node ids to nodes. `querySelectorAll` is an
  oracle that may fail, as a JS exception does.

Modules:

- `Options`, `OrderedMap`, `Strings` and `Wp` hold the shared vocabulary:
  - PHP `trim`, `explode`, `preg_split` and `preg_replace` on runs;
  - PHP `empty()`;
  - JS truthiness.
- `Helpers` models `includes/helpers.php`.
- `Api` models `includes/api.php`.
- `Rest` models `includes/rest.php`.
- `Admin` models the settings sanitiser in `includes/admin.php`.
- `Shortcodes` models `includes/shortcodes.php`.
- `Frontend` models `assets/frontend.js`.
- `DynamicContent` models the block in `blocks/dynamic-content/save.js` and
  `edit.js`.

Two behaviours of the code that a reader might not expect; the model
follows the code in both:

- **`mp_normalize_url` is not idempotent.** It trims whitespace before it
  strips trailing slashes. So `"a /"` becomes `"a "`, and normalising that
  again gives `"a"`. `Helpers.NormalizeUrlNotIdempotent` proves this.
  `Helpers.NormalizeUrlIdempotent` proves idempotence in the case where the
  result does not end in a trimmable character.
- **An alias whose left-hand side contains whitespace never fires.** An
  alias such as `Healthcare & Life Sciences => healthcare` is compared after
  its left-hand side is lower-cased. The visitor value is compared after it
  is lower-cased and its whitespace and dashes are turned into `_`. So such
  an alias never matches (`Helpers.SeparatorAliasesAreDead`), and the value
  `Healthcare & Life Sciences` falls back to `default`
  (`Helpers.HealthcareAliasExampleGivesDefault`).

## Model

| member | source | states |
|---|---|---|
| Strings.TrimLeftAt | includes/helpers.php:170 | left-trimming removes exactly the longest prefix of stripped characters, so the result starts at the first kept character |
| Strings.TrimRightAt | includes/helpers.php:171 | right-trimming removes exactly the longest suffix of stripped characters |
| Strings.ReplaceRunsKeeps | includes/helpers.php:87-91 | replacing separator runs keeps every character that is not a separator |
| Strings.SplitFirst | includes/admin.php:216-217 | `explode` cuts at the first separator: the first piece is the text before it, and the pieces of the rest follow |
| Helpers.SegmentKeys | includes/helpers.php:43-59 | the configured segments are used when non-empty, otherwise only `default => Default`; `default` is always a key and is appended when missing |
| Helpers.CtaKeys | includes/helpers.php:64-73 | the CTA keys are exactly the configured CTA table keys plus the custom keys, with no duplicates, each key at the place of its first occurrence in that concatenation |
| Helpers.Slugify | includes/helpers.php:86-92 | the slug has no whitespace and no `-`, and no upper-case letter when its input has none |
| Helpers.SlugifyKeepsText | includes/helpers.php:86-87 | leaving whitespace, `-` and `_` aside, the slug has exactly the input's characters, in order |
| Helpers.SlugifyCollapsesRuns | includes/helpers.php:86 | for input with no `-` and no `_`, no two `_` are adjacent in the slug: each whitespace run becomes a single `_` |
| Helpers.SlugifyPlain | includes/helpers.php:86-92 | input with no whitespace and no `-` is its own slug, except that `publicsafety` becomes `public_safety` |
| Helpers.SlugifyRepairsPublicSafety | includes/helpers.php:90-92 | the legacy spelling `publicsafety` becomes `public_safety` |
| Helpers.AliasTarget | includes/helpers.php:94-105 | no alias target exactly when no alias fires on the slug; otherwise the lower-cased target of a firing alias |
| Helpers.AliasTargetCons | includes/helpers.php:94-105 | aliases are tried in order and the first one that fires wins |
| Helpers.SegmentToKey | includes/helpers.php:78-113 | the result is always a configured segment key; an empty raw value gives `default`; otherwise the aliased or slugged candidate when it is a key, else `default` |
| Helpers.CanonicalKeyIsFixed | includes/helpers.php:78-113 | a configured key made of lower-case letters, digits and `_` maps to itself when no alias fires on it |
| Helpers.PlainSlugIsFixed | includes/helpers.php:86-92 | lower-casing and slugging leave such a key unchanged |
| Helpers.SeparatorAliasesAreDead | includes/helpers.php:94-105 | an alias whose left-hand side contains whitespace or a dash never fires, so removing all such aliases changes no alias lookup |
| Helpers.HealthcareAliasExampleGivesDefault | includes/helpers.php:78-113 | with only the alias `Healthcare & Life Sciences => healthcare`, that value resolves to `default` |
| Helpers.UnmatchedAmpersandFallsBack | includes/helpers.php:107-112 | a value with `&` falls back to `default` when no key contains `&` and every alias has a separator |
| Helpers.UpdateHref | includes/helpers.php:134-140 | a stored flag wins; when none is stored, every CTA except `help_choose` updates `href` |
| Helpers.Selectors | includes/helpers.php:129-132 | no selectors when none are stored for the CTA; otherwise the values of the filtered list, re-indexed as a list (the corrected form), each trimmed and non-empty |
| Helpers.CtaConfigFor | includes/helpers.php:118-148 | a CTA's config carries that CTA's re-indexed selector list and its `update_href` flag |
| Helpers.CtaConfigNeverMerges | includes/helpers.php:121-144 | text and URL come together from one cell, the segment's when usable, else the default's, never one from each; with no default cell both are the sanitised empty string |
| Helpers.BlankCellFallsBack | includes/helpers.php:124-127 | a segment cell with empty text and URL takes both from the `default` cell, escaped |
| Helpers.FinanceFallsBackToDefault | includes/helpers.php:118-148 | in a concrete setting, the empty `finance` cell of `demo` delivers the default text and URL |
| Helpers.AllCtaConfigs | includes/helpers.php:153-163 | one entry per CTA key, in key order, each the config of that key for the segment |
| Helpers.DroppedSelectorBreaksList | includes/helpers.php:129-132 | as written, `["0", ".hero-cta"]` filters to `{1: ".hero-cta"}`, which is not a list |
| Helpers.CleanSelectorsRenumbers | includes/helpers.php:129-132 | re-indexing the filtered selectors gives exactly the kept selectors, in order |
| Helpers.CleanSelectors | includes/helpers.php:129-132 | the corrected selector list holds only trimmed, non-empty selectors and is no longer than the input |
| Helpers.SelectorsAsWritten | includes/helpers.php:129-132 | as written, each kept selector is the trimmed selector at its original index, and is not PHP-empty |
| Helpers.SelectorsAsWrittenKeeps | includes/helpers.php:129-132 | every selector that does not trim to a PHP-empty string is kept under its original index |
| Helpers.TrimIdempotent | includes/helpers.php:170 | trimming twice is trimming once |
| Helpers.NormalizeUrl | includes/helpers.php:168-177 | the result is a prefix of the trimmed input, everything cut off is `/`, it is empty for a blank input, and it does not end in `/` |
| Helpers.NormalizeUrlIdempotent | includes/helpers.php:168-177 | normalising twice equals normalising once when the result does not end in a trimmable character |
| Helpers.NormalizeUrlNotIdempotent | includes/helpers.php:168-177 | `"a /"` normalises to `"a "`, which normalises to `"a"` |
| Helpers.SanitizeSegment | includes/helpers.php:214-227 | no segment for a non-scalar value or an empty sanitised value; otherwise the non-empty sanitised text |
| Api.MarketoSettingsOf | includes/api.php:8-27 | a filter that changes nothing drops out: with the legacy filter inert the result is the new filter applied to the normalised settings, with the new filter inert it is the legacy filter applied to them, and with neither hooked it is the normalised settings |
| Api.SettingsSeeOnlyNormalised | includes/api.php:12-26 | saved settings that normalise alike give the same connection settings, whatever the filters do |
| Api.Normalised | includes/api.php:12-18 | before filtering, both URLs are those of `mp_normalize_url`, the credentials are kept, and the lead field is the saved one when that is not PHP-empty, else `web_segment` |
| Api.UnfilteredSettings | includes/api.php:8-27 | with both filters the identity, the URLs are normalised and do not end in `/`, and the lead field is never empty |
| Api.ReadTransient | includes/api.php:34-40 | a transient is read as its stored value while now is before its expiry time, and as nothing from then on or when absent |
| Api.CachedToken | includes/api.php:34-40 | a cached token is never empty; a non-empty primary transient is used first; an empty primary falls back to the legacy transient; with both empty there is no token |
| Api.Ttl | includes/api.php:78-81 | the lifetime is one hour when `expires_in` is missing or zero, otherwise its absolute value less 60 seconds, and never below 60 |
| Api.GetAccessToken | includes/api.php:32-84 | a cached token makes no request; without client credentials nothing is requested; otherwise exactly one token request; a 200 answer with a non-empty `access_token` returns it and stores it in both transients for the computed lifetime; a failure leaves the cache alone |
| Api.FetchedTokenIsReused | includes/api.php:78-81 | a freshly fetched token is served from the cache for at least the next 60 seconds without a request |
| Api.RestBase | includes/api.php:112-115 | the REST base always ends in `/rest`, which is appended only when missing |
| Api.RestBaseIdempotent | includes/api.php:112-115 | computing the REST base of a REST base changes nothing |
| Api.ExtractSegment | includes/api.php:166-177 | no segment from a failed, unsuccessful or empty answer, or when the field is empty; otherwise the sanitised value of the field as the filters return it |
| Api.SegmentField | includes/api.php:107 | the lead field asked for is never empty |
| Api.FetchFromMarketo | includes/api.php:89-178 | a blank cookie or REST URL makes no request; past those guards the cache is exactly what the token step leaves; with a token, a 200 primary lookup gives the segment extracted from its body, and a failed primary with a 200 legacy lookup gives the segment extracted from the legacy body |
| Api.LookupsAppend | includes/api.php:119-164 | the lead lookups of a request log are those of its parts, in order |
| Api.LookupsOfTokenRequests | includes/api.php:32-84 | obtaining a token performs no lead lookup |
| Api.RetryPolicy | includes/api.php:141-164 | with a token, the legacy lookup is tried only when the primary lookup did not answer 200 (a 200 with no segment is not retried), so at most two lookups happen |
| Api.NoTokenNoLookup | includes/api.php:91-105 | without a token no lead lookup is made and no segment is found |
| Rest.SegmentCookie | includes/helpers.php:182-209 | the written cookie holds the sanitised segment for one day, `HttpOnly`, `Secure` on SSL, `SameSite=Lax` |
| Rest.UsableSegmentCookie | includes/rest.php:29-34 | the cookie is used exactly when it is not PHP-empty, is a scalar and sanitises to a non-empty string, and then its sanitised value is used |
| Rest.GetSegment | includes/rest.php:27-51 | the segment is always a configured key; a cookie is written exactly when Marketo was asked; a usable segment cookie is normalised without a request; no tracking cookie gives `default` |
| Rest.FetchPath | includes/rest.php:40-50 | with a tracking cookie and no segment cookie, the fetched value (or `default`) is normalised and stored in the cookie |
| Rest.FailedFetchGivesDefault | includes/rest.php:40-50 | when no alias fires on `default`, a failed lookup stores and returns `default` |
| Rest.GetPersonalization | includes/rest.php:56-65 | the response's segment is the resolved one, or `Default` when that is PHP-empty; its CTA table is every CTA's config for that segment, and the cookie the resolver wrote is passed on |
| Rest.GetSegmentFromMarketo | includes/rest.php:27-50 | the resolution is the resolver's with the lead lookup as its fetch; when the lookup runs, the tracking cookie is set and the cache and requests are exactly those of that lookup for it; otherwise the cache is unchanged and no request is made |
| Rest.SegmentCookieMeansNoRequest | includes/rest.php:29-34 | a usable segment cookie makes no HTTP request and writes no cookie |
| Rest.AnonymousVisitorGetsDefault | includes/rest.php:36-38 | a visitor without cookies gets `default` with no request and no cookie |
| Rest.ServerErrorFallsBack | includes/api.php:141-164 | when both lookups answer 500, the visitor gets the key that `default` normalises to (an alias may rewrite it), and the cookie records that key |
| Admin.UcWords | includes/admin.php:225 | each letter that starts a word is upper-cased and nothing else changes |
| Admin.SegmentLine | includes/admin.php:210-235 | a line yields a segment exactly when its trimmed slug part sanitises to a non-empty slug; the label is never empty, and a label given after the separator is kept sanitised, except that `default` with a PHP-empty label is named `Default` |
| Admin.LabelFromSlug | includes/admin.php:224-230 | a line without a label gets its slug with underscores turned into spaces and words capitalised, and `Default` when that is empty for the `default` line |
| Admin.AliasLine | includes/admin.php:245-261 | a line yields an alias exactly when it has `=>`, its trimmed left side is non-empty and its trimmed right side sanitises to a non-empty slug; the alias is the sanitised left side and that slug |
| Admin.Collect | includes/admin.php:210-235 | the parsed table has distinct keys, and a key is present exactly when some line parses to it |
| Admin.PutKeepsDistinct | includes/admin.php:228-234 | assigning a key keeps the table's keys distinct |
| Admin.LastLineWins | includes/admin.php:228-234 | a key's value comes from the last line that defines it |
| Admin.ParseSegments | includes/admin.php:204-243 | the saved segments have distinct keys; a key is present exactly when it is `default` or some line parses to it; every parsed key keeps its parsed label |
| Admin.DefaultLabel | includes/admin.php:228-241 | `default` keeps the label of the last line defining it, and gets `Default` when no line does |
| Admin.ParseAliases | includes/admin.php:245-261 | the saved aliases have distinct left sides, exactly those of the parsable lines |
| Admin.CustomKey | includes/admin.php:266-286 | a piece yields a key exactly when its trimmed, lower-cased and filtered form is non-empty and not built in, and the key is that form |
| Admin.CustomCtaKeys | includes/admin.php:266-286 | custom keys are exactly the valid pieces of the input, with no duplicates |
| Admin.CustomCtaKeysOrder | includes/admin.php:270-285 | `array_unique` keeps the first occurrence, so the keys come in the order the pieces first produce them |
| Admin.KeysOf | includes/admin.php:270-282 | a key is produced exactly when some piece yields it |
| Admin.KeysOfInOrder | includes/admin.php:270-282 | the keys of joined piece lists are the keys of each list, in order |
| Admin.KeysOfOne | includes/admin.php:270-282 | one piece yields its key, or nothing |
| Admin.CleanSelectorList | includes/admin.php:302-319 | the saved selectors are exactly the non-empty trimmed and filtered comma-separated pieces, each using only allowed selector characters |
| Admin.SelectorOf | includes/admin.php:308-316 | a piece yields a selector exactly when its trimmed and filtered form is non-empty, and the selector is that form |
| Admin.SelectorsOf | includes/admin.php:305-318 | a selector is saved exactly when some piece yields it |
| Admin.SelectorsOfInOrder | includes/admin.php:305-318 | the selectors of joined piece lists are those of each list, in order |
| Admin.SelectorsOfOne | includes/admin.php:305-318 | one piece yields its selector, or nothing |
| Admin.SelectorTable | includes/admin.php:302-319 | a selector row is saved exactly for the CTA keys whose input is not empty |
| Admin.CtaRow | includes/admin.php:292-299 | one cell per segment key, holding the submitted text through `sanitize_text_field` and the submitted URL through `esc_url_raw`, each `''` when not submitted |
| Admin.CtaTable | includes/admin.php:288-300 | every CTA key gets a row holding exactly the configured segment keys, each cell the sanitised submitted text and URL of that key and segment |
| Admin.CtaTableCell | includes/admin.php:290-299 | looking a CTA key and a segment key up in the saved table gives that cell's sanitised submitted text and URL |
| Admin.FlagTable | includes/admin.php:321 | every CTA key gets a flag, true exactly when its checkbox input is not empty |
| Admin.SegmentFieldOf | includes/admin.php:182-198 | the lead field is the sanitised input when that is not PHP-empty, and `web_segment` otherwise |
| Admin.SanitizeSettings | includes/admin.php:178-325 | saving clears the token cache; the URLs are normalised, the credentials sanitised; the segment field, segments, aliases and custom keys are those of their parsers; the CTA, selector and flag tables cover the built-in and custom keys and follow their inputs |
| Frontend.NormalizeSegmentValue | assets/frontend.js:15-25 | a missing or empty value gives `default`; the result uses only lower-case letters, digits and `_`, since dashes become `_` |
| Frontend.NormalizeSegmentValueIdempotent | assets/frontend.js:15-25 | normalising a non-empty normalised value changes nothing |
| Frontend.SegmentCharsAreFixed | assets/frontend.js:15-25 | a non-empty value of segment characters is its own normal form |
| Frontend.HasAnyAttribute | assets/frontend.js:27-36 | true exactly when the element has one of the named attributes |
| Frontend.IsProbablyModalTrigger | assets/frontend.js:27-36 | an element is a modal trigger exactly when it has one of the five popup or toggle attributes |
| Frontend.FindCtaLabel | assets/frontend.js:38-52 | the label is the Kadence inner-text span, else the first `a span`, else the first `a`, else the element itself |
| Frontend.FindCtaLink | assets/frontend.js:54-60 | the link is the element itself when it is an anchor, and its first anchor otherwise |
| Frontend.SetText | assets/frontend.js:70-75 | setting a label's text changes only that node's text |
| Frontend.SetAttribute | assets/frontend.js:77-88 | setting an attribute changes only that node's attributes |
| Frontend.SetAttributeGet | assets/frontend.js:77-88 | the set attribute reads back and every other attribute is unchanged |
| Frontend.ModalUnaffected | assets/frontend.js:27-36 | setting a non-modal attribute does not change whether an element is a modal trigger |
| Frontend.UpdateLinkFacts | assets/frontend.js:77-88 | the link is marked with `data-mp-href`, and `href` is rewritten only when allowed and the link is not a modal trigger |
| Frontend.ApplyToElement | assets/frontend.js:69-89 | applying a CTA to one element writes only the element, its label and its CTA link, never changes a tag or a class, and with neither text nor URL changes nothing |
| Frontend.ApplyToElementLocal | assets/frontend.js:69-89 | what applying a CTA writes to a node depends only on that node and the matched element's tag |
| Frontend.ApplyToElementLabel | assets/frontend.js:70-75 | with a text, the label node shows that text |
| Frontend.ApplyToElementMarks | assets/frontend.js:77-88 | with a URL, the element is marked with `data-mp-href` set to that URL |
| Frontend.ApplyToElementLink | assets/frontend.js:77-88 | with a URL, the CTA link (the element itself when it is an `<a>`, else its first anchor) gets `data-mp-href`, and its `href` is rewritten only when the update flag is on and it is not a modal trigger |
| Frontend.ApplyMatches | assets/frontend.js:69-89 | applying to all matches changes only matched elements, their labels and links, and never tags or classes |
| Frontend.ApplyCta | assets/frontend.js:62-90 | a falsy config changes nothing; a selector error is reported exactly when the config is truthy and the query throws; tags and classes never change; nodes no match touches are unchanged; with neither text nor URL the page is unchanged |
| Frontend.NothingToApply | assets/frontend.js:62-90 | with neither text nor URL, no match changes |
| Frontend.ApplyMatchesOnly | assets/frontend.js:69-89 | a node that only one matched element touches ends up as applying the CTA to that element alone makes it |
| Frontend.ResolveUpdateHref | assets/frontend.js:99-104 | `update_href` wins over `updateHref`, and a missing flag means true |
| Frontend.ApplySelectors | assets/frontend.js:106-108 | no selectors or a falsy config leave the page unchanged with no error; with a query that never throws no error is reported; tags and classes never change |
| Frontend.ApplySelectorsInOrder | assets/frontend.js:106-108 | the selectors are applied one after the other, each on the page the previous ones left, and an error stops the run |
| Frontend.ApplyOneSelector | assets/frontend.js:106-108 | one selector applies the CTA to what it matches, or reports the error |
| Frontend.ApplyEntries | assets/frontend.js:95-109 | no entries leave the page unchanged; with a query that never throws no error is reported; tags and classes never change |
| Frontend.ApplyEntriesInOrder | assets/frontend.js:95-109 | the CTA entries are applied one after the other, each on the page the previous ones left, and an error stops the run |
| Frontend.ApplyOneEntry | assets/frontend.js:96-108 | one entry runs that CTA's selectors with its resolved update flag, and a falsy entry runs none |
| Frontend.ApplyAllCtas | assets/frontend.js:92-110 | a non-object CTA table leaves the page unchanged; with a query that never throws no error is reported; tags and classes never change |
| Frontend.NonArraySelectorsSkipped | assets/frontend.js:97 | CTAs whose selectors are not an array change nothing |
| Frontend.ConfigJsonReadBack | includes/helpers.php:142-147 | the browser reads back the server's text, URL, re-indexed selector list and flag unchanged |
| Frontend.NonListSelectorsIgnored | assets/frontend.js:97 | a PHP array that is not a list encodes as a JSON object, which the browser does not treat as selectors |
| Frontend.DroppedSelectorSkipsCta | assets/frontend.js:97 | as written, `["0", ".hero-cta"]` leaves the CTA with no selectors in the browser |
| Frontend.GetFromCtasByKey | assets/frontend.js:112-120 | a value is found only for a key of exactly two dot-separated parts, and it is truthy |
| Frontend.KeyFindsServerField | assets/frontend.js:112-120 | `group.field` finds that field of the group's server config |
| Frontend.FillPlaceholder | assets/frontend.js:122-141 | filling a placeholder changes only that node |
| Frontend.FillPlaceholderEffect | assets/frontend.js:122-141 | a found value becomes the `href` of a URL key or the text otherwise; with none, the node is left unchanged |
| Frontend.ApplyShortcodePlaceholders | assets/frontend.js:122-141 | only placeholder nodes change |
| Frontend.PlaceholdersFilledIndependently | assets/frontend.js:122-141 | each listed placeholder ends up as filling it alone on the original page makes it |
| Frontend.ShowOne | assets/frontend.js:143-158 | a block is active exactly when its segment matches the visitor's, and nothing else about it changes |
| Frontend.ApplySegmentDisplay | assets/frontend.js:143-158 | exactly the blocks of the visitor's normalised segment are active, and other nodes are unchanged |
| Frontend.BlockShownForItsSegment | assets/frontend.js:143-158 | a block is shown for its own segment key and hidden for every other key |
| Shortcodes.PlaceholderFor | includes/shortcodes.php:12-29 | no placeholder exactly when the trimmed key is empty; otherwise the trimmed key, the `default` text, and a valid tag name |
| Shortcodes.TagName | includes/shortcodes.php:24-27 | the tag is a non-empty tag name, and a valid requested tag is kept |
| Shortcodes.MpShortcodeDynamic | includes/shortcodes.php:12-38 | an empty key renders nothing; otherwise the element is the escaped filtered tag with class `mp-dynamic`, `data-mp-key` the escaped trimmed key, `data-mp-default` the escaped default, and the HTML-escaped default as its body |
| Shortcodes.RenderIsStable | includes/shortcodes.php:12-38 | rendering again from a placeholder's own key, default and tag prints the same element |
| Shortcodes.PlaceholderIsStable | includes/shortcodes.php:19-29 | re-rendering from a placeholder's own attributes gives the same placeholder |
| Shortcodes.ThreeAttributes | includes/shortcodes.php:13-17 | the key, default and tag attributes are read back from the attribute list |
| DynamicContent.ClassTokens | blocks/dynamic-content/save.js:14-20 | every block gets `mp-seg` and `mp-<segment>`, and `is-active` exactly for `default` |
| DynamicContent.HeadingPart | blocks/dynamic-content/save.js:26-40 | a heading is saved exactly when the headline is set |
| DynamicContent.ParagraphPart | blocks/dynamic-content/save.js:26-40 | a paragraph is saved exactly when the body is set |
| DynamicContent.ButtonPart | blocks/dynamic-content/save.js:26-40 | a button is saved exactly when its text is set, and links to the button URL or `#` |
| DynamicContent.ChildrenShape | blocks/dynamic-content/save.js:26-40 | a heading, paragraph or button is present exactly when its field is set, and the button links to the button URL or `#` |
| DynamicContent.Save | blocks/dynamic-content/save.js:4-44 | a `div.mp-dynamic` wrapper holding one `div` per stored segment, in order, tagged with its segment |
| DynamicContent.SavedActiveIsDefault | blocks/dynamic-content/save.js:14-24 | a saved block starts active exactly when it is the `default` block |
| DynamicContent.Segments | blocks/dynamic-content/edit.js:9-14 | the editor's segments are the first non-empty list of the two globals, else `default` only |
| DynamicContent.DefaultContent | blocks/dynamic-content/edit.js:16-19 | every segment key starts with an empty object |
| DynamicContent.NormalizeContent | blocks/dynamic-content/edit.js:21-30 | the content has exactly the segment keys, each a copy of the stored object or `{}` |
| DynamicContent.AssignGet | blocks/dynamic-content/edit.js:36 | after `Object.assign`, the source's keys take the source's values and other keys keep theirs |
| DynamicContent.UpdateSegment | blocks/dynamic-content/edit.js:35-42 | after an edit the segment is present as an object whose field `key` holds the new value |
| DynamicContent.UpdateSegmentFrame | blocks/dynamic-content/edit.js:35-42 | editing one field changes only that field of that segment; other segments keep the content's value, else the default's |

## Left out

- HTTP transport, `json_decode`, `setcookie` and the transient store are not executed. Their results are inputs or returned values, and the wall clock is an explicit `now`.
- WordPress sanitisers and escapers are uninterpreted functions. No property depends on what they compute beyond being functions.
- `apply_filters` hooks are injected functions.
- Concurrency between requests is left out. Two requests can race on the token transient; the model handles one request at a time.
- JS `toLowerCase` and PHP `strtolower` are ASCII-only here. Unicode case mapping is not modelled.
- JS numbers are modelled as integers only. Floating-point values never reach the modelled paths as numbers.
- `Object.keys` ordering of integer-like keys is not modelled. Objects keep insertion order.
- `Object.assign` with a string or array source is not modelled. Non-object content counts as `{}`.
- Frontend.ApplyAllCtas: a truthy non-object `ctas` (an array or a string) is treated as having no entries, because JS would iterate its indices as keys.
- Setting `textContent` replaces an element's descendants. The DOM here is flat, so a label's text changes alone.
- PHP numeric-string array keys (`"1"` becoming `1`) are not modelled. Keys are strings, except for the selector list's integer keys.
- A non-array settings `$input` is treated as having every field missing. The `(string)` casts of arrays in admin input are not modelled.
- The cookie branch for PHP versions below 7.3 is left out. Its cookie path and domain are modelled but no property is proved about them.
- `getApiRoot`, `boot`, `fetchPersonalization` and `setSegment` in `assets/frontend.js` are browser plumbing (fetch, events, cookies) and are left out.
- The admin page rendering and the settings registration in `includes/admin.php` are left out. Only the sanitiser is modelled.
- `mp_get_settings` with `wp_parse_args` and its legacy option fallback are left out. Settings are an input value.
- `marketo-personalization.php` only wires hooks and is not part of this model.
- Helpers.Selectors: the selector list the rest of the model sends to the browser is the corrected, re-indexed one. As written, `includes/helpers.php:131` keeps the original indices, which `Helpers.SelectorsAsWritten` models and the Findings table describes.
- Frontend.GetFromCtasByKey: only a CTA object's own fields are looked up. The JS prototype chain is not modelled, so `constructor.name` on a real object would give `"Object"` where the model gives nothing.
- Frontend.ApplyEntries: what a selector query matches is an oracle on the current page; which nodes a real selector matches is not modelled.

## Findings

| source | as written | input that shows it | evidently intended | confidence | as-written member | corrected member |
|---|---|---|---|---|---|---|
| includes/helpers.php:129-132 | `array_filter` drops empty selectors but keeps the original keys, so the array is no longer a list and `wp_json_encode` emits a JSON object; `assets/frontend.js:97` only uses selectors that form an `Array` | selectors `["0", ".hero-cta"]`: `"0"` is `empty()` and is dropped, giving `{1: ".hero-cta"}`, so `.hero-cta` is never applied | re-index the filtered selectors (`array_values`) so they stay a JSON array | not executed | Helpers.SelectorsAsWritten, Helpers.DroppedSelectorBreaksList, Frontend.DroppedSelectorSkipsCta | Helpers.CleanSelectors, Helpers.CleanSelectorsRenumbers |
