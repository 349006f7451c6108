/** assets/frontend.js: the browser side. The personalization response is
    applied to the page: segment blocks are shown or hidden, CTA elements
    get their text and link, and `[data-mp-key]` placeholders are filled.
    The document is a flat map of nodes; what a CSS selector matches is
    supplied by the caller as a query oracle. */
module Frontend {
  import opened Options
  import opened Strings
  import opened OrderedMap
  import Helpers

  /** A JSON value as the browser holds it after `r.json()`. */
  datatype Json =
    | JNull
    | JBool(b: bool)
    | JNum(n: int)
    | JStr(s: string)
    | JArr(items: seq<Json>)
    | JObj(fields: seq<(string, Json)>)

  /** JavaScript truthiness of a JSON value. */
  predicate Truthy(v: Json) {
    match v
    case JNull => false
    case JBool(b) => b
    case JNum(n) => n != 0
    case JStr(s) => s != ""
    case _ => true
  }

  /** A property that is present and truthy (`if (config.text)`). */
  predicate IsSet(v: Option<Json>) {
    v.Some? && Truthy(v.value)
  }

  /** `obj[name]`: a property of an object; anything else has none. */
  function Field(v: Json, name: string): Option<Json> {
    if v.JObj? then Get(v.fields, name) else None
  }

  function DigitChar(d: nat): char
    requires d < 10
  {
    ('0' as int + d) as char
  }

  /** The decimal digits of `n`. */
  function Digits(n: nat): (r: string)
    ensures r != [] && forall i :: 0 <= i < |r| ==> IsDigit(r[i])
  {
    if n < 10 then [DigitChar(n)] else Digits(n / 10) + [DigitChar(n % 10)]
  }

  /** `String(v)`: the text a value becomes when written to the page. Arrays
      join their elements with `,`, writing `null` elements as nothing. */
  function JsString(v: Json): string
    decreases v, 1
  {
    match v
    case JNull => "null"
    case JBool(b) => if b then "true" else "false"
    case JNum(n) => if n < 0 then "-" + Digits(-n) else Digits(n)
    case JStr(s) => s
    case JArr(items) => JoinFrom(v, 0)
    case JObj(_) => "[object Object]"
  }

  function JoinFrom(arr: Json, i: nat): string
    requires arr.JArr? && i <= |arr.items|
    decreases arr, 0, |arr.items| - i
  {
    if i == |arr.items| then ""
    else
      var e := arr.items[i];
      (if i > 0 then "," else "") + (if e.JNull? then "" else JsString(e)) + JoinFrom(arr, i + 1)
  }

  /** `[a-z0-9_]`, the characters of a normalised segment value. */
  predicate IsSegmentChar(c: char) { IsAsciiLower(c) || IsDigit(c) || c == '_' }

  /** `[a-z0-9\-_]`, the characters the last step keeps. */
  predicate IsSegmentOrDash(c: char) { IsSegmentChar(c) || c == '-' }

  /** `normalizeSegmentValue`: a falsy value is `default`; anything else is
      lower-cased, trimmed, has whitespace runs and dashes turned into `_`
      and every other character outside `[a-z0-9_]` removed. */
  function NormalizeSegmentValue(value: Option<string>): (r: string)
    ensures value.None? || value == Some("") ==> r == Helpers.DefaultSegment
    ensures forall i :: 0 <= i < |r| ==> IsSegmentChar(r[i])
  {
    if value.None? || value.value == "" then Helpers.DefaultSegment
    else
      var spaced := ReplaceRuns(Trim(Lower(value.value), IsJsSpace), IsJsSpace, '_');
      var dashless := ReplaceChar(spaced, '-', '_');
      var r := Filter(dashless, IsSegmentOrDash);
      assert '-' !in dashless;
      r
  }

  /** Normalising a non-empty normalised value changes nothing. */
  lemma NormalizeSegmentValueIdempotent(value: Option<string>)
    requires NormalizeSegmentValue(value) != ""
    ensures NormalizeSegmentValue(Some(NormalizeSegmentValue(value))) == NormalizeSegmentValue(value)
  {
    SegmentCharsAreFixed(NormalizeSegmentValue(value));
  }

  /** A non-empty string of `[a-z0-9_]` normalises to itself. */
  lemma SegmentCharsAreFixed(r: string)
    requires r != "" && forall i :: 0 <= i < |r| ==> IsSegmentChar(r[i])
    ensures NormalizeSegmentValue(Some(r)) == r
  {
    SegmentCharsAreLower(r);
    SegmentCharsAreNotSpace(r);
    TrimNoop(r, IsJsSpace);
    ReplaceRunsNoop(r, IsJsSpace, '_');
    assert ReplaceChar(r, '-', '_') == r;
    FilterNoop(r, IsSegmentOrDash);
  }

  lemma SegmentCharsAreLower(r: string)
    requires forall i :: 0 <= i < |r| ==> IsSegmentChar(r[i])
    ensures Lower(r) == r
  {
    assert forall i :: 0 <= i < |r| ==> Lower(r)[i] == r[i];
  }

  lemma SegmentCharsAreNotSpace(r: string)
    requires forall i :: 0 <= i < |r| ==> IsSegmentChar(r[i])
    ensures forall i :: 0 <= i < |r| ==> !IsJsSpace(r[i])
  {
  }

  /** A document node: its tag name (upper case for HTML elements), its
      attributes, its class list and its text. */
  datatype Node = Node(tag: string, attrs: seq<(string, string)>, classes: set<string>, text: string)

  type Dom = map<nat, Node>

  /** One element a selector matched, with the results of the three
      `querySelector` calls made on it. */
  datatype Match = Match(el: nat, innerText: Option<nat>, aSpan: Option<nat>, firstA: Option<nat>)

  /** What a selector matches in a document, or `None` for a selector
      `querySelectorAll` rejects by throwing. */
  type Query = (Dom, string) -> Option<seq<Match>>

  const ModalAttributes: seq<string> := ["data-kb-popup", "data-kadence-popup", "data-toggle", "data-bs-toggle", "aria-controls"]

  /** Whether any of `names` is an attribute in `attrs`, tried in order. */
  function HasAnyAttribute(attrs: seq<(string, string)>, names: seq<string>): (r: bool)
    ensures r <==> exists i :: 0 <= i < |names| && names[i] in Keys(attrs)
  {
    if names == [] then false
    else if names[0] in Keys(attrs) then true
    else
      var r := HasAnyAttribute(attrs, names[1..]);
      assert r <==> exists i :: 1 <= i < |names| && names[i] in Keys(attrs) by {
        if r {
          var j :| 0 <= j < |names[1..]| && names[1..][j] in Keys(attrs);
          assert names[j + 1] in Keys(attrs);
        }
      }
      r
  }

  /** `isProbablyModalTrigger`: the element opens a popup or toggles
      something, so its `href` is left alone. */
  function IsProbablyModalTrigger(n: Node): (r: bool)
    ensures r <==> exists a :: a in ModalAttributes && a in Keys(n.attrs)
  {
    HasAnyAttribute(n.attrs, ModalAttributes)
  }

  /** `findCtaLabel`: the Kadence inner-text span, else the first `a span`,
      else the first `a`, else the element itself. */
  function FindCtaLabel(m: Match): (r: nat)
    ensures r == m.el || Some(r) == m.innerText || Some(r) == m.aSpan || Some(r) == m.firstA
    ensures m.innerText.Some? ==> r == m.innerText.value
    ensures m.innerText.None? && m.aSpan.Some? ==> r == m.aSpan.value
    ensures m.innerText.None? && m.aSpan.None? && m.firstA.Some? ==> r == m.firstA.value
    ensures m.innerText.None? && m.aSpan.None? && m.firstA.None? ==> r == m.el
  {
    if m.innerText.Some? then m.innerText.value
    else if m.aSpan.Some? then m.aSpan.value
    else if m.firstA.Some? then m.firstA.value
    else m.el
  }

  /** `findCtaLink`: the element when it is an anchor, else its first
      anchor. */
  function FindCtaLink(m: Match, dom: Dom): (r: Option<nat>)
    ensures r.Some? ==> r == Some(m.el) || r == m.firstA
    ensures m.el in dom && dom[m.el].tag == "A" ==> r == Some(m.el)
    ensures !(m.el in dom && dom[m.el].tag == "A") ==> r == m.firstA
  {
    if m.el in dom && dom[m.el].tag == "A" then Some(m.el) else m.firstA
  }

  function SetText(dom: Dom, id: nat, t: string): (r: Dom)
    ensures r.Keys == dom.Keys
    ensures forall x :: x in dom ==> r[x].tag == dom[x].tag && r[x].attrs == dom[x].attrs && r[x].classes == dom[x].classes
    ensures forall x :: x in dom && x != id ==> r[x] == dom[x]
  {
    if id in dom then dom[id := dom[id].(text := t)] else dom
  }

  function SetAttribute(dom: Dom, id: nat, name: string, value: string): (r: Dom)
    ensures r.Keys == dom.Keys
    ensures forall x :: x in dom ==> r[x].tag == dom[x].tag && r[x].text == dom[x].text && r[x].classes == dom[x].classes
    ensures forall x :: x in dom && x != id ==> r[x] == dom[x]
  {
    if id in dom then dom[id := dom[id].(attrs := Put(dom[id].attrs, name, value))] else dom
  }

  /** The nodes applying one CTA to a matched element may write: the
      element, its label and its first anchor. */
  function Touched(m: Match): set<nat> {
    {m.el, FindCtaLabel(m)} + (if m.firstA.Some? then {m.firstA.value} else {})
  }

  /** `label.textContent = config.text` when the text is truthy. */
  function WithText(dom: Dom, m: Match, text: Option<Json>): (r: Dom)
    ensures r.Keys == dom.Keys
    ensures forall id :: id in dom ==> r[id].attrs == dom[id].attrs && r[id].tag == dom[id].tag && r[id].classes == dom[id].classes
    ensures forall id :: id in dom && id != FindCtaLabel(m) ==> r[id] == dom[id]
  {
    if IsSet(text) then SetText(dom, FindCtaLabel(m), JsString(text.value)) else dom
  }

  /** Marks the link with the url, and points it there unless told not to
      or it is a modal trigger. */
  function UpdateLink(dom: Dom, link: nat, u: string, updateHref: bool): (r: Dom)
    ensures r.Keys == dom.Keys
    ensures forall x :: x in dom ==> r[x].tag == dom[x].tag && r[x].text == dom[x].text && r[x].classes == dom[x].classes
    ensures forall x :: x in dom && x != link ==> r[x] == dom[x]
  {
    var d := SetAttribute(dom, link, "data-mp-href", u);
    if updateHref && link in d && !IsProbablyModalTrigger(d[link]) then SetAttribute(d, link, "href", u) else d
  }

  /** `el.setAttribute('data-mp-href', url)`, then the link. */
  function WithUrl(dom: Dom, m: Match, u: string, updateHref: bool): (r: Dom)
    ensures r.Keys == dom.Keys
    ensures forall x :: x in dom ==> r[x].tag == dom[x].tag && r[x].text == dom[x].text && r[x].classes == dom[x].classes
    ensures forall x :: x in dom && x != m.el && Some(x) != m.firstA ==> r[x] == dom[x]
  {
    var d := SetAttribute(dom, m.el, "data-mp-href", u);
    match FindCtaLink(m, d)
    case None => d
    case Some(link) => UpdateLink(d, link, u, updateHref)
  }

  /** The body of the `nodes.forEach` in `applyCta`, for one element: it
      writes nothing outside `Touched`, never changes a tag or a class, and
      with neither text nor url changes nothing. */
  function ApplyToElement(dom: Dom, m: Match, text: Option<Json>, url: Option<Json>, updateHref: bool): (r: Dom)
    ensures r.Keys == dom.Keys
    ensures forall id :: id in dom && id !in Touched(m) ==> r[id] == dom[id]
    ensures forall id :: id in dom ==> r[id].tag == dom[id].tag && r[id].classes == dom[id].classes
    ensures !IsSet(text) && !IsSet(url) ==> r == dom
  {
    var d := WithText(dom, m, text);
    if IsSet(url) then WithUrl(d, m, JsString(url.value), updateHref) else d
  }

  lemma SetAttributeGet(dom: Dom, id: nat, name: string, v: string, other: string)
    requires id in dom
    ensures var r := SetAttribute(dom, id, name, v);
            && Get(r[id].attrs, other) == (if other == name then Some(v) else Get(dom[id].attrs, other))
            && r[id].tag == dom[id].tag && r[id].classes == dom[id].classes && r[id].text == dom[id].text
            && (forall x :: x in dom && x != id ==> r[x] == dom[x])
  {
    PutGet(dom[id].attrs, name, v, other);
  }

  /** Setting an attribute that is not one of the modal ones does not change
      whether the node is a modal trigger. */
  lemma ModalUnaffected(dom: Dom, id: nat, name: string, v: string)
    requires id in dom && name !in ModalAttributes
    ensures IsProbablyModalTrigger(SetAttribute(dom, id, name, v)[id]) == IsProbablyModalTrigger(dom[id])
  {
    forall a | a in ModalAttributes ensures a in Keys(SetAttribute(dom, id, name, v)[id].attrs) <==> a in Keys(dom[id].attrs) {
      PutKeysOther(dom[id].attrs, name, v, a);
    }
  }

  lemma UpdateLinkFacts(dom: Dom, link: nat, u: string, updateHref: bool)
    requires link in dom
    ensures var r := UpdateLink(dom, link, u, updateHref);
            && Get(r[link].attrs, "data-mp-href") == Some(u)
            && Get(r[link].attrs, "href") == (if updateHref && !IsProbablyModalTrigger(dom[link]) then Some(u) else Get(dom[link].attrs, "href"))
            && r[link].tag == dom[link].tag && r[link].classes == dom[link].classes && r[link].text == dom[link].text
            && (forall x :: x in dom && x != link ==> r[x] == dom[x])
  {
    UpdateLinkMarks(dom, link, u, updateHref);
    UpdateLinkHref(dom, link, u, updateHref);
  }

  lemma UpdateLinkMarks(dom: Dom, link: nat, u: string, updateHref: bool)
    requires link in dom
    ensures Get(UpdateLink(dom, link, u, updateHref)[link].attrs, "data-mp-href") == Some(u)
  {
    var d := SetAttribute(dom, link, "data-mp-href", u);
    SetAttributeGet(dom, link, "data-mp-href", u, "data-mp-href");
    if updateHref && !IsProbablyModalTrigger(d[link]) {
      SetAttributeGet(d, link, "href", u, "data-mp-href");
    }
  }

  lemma UpdateLinkHref(dom: Dom, link: nat, u: string, updateHref: bool)
    requires link in dom
    ensures Get(UpdateLink(dom, link, u, updateHref)[link].attrs, "href")
            == (if updateHref && !IsProbablyModalTrigger(dom[link]) then Some(u) else Get(dom[link].attrs, "href"))
  {
    var d := SetAttribute(dom, link, "data-mp-href", u);
    SetAttributeGet(dom, link, "data-mp-href", u, "href");
    ModalUnaffected(dom, link, "data-mp-href", u);
    if updateHref && !IsProbablyModalTrigger(d[link]) {
      SetAttributeGet(d, link, "href", u, "href");
    }
  }

  /** After `WithUrl` the element carries the url as `data-mp-href`. */
  lemma WithUrlMarks(dom: Dom, m: Match, u: string, updateHref: bool)
    requires m.el in dom
    ensures Get(WithUrl(dom, m, u, updateHref)[m.el].attrs, "data-mp-href") == Some(u)
  {
    var d := SetAttribute(dom, m.el, "data-mp-href", u);
    SetAttributeGet(dom, m.el, "data-mp-href", u, "data-mp-href");
    match FindCtaLink(m, d)
    case None =>
    case Some(link) =>
      if link == m.el {
        UpdateLinkMarks(d, link, u, updateHref);
      }
  }

  /** What applying a CTA writes to a node depends only on that node and on
      the tag of the matched element. */
  lemma ApplyToElementLocal(d1: Dom, d2: Dom, m: Match, text: Option<Json>, url: Option<Json>, updateHref: bool, id: nat)
    requires d1.Keys == d2.Keys && id in d1 && d1[id] == d2[id]
    requires m.el in d1 ==> d1[m.el].tag == d2[m.el].tag
    ensures ApplyToElement(d1, m, text, url, updateHref)[id] == ApplyToElement(d2, m, text, url, updateHref)[id]
  {
    var e1 := WithText(d1, m, text);
    var e2 := WithText(d2, m, text);
    WithTextLocal(d1, d2, m, text, id);
    if IsSet(url) {
      WithUrlLocal(e1, e2, m, JsString(url.value), updateHref, id);
    }
  }

  lemma WithTextLocal(d1: Dom, d2: Dom, m: Match, text: Option<Json>, id: nat)
    requires d1.Keys == d2.Keys && id in d1 && d1[id] == d2[id]
    ensures WithText(d1, m, text)[id] == WithText(d2, m, text)[id]
  {
  }

  lemma WithUrlLocal(d1: Dom, d2: Dom, m: Match, u: string, updateHref: bool, id: nat)
    requires d1.Keys == d2.Keys && id in d1 && d1[id] == d2[id]
    requires m.el in d1 ==> d1[m.el].tag == d2[m.el].tag
    ensures WithUrl(d1, m, u, updateHref)[id] == WithUrl(d2, m, u, updateHref)[id]
  {
    var f1 := SetAttribute(d1, m.el, "data-mp-href", u);
    var f2 := SetAttribute(d2, m.el, "data-mp-href", u);
    assert f1[id] == f2[id];
    assert FindCtaLink(m, f1) == FindCtaLink(m, f2);
    match FindCtaLink(m, f1)
    case None =>
    case Some(link) => UpdateLinkLocal(f1, f2, link, u, updateHref, id);
  }

  lemma UpdateLinkLocal(d1: Dom, d2: Dom, link: nat, u: string, updateHref: bool, id: nat)
    requires d1.Keys == d2.Keys && id in d1 && d1[id] == d2[id]
    ensures UpdateLink(d1, link, u, updateHref)[id] == UpdateLink(d2, link, u, updateHref)[id]
  {
    var e1 := SetAttribute(d1, link, "data-mp-href", u);
    var e2 := SetAttribute(d2, link, "data-mp-href", u);
    assert e1[id] == e2[id];
  }

  /** With truthy text, the label node shows it. */
  lemma ApplyToElementLabel(dom: Dom, m: Match, text: Option<Json>, url: Option<Json>, updateHref: bool)
    requires IsSet(text) && FindCtaLabel(m) in dom
    ensures ApplyToElement(dom, m, text, url, updateHref)[FindCtaLabel(m)].text == JsString(text.value)
  {
  }

  /** With a truthy url, the element carries it as `data-mp-href`,
      whatever `updateHref` says. */
  lemma ApplyToElementMarks(dom: Dom, m: Match, text: Option<Json>, url: Option<Json>, updateHref: bool)
    requires IsSet(url) && m.el in dom
    ensures Get(ApplyToElement(dom, m, text, url, updateHref)[m.el].attrs, "data-mp-href") == Some(JsString(url.value))
  {
    WithUrlMarks(WithText(dom, m, text), m, JsString(url.value), updateHref);
  }

  /** With a truthy url, the link carries it as `data-mp-href`; its `href`
      becomes the url exactly when `updateHref` holds and the link is no
      modal trigger, and is kept otherwise. */
  lemma ApplyToElementLink(dom: Dom, m: Match, text: Option<Json>, url: Option<Json>, updateHref: bool)
    requires IsSet(url) && m.el in dom
    requires FindCtaLink(m, dom).Some? && FindCtaLink(m, dom).value in dom
    ensures var r := ApplyToElement(dom, m, text, url, updateHref);
            var link := FindCtaLink(m, dom).value;
            && Get(r[link].attrs, "data-mp-href") == Some(JsString(url.value))
            && Get(r[link].attrs, "href") ==
                 if updateHref && !IsProbablyModalTrigger(dom[link]) then Some(JsString(url.value)) else Get(dom[link].attrs, "href")
  {
    var u := JsString(url.value);
    var link := FindCtaLink(m, dom).value;
    var d1 := WithText(dom, m, text);
    var d2 := SetAttribute(d1, m.el, "data-mp-href", u);
    assert FindCtaLink(m, d2) == Some(link);
    assert Get(d2[link].attrs, "href") == Get(dom[link].attrs, "href") by {
      SetAttributeGet(d1, m.el, "data-mp-href", u, "href");
    }
    assert IsProbablyModalTrigger(d2[link]) == IsProbablyModalTrigger(dom[link]) by {
      ModalUnaffected(d1, m.el, "data-mp-href", u);
      assert d1[link].attrs == dom[link].attrs;
    }
    UpdateLinkFacts(d2, link, u, updateHref);
  }

  predicate Untouched(ms: seq<Match>, id: nat) {
    forall i :: 0 <= i < |ms| ==> id !in Touched(ms[i])
  }

  /** `nodes.forEach(...)` over the matched elements, in document order. */
  function ApplyMatches(dom: Dom, ms: seq<Match>, text: Option<Json>, url: Option<Json>, updateHref: bool): (r: Dom)
    ensures r.Keys == dom.Keys
    ensures forall id :: id in dom ==> r[id].tag == dom[id].tag && r[id].classes == dom[id].classes
    ensures forall id :: id in dom && Untouched(ms, id) ==> r[id] == dom[id]
  {
    if ms == [] then dom
    else
      var d := ApplyToElement(dom, ms[0], text, url, updateHref);
      assert forall id :: Untouched(ms, id) ==> Untouched(ms[1..], id) && id !in Touched(ms[0]) by {
        forall id | Untouched(ms, id) ensures Untouched(ms[1..], id) {
          assert forall i :: 0 <= i < |ms[1..]| ==> ms[1..][i] == ms[i + 1];
        }
      }
      ApplyMatches(d, ms[1..], text, url, updateHref)
  }

  /** `applyCta`: `None` when the selector makes `querySelectorAll` throw. */
  function ApplyCta(dom: Dom, query: Query, selector: string, config: Json, updateHref: bool): (r: Option<Dom>)
    ensures r.Some? ==> r.value.Keys == dom.Keys
    ensures r.Some? ==> forall id :: id in dom ==> r.value[id].tag == dom[id].tag && r.value[id].classes == dom[id].classes
    ensures r.None? <==> Truthy(config) && query(dom, selector).None?
    ensures !Truthy(config) ==> r == Some(dom)
    ensures r.Some? && Truthy(config) ==>
              forall id :: id in dom && Untouched(query(dom, selector).value, id) ==> r.value[id] == dom[id]
    ensures !IsSet(Field(config, "text")) && !IsSet(Field(config, "url")) && r.Some? ==> r.value == dom
  {
    if !Truthy(config) then Some(dom)
    else
      match query(dom, selector)
      case None => None
      case Some(ms) =>
        assert !IsSet(Field(config, "text")) && !IsSet(Field(config, "url")) ==> ApplyMatches(dom, ms, Field(config, "text"), Field(config, "url"), updateHref) == dom by {
          if !IsSet(Field(config, "text")) && !IsSet(Field(config, "url")) {
            NothingToApply(dom, ms, Field(config, "text"), Field(config, "url"), updateHref);
          }
        }
        Some(ApplyMatches(dom, ms, Field(config, "text"), Field(config, "url"), updateHref))
  }

  lemma {:induction false} NothingToApply(dom: Dom, ms: seq<Match>, text: Option<Json>, url: Option<Json>, updateHref: bool)
    requires !IsSet(text) && !IsSet(url)
    ensures ApplyMatches(dom, ms, text, url, updateHref) == dom
  {
    if ms != [] {
      NothingToApply(dom, ms[1..], text, url, updateHref);
    }
  }

  /** A node that only the `k`th matched element touches ends up as applying
      the CTA to that element alone makes it. */
  lemma {:induction false} ApplyMatchesOnly(dom: Dom, ms: seq<Match>, text: Option<Json>, url: Option<Json>,
                                            updateHref: bool, k: nat, id: nat)
    requires k < |ms| && id in dom
    requires forall i :: 0 <= i < |ms| && i != k ==> id !in Touched(ms[i])
    ensures ApplyMatches(dom, ms, text, url, updateHref)[id] == ApplyToElement(dom, ms[k], text, url, updateHref)[id]
  {
    var d := ApplyToElement(dom, ms[0], text, url, updateHref);
    assert forall i :: 0 <= i < |ms[1..]| ==> ms[1..][i] == ms[i + 1];
    if k == 0 {
      assert Untouched(ms[1..], id);
    } else {
      assert id !in Touched(ms[0]);
      ApplyMatchesOnly(d, ms[1..], text, url, updateHref, k - 1, id);
      ApplyToElementLocal(d, dom, ms[k], text, url, updateHref, id);
    }
  }

  /** Whether a CTA may rewrite `href`: `update_href` when present, else
      `updateHref` when present, else yes. */
  function ResolveUpdateHref(config: Json): (r: bool)
    ensures Field(config, "update_href").Some? ==> (r <==> Truthy(Field(config, "update_href").value))
    ensures Field(config, "update_href").None? && Field(config, "updateHref").Some? ==> (r <==> Truthy(Field(config, "updateHref").value))
    ensures Field(config, "update_href").None? && Field(config, "updateHref").None? ==> r
  {
    match Field(config, "update_href")
    case Some(v) => Truthy(v)
    case None =>
      match Field(config, "updateHref")
      case Some(v) => Truthy(v)
      case None => true
  }

  /** `config.selectors` when it is an array, else no selectors. */
  function SelectorList(config: Json): seq<Json> {
    match Field(config, "selectors")
    case Some(JArr(items)) => items
    case _ => []
  }

  /** The state of the page after running, and whether an exception cut
      the run short. */
  datatype Run = Run(dom: Dom, threw: bool)

  /** `selectors.forEach(applyCta)`: stops at the first selector that
      throws, keeping what was already written. */
  function ApplySelectors(dom: Dom, query: Query, sels: seq<Json>, config: Json, updateHref: bool): (r: Run)
    ensures r.dom.Keys == dom.Keys
    ensures forall id :: id in dom ==> r.dom[id].tag == dom[id].tag && r.dom[id].classes == dom[id].classes
    ensures sels == [] || !Truthy(config) ==> r == Run(dom, false)
    ensures NeverThrows(query) ==> !r.threw
  {
    if sels == [] then Run(dom, false)
    else
      match ApplyCta(dom, query, JsString(sels[0]), config, updateHref)
      case None => Run(dom, true)
      case Some(d) => ApplySelectors(d, query, sels[1..], config, updateHref)
  }

  /** A query oracle under which no selector throws, on any page. */
  ghost predicate NeverThrows(query: Query) {
    forall d: Dom, sel: string :: query(d, sel).Some?
  }

  /** Running two lists of selectors one after the other is running them
      joined, unless the first one throws. */
  lemma {:induction false} ApplySelectorsInOrder(dom: Dom, query: Query, a: seq<Json>, b: seq<Json>, config: Json, updateHref: bool)
    ensures var r1 := ApplySelectors(dom, query, a, config, updateHref);
            ApplySelectors(dom, query, a + b, config, updateHref) ==
              if r1.threw then r1 else ApplySelectors(r1.dom, query, b, config, updateHref)
  {
    if a == [] {
      assert a + b == b;
    } else {
      assert (a + b)[0] == a[0] && (a + b)[1..] == a[1..] + b;
      match ApplyCta(dom, query, JsString(a[0]), config, updateHref)
      case None =>
      case Some(d) => ApplySelectorsInOrder(d, query, a[1..], b, config, updateHref);
    }
  }

  /** One selector on its own: the CTA applied to what it matches, or a
      throw. */
  lemma ApplyOneSelector(dom: Dom, query: Query, sel: Json, config: Json, updateHref: bool)
    ensures var c := ApplyCta(dom, query, JsString(sel), config, updateHref);
            ApplySelectors(dom, query, [sel], config, updateHref) == if c.None? then Run(dom, true) else Run(c.value, false)
  {
    assert [sel][1..] == [];
  }

  /** `applyAllCtas` over the entries of the `ctas` object, in order. */
  function ApplyEntries(dom: Dom, query: Query, entries: seq<(string, Json)>): (r: Run)
    ensures r.dom.Keys == dom.Keys
    ensures forall id :: id in dom ==> r.dom[id].tag == dom[id].tag && r.dom[id].classes == dom[id].classes
    ensures entries == [] ==> r == Run(dom, false)
    ensures NeverThrows(query) ==> !r.threw
  {
    if entries == [] then Run(dom, false)
    else
      var config := if Truthy(entries[0].1) then entries[0].1 else JObj([]);
      var run := ApplySelectors(dom, query, SelectorList(config), config, ResolveUpdateHref(config));
      if run.threw then run else ApplyEntries(run.dom, query, entries[1..])
  }

  /** `applyAllCtas`. */
  function ApplyAllCtas(dom: Dom, query: Query, ctas: Json): (r: Run)
    ensures r.dom.Keys == dom.Keys
    ensures forall id :: id in dom ==> r.dom[id].tag == dom[id].tag && r.dom[id].classes == dom[id].classes
    ensures !ctas.JObj? ==> r == Run(dom, false)
    ensures NeverThrows(query) ==> !r.threw
  {
    if !Truthy(ctas) || !ctas.JObj? then Run(dom, false) else ApplyEntries(dom, query, ctas.fields)
  }

  /** The CTA entries are applied one after the other, each over the page
      the previous ones left, until one throws. */
  lemma {:induction false} ApplyEntriesInOrder(dom: Dom, query: Query, a: seq<(string, Json)>, b: seq<(string, Json)>)
    ensures var r1 := ApplyEntries(dom, query, a);
            ApplyEntries(dom, query, a + b) == if r1.threw then r1 else ApplyEntries(r1.dom, query, b)
  {
    if a == [] {
      assert a + b == b;
    } else {
      assert (a + b)[0] == a[0] && (a + b)[1..] == a[1..] + b;
      var config := if Truthy(a[0].1) then a[0].1 else JObj([]);
      var run := ApplySelectors(dom, query, SelectorList(config), config, ResolveUpdateHref(config));
      if !run.threw {
        ApplyEntriesInOrder(run.dom, query, a[1..], b);
      }
    }
  }

  /** One entry on its own runs that CTA's selectors with its update flag;
      a falsy entry runs none. */
  lemma ApplyOneEntry(dom: Dom, query: Query, e: (string, Json))
    ensures var config := if Truthy(e.1) then e.1 else JObj([]);
            ApplyEntries(dom, query, [e]) == ApplySelectors(dom, query, SelectorList(config), config, ResolveUpdateHref(config))
    ensures !Truthy(e.1) ==> ApplyEntries(dom, query, [e]) == Run(dom, false)
  {
    assert [e][1..] == [];
    assert SelectorList(JObj([])) == [];
  }

  /** A CTA whose `selectors` is not an array is skipped: it changes nothing
      and throws nothing. */
  lemma {:induction false} NonArraySelectorsSkipped(dom: Dom, query: Query, entries: seq<(string, Json)>)
    requires forall i :: 0 <= i < |entries| ==> SelectorList(entries[i].1) == []
    ensures ApplyEntries(dom, query, entries) == Run(dom, false)
  {
    if entries != [] {
      assert SelectorList(JObj([])) == [];
      NonArraySelectorsSkipped(dom, query, entries[1..]);
    }
  }

  /** The JSON the server sends for one CTA (`mp_get_cta_config`). */
  function ConfigJson(c: Helpers.CtaConfig): Json {
    JObj([("text", JStr(c.text)), ("url", JStr(c.url)),
          ("selectors", JArr(seq(|c.selectors|, i requires 0 <= i < |c.selectors| => JStr(c.selectors[i])))),
          ("update_href", JBool(c.updateHref))])
  }

  /** The browser reads back what the server sent: the same text, url,
      selectors and update flag. */
  lemma ConfigJsonReadBack(c: Helpers.CtaConfig)
    ensures Field(ConfigJson(c), "text") == Some(JStr(c.text))
    ensures Field(ConfigJson(c), "url") == Some(JStr(c.url))
    ensures |SelectorList(ConfigJson(c))| == |c.selectors|
    ensures forall i :: 0 <= i < |c.selectors| ==> JsString(SelectorList(ConfigJson(c))[i]) == c.selectors[i]
    ensures ResolveUpdateHref(ConfigJson(c)) == c.updateHref
  {
    ConfigUrl(c);
    ConfigSelectors(c);
    ConfigUpdateHref(c);
  }

  lemma ConfigUrl(c: Helpers.CtaConfig)
    ensures Field(ConfigJson(c), "url") == Some(JStr(c.url))
  {
    var f := ConfigJson(c).fields;
    assert f[0].0 != "url";
    assert f[1..][0] == ("url", JStr(c.url));
  }

  lemma ConfigSelectors(c: Helpers.CtaConfig)
    ensures SelectorList(ConfigJson(c)) == seq(|c.selectors|, i requires 0 <= i < |c.selectors| => JStr(c.selectors[i]))
  {
    var f := ConfigJson(c).fields;
    assert f[0].0 != "selectors" && f[1..][0].0 != "selectors";
    assert Get(f, "selectors") == Get(f[1..][1..], "selectors");
    assert f[1..][1..][0].0 == "selectors";
  }

  lemma ConfigUpdateHref(c: Helpers.CtaConfig)
    ensures Field(ConfigJson(c), "update_href") == Some(JBool(c.updateHref))
  {
    var f := ConfigJson(c).fields;
    assert f[0].0 != "update_href" && f[1..][0].0 != "update_href" && f[1..][1..][0].0 != "update_href";
    assert Get(f, "update_href") == Get(f[1..][1..][1..], "update_href");
    assert f[1..][1..][1..][0] == ("update_href", JBool(c.updateHref));
  }

  /** `json_encode` of a PHP array with integer keys: a JSON array when the
      keys are 0, 1, ..., else an object keyed by the decimal keys. */
  function EncodeIntKeyed(a: seq<(int, string)>): Json {
    if Helpers.IsList(a) then JArr(seq(|a|, i requires 0 <= i < |a| => JStr(a[i].1)))
    else JObj(seq(|a|, i requires 0 <= i < |a| => (IntString(a[i].0), JStr(a[i].1))))
  }

  function IntString(n: int): string {
    if n < 0 then "-" + Digits(-n) else Digits(n)
  }

  /** A CTA object as the server writes it, with the given encoding of its
      selectors. */
  function CtaObject(text: string, url: string, selectors: Json, updateHref: bool): Json {
    JObj([("text", JStr(text)), ("url", JStr(url)), ("selectors", selectors), ("update_href", JBool(updateHref))])
  }

  /** Selectors whose keys are not 0, 1, ... reach the browser as an object,
      which it does not treat as a selector list. */
  lemma NonListSelectorsIgnored(a: seq<(int, string)>, text: string, url: string, updateHref: bool)
    requires !Helpers.IsList(a)
    ensures SelectorList(CtaObject(text, url, EncodeIntKeyed(a), updateHref)) == []
  {
    var f := CtaObject(text, url, EncodeIntKeyed(a), updateHref).fields;
    assert f[0].0 != "selectors" && f[1..][0].0 != "selectors";
    assert Get(f, "selectors") == Get(f[1..][1..], "selectors");
    assert f[1..][1..][0] == ("selectors", EncodeIntKeyed(a));
  }

  /** With the selectors as the server writes them, a `"0"` in front of a
      real selector turns the list into an object, and the browser skips the
      CTA altogether. */
  lemma DroppedSelectorSkipsCta(text: string, url: string, updateHref: bool)
    ensures SelectorList(CtaObject(text, url, EncodeIntKeyed(Helpers.SelectorsAsWritten(["0", ".hero-cta"])), updateHref)) == []
  {
    Helpers.DroppedSelectorBreaksList();
    NonListSelectorsIgnored(Helpers.SelectorsAsWritten(["0", ".hero-cta"]), text, url, updateHref);
  }

  predicate IsDot(c: char) { c == '.' }

  /** `getFromCtasByKey`: the truthy value at `group.field`, or `None` (the
      script's `null`). */
  function GetFromCtasByKey(ctas: Json, key: Option<string>): (r: Option<Json>)
    ensures r.Some? ==> Truthy(r.value)
    ensures r.Some? ==> key.Some? && |Split(key.value, IsDot)| == 2
    ensures r.Some? ==>
              var parts := Split(key.value, IsDot);
              && Field(ctas, parts[0]).Some? && Truthy(Field(ctas, parts[0]).value)
              && Field(Field(ctas, parts[0]).value, parts[1]) == r
  {
    if !Truthy(ctas) || key.None? || key.value == "" then None
    else
      var parts := Split(key.value, IsDot);
      if |parts| != 2 then None
      else
        match Field(ctas, parts[0])
        case None => None
        case Some(g) =>
          if !Truthy(g) then None
          else
            var v := Field(g, parts[1]);
            if IsSet(v) then v else None
  }

  /** A `group.field` key finds the field of the CTA the server sent under
      `group`, when that field is truthy. */
  lemma KeyFindsServerField(fields: seq<(string, Json)>, group: string, c: Helpers.CtaConfig, field: string)
    requires Get(fields, group) == Some(ConfigJson(c))
    requires forall i :: 0 <= i < |group| ==> !IsDot(group[i])
    requires forall i :: 0 <= i < |field| ==> !IsDot(field[i])
    ensures GetFromCtasByKey(JObj(fields), Some(group + "." + field)) ==
              if IsSet(Field(ConfigJson(c), field)) then Field(ConfigJson(c), field) else None
  {
    KeySplitsInTwo(group, field);
    assert Field(JObj(fields), group) == Some(ConfigJson(c));
  }

  /** A dotted key with dot-free halves splits into those halves. */
  lemma KeySplitsInTwo(group: string, field: string)
    requires forall i :: 0 <= i < |group| ==> !IsDot(group[i])
    requires forall i :: 0 <= i < |field| ==> !IsDot(field[i])
    ensures Split(group + "." + field, IsDot) == [group, field]
  {
    SplitNone(field, IsDot);
    SplitFirst(group, '.', field, IsDot);
    assert group + "." + field == group + ['.'] + field;
  }

  /** `key.endsWith('.url')`. */
  predicate IsUrlKey(key: string) { EndsWith(key, ".url") }

  /** The body of the `nodes.forEach` in `applyShortcodePlaceholders`. */
  function FillPlaceholder(dom: Dom, el: nat, ctas: Json): (r: Dom)
    ensures r.Keys == dom.Keys
    ensures forall x :: x in dom && x != el ==> r[x] == dom[x]
  {
    if el !in dom then dom
    else
      var key := Get(dom[el].attrs, "data-mp-key");
      match GetFromCtasByKey(ctas, key)
      case None => dom
      case Some(v) =>
        if IsUrlKey(key.value) && dom[el].tag == "A" then SetAttribute(dom, el, "href", JsString(v))
        else SetText(dom, el, JsString(v))
  }

  /** A placeholder with a value takes it as its `href` when it is a `.url`
      key on an anchor, and as its text otherwise; without a value it is
      left alone. */
  lemma FillPlaceholderEffect(dom: Dom, el: nat, ctas: Json)
    requires el in dom
    ensures var key := Get(dom[el].attrs, "data-mp-key");
            var v := GetFromCtasByKey(ctas, key);
            var r := FillPlaceholder(dom, el, ctas);
            && (v.None? ==> r == dom)
            && (v.Some? && IsUrlKey(key.value) && dom[el].tag == "A" ==>
                  Get(r[el].attrs, "href") == Some(JsString(v.value)) && r[el].text == dom[el].text)
            && (v.Some? && !(IsUrlKey(key.value) && dom[el].tag == "A") ==>
                  r[el].text == JsString(v.value) && r[el].attrs == dom[el].attrs)
  {
    var key := Get(dom[el].attrs, "data-mp-key");
    var v := GetFromCtasByKey(ctas, key);
    if v.Some? && IsUrlKey(key.value) && dom[el].tag == "A" {
      SetAttributeGet(dom, el, "href", JsString(v.value), "href");
    }
  }

  /** What filling a placeholder writes to it depends on that node alone. */
  lemma FillPlaceholderLocal(d1: Dom, d2: Dom, x: nat, ctas: Json)
    requires d1.Keys == d2.Keys && x in d1 && d1[x] == d2[x]
    ensures FillPlaceholder(d1, x, ctas)[x] == FillPlaceholder(d2, x, ctas)[x]
  {
  }

  /** `querySelectorAll` lists each element once, so every placeholder ends
      up as filling it on the original page makes it. */
  lemma {:induction false} PlaceholdersFilledIndependently(dom: Dom, nodes: seq<nat>, ctas: Json)
    requires forall i, j :: 0 <= i < j < |nodes| ==> nodes[i] != nodes[j]
    ensures var r := ApplyShortcodePlaceholders(dom, nodes, ctas);
            forall x :: x in dom && x in nodes ==> r[x] == FillPlaceholder(dom, x, ctas)[x]
  {
    if nodes != [] {
      var d := FillPlaceholder(dom, nodes[0], ctas);
      assert forall i :: 0 <= i < |nodes[1..]| ==> nodes[1..][i] == nodes[i + 1];
      PlaceholdersFilledIndependently(d, nodes[1..], ctas);
      forall x | x in dom && x in nodes
        ensures ApplyShortcodePlaceholders(dom, nodes, ctas)[x] == FillPlaceholder(dom, x, ctas)[x]
      {
        if x == nodes[0] {
          assert x !in nodes[1..];
        } else {
          assert x in nodes[1..];
          FillPlaceholderLocal(d, dom, x, ctas);
        }
      }
    }
  }

  /** `applyShortcodePlaceholders` over the `[data-mp-key]` elements. */
  function ApplyShortcodePlaceholders(dom: Dom, nodes: seq<nat>, ctas: Json): (r: Dom)
    ensures r.Keys == dom.Keys
    ensures forall x :: x in dom && x !in nodes ==> r[x] == dom[x]
  {
    if nodes == [] then dom
    else ApplyShortcodePlaceholders(FillPlaceholder(dom, nodes[0], ctas), nodes[1..], ctas)
  }

  const ActiveClass: string := "is-active"

  /** Whether a block whose `data-segment` attribute is `attr` is shown
      for the normalised `slug`: the attribute normalises to the slug, or to
      `default` when the slug is empty. */
  predicate ShouldShow(slug: string, attr: Option<string>) {
    var seg := NormalizeSegmentValue(attr);
    if slug != "" then seg == slug else seg == Helpers.DefaultSegment
  }

  function SegmentAttr(n: Node): Option<string> {
    Get(n.attrs, "data-segment")
  }

  /** `el.classList.add` or `remove` of `is-active` on one block. */
  function ShowOne(dom: Dom, el: nat, slug: string): (r: Dom)
    ensures r.Keys == dom.Keys
    ensures forall x :: x in dom ==>
              && r[x].tag == dom[x].tag && r[x].attrs == dom[x].attrs && r[x].text == dom[x].text
              && r[x].classes - {ActiveClass} == dom[x].classes - {ActiveClass}
    ensures forall x :: x in dom && x != el ==> r[x] == dom[x]
    ensures el in dom ==> (ActiveClass in r[el].classes <==> ShouldShow(slug, SegmentAttr(dom[el])))
  {
    if el !in dom then dom
    else if ShouldShow(slug, SegmentAttr(dom[el])) then dom[el := dom[el].(classes := dom[el].classes + {ActiveClass})]
    else dom[el := dom[el].(classes := dom[el].classes - {ActiveClass})]
  }

  /** Adds or removes `is-active` on every listed block. */
  function ShowNodes(dom: Dom, nodes: seq<nat>, slug: string): (r: Dom)
    ensures r.Keys == dom.Keys
    ensures forall x :: x in dom ==>
              && r[x].tag == dom[x].tag && r[x].attrs == dom[x].attrs && r[x].text == dom[x].text
              && r[x].classes - {ActiveClass} == dom[x].classes - {ActiveClass}
    ensures forall x :: x in dom && x !in nodes ==> r[x] == dom[x]
    ensures forall x :: x in dom && x in nodes ==> (ActiveClass in r[x].classes <==> ShouldShow(slug, SegmentAttr(dom[x])))
  {
    if nodes == [] then dom
    else
      var d := ShowOne(dom, nodes[0], slug);
      assert forall x :: x in nodes <==> x == nodes[0] || x in nodes[1..];
      assert forall x :: x in dom ==> SegmentAttr(d[x]) == SegmentAttr(dom[x]);
      ShowNodes(d, nodes[1..], slug)
  }

  /** `applySegmentDisplay`: exactly the blocks of the chosen segment are
      active; nothing else on the page changes. */
  function ApplySegmentDisplay(dom: Dom, nodes: seq<nat>, segment: Option<string>): (r: Dom)
    ensures r.Keys == dom.Keys
    ensures forall x :: x in dom && x !in nodes ==> r[x] == dom[x]
    ensures forall x :: x in dom && x in nodes ==>
              (ActiveClass in r[x].classes <==> ShouldShow(NormalizeSegmentValue(segment), SegmentAttr(dom[x])))
  {
    ShowNodes(dom, nodes, NormalizeSegmentValue(segment))
  }

  /** A block written for segment key `k` (a string of `[a-z0-9_]`) is shown
      when `k` is the segment, and hidden for any other such key. */
  lemma BlockShownForItsSegment(n: Node, k: string, other: string)
    requires k != "" && forall i :: 0 <= i < |k| ==> IsSegmentChar(k[i])
    requires other != "" && forall i :: 0 <= i < |other| ==> IsSegmentChar(other[i])
    requires SegmentAttr(n) == Some(k)
    ensures ShouldShow(NormalizeSegmentValue(Some(k)), SegmentAttr(n))
    ensures other != k ==> !ShouldShow(NormalizeSegmentValue(Some(other)), SegmentAttr(n))
  {
    SegmentCharsAreFixed(k);
    SegmentCharsAreFixed(other);
  }
}
