/** blocks/dynamic-content: the editor block that stores one piece of
    content per segment (`edit.js`) and saves it as one hidden-or-shown
    `div` per segment (`save.js`). Content is a JSON object keyed by segment
    key. */
module DynamicContent {
  import opened Options
  import opened OrderedMap
  import opened Frontend
  import Helpers

  /** What `save.js` emits inside a segment `div`. */
  datatype Child =
    | Heading(content: Json)
    | Paragraph(content: Json)
    | Button(href: Json, className: string, content: Json)

  /** One saved segment `div`. */
  datatype SegmentDiv = SegmentDiv(classes: seq<string>, dataSegment: string, key: string, children: seq<Child>)

  /** The saved markup: the `div.mp-dynamic` wrapper the front end looks
      for, holding one segment `div` per entry. */
  datatype Wrapper = Wrapper(className: string, segments: seq<SegmentDiv>)

  const ActiveClass: string := "is-active"

  /** The class tokens of a segment `div`, empty ones dropped. */
  function ClassTokens(segment: string): (r: seq<string>)
    ensures "mp-seg" in r && "mp-" + segment in r
    ensures ActiveClass in r <==> segment == Helpers.DefaultSegment
  {
    var tokens := ["mp-seg", "mp-" + segment] + (if segment == Helpers.DefaultSegment then [ActiveClass] else []);
    assert ActiveClass != "mp-" + segment by {
      assert ("mp-" + segment)[0] == 'm' && ActiveClass[0] == 'i';
    }
    tokens
  }

  /** The children of a segment `div`: a heading, a paragraph and a button,
      each only when its field is truthy. */
  function Children(data: Json): seq<Child> {
    HeadingPart(data) + ParagraphPart(data) + ButtonPart(data)
  }

  /** The heading, when `headline` is truthy. */
  function HeadingPart(data: Json): (r: seq<Child>)
    ensures (r != []) <==> IsSet(Field(data, "headline"))
    ensures forall c :: c in r ==> c.Heading?
  {
    var h := Field(data, "headline");
    if IsSet(h) then [Heading(h.value)] else []
  }

  /** The paragraph, when `body` is truthy. */
  function ParagraphPart(data: Json): (r: seq<Child>)
    ensures (r != []) <==> IsSet(Field(data, "body"))
    ensures forall c :: c in r ==> c.Paragraph?
  {
    var b := Field(data, "body");
    if IsSet(b) then [Paragraph(b.value)] else []
  }

  /** The button, when `buttonText` is truthy. */
  function ButtonPart(data: Json): (r: seq<Child>)
    ensures (r != []) <==> IsSet(Field(data, "buttonText"))
    ensures forall c :: c in r ==> c.Button? && c.href == ButtonHref(data)
  {
    var t := Field(data, "buttonText");
    if IsSet(t) then [Button(ButtonHref(data), "btn", t.value)] else []
  }

  function ButtonHref(data: Json): Json {
    var u := Field(data, "buttonUrl");
    if IsSet(u) then u.value else JStr("#")
  }

  /** Each child appears exactly when its field is truthy, and the button
      links to `buttonUrl`, or to `#` when that is falsy. */
  lemma ChildrenShape(data: Json)
    ensures var r := Children(data);
            && ((exists c :: c in r && c.Heading?) <==> IsSet(Field(data, "headline")))
            && ((exists c :: c in r && c.Paragraph?) <==> IsSet(Field(data, "body")))
            && ((exists c :: c in r && c.Button?) <==> IsSet(Field(data, "buttonText")))
            && (forall c :: c in r && c.Button? ==>
                  c.href == if IsSet(Field(data, "buttonUrl")) then Field(data, "buttonUrl").value else JStr("#"))
  {
    var hs, ps, bs := HeadingPart(data), ParagraphPart(data), ButtonPart(data);
    var r := hs + ps + bs;
    assert forall c :: c in r <==> c in hs || c in ps || c in bs;
    if hs != [] { assert hs[0] in r; }
    if ps != [] { assert ps[0] in r; }
    if bs != [] { assert bs[0] in r; }
  }

  /** `Save`: a `div.mp-dynamic` holding one `div` per content entry, in
      entry order. */
  function Save(content: Json): (r: Wrapper)
    ensures r.className == "mp-dynamic"
    ensures var entries := if content.JObj? then content.fields else [];
            && |r.segments| == |entries|
            && forall i :: 0 <= i < |r.segments| ==>
                 && r.segments[i].dataSegment == entries[i].0 && r.segments[i].key == entries[i].0
                 && (ActiveClass in r.segments[i].classes <==> entries[i].0 == Helpers.DefaultSegment)
                 && "mp-seg" in r.segments[i].classes && "mp-" + entries[i].0 in r.segments[i].classes
                 && r.segments[i].children == Children(if Truthy(entries[i].1) then entries[i].1 else JObj([]))
  {
    var entries := if content.JObj? then content.fields else [];
    Wrapper("mp-dynamic", seq(|entries|, i requires 0 <= i < |entries| =>
      var data := if Truthy(entries[i].1) then entries[i].1 else JObj([]);
      SegmentDiv(ClassTokens(entries[i].0), entries[i].0, entries[i].0, Children(data))))
  }

  /** Exactly the saved `div`s of the default segment start out active. */
  lemma SavedActiveIsDefault(content: Json, i: int)
    requires 0 <= i < |Save(content).segments|
    ensures ActiveClass in Save(content).segments[i].classes <==> Save(content).segments[i].dataSegment == Helpers.DefaultSegment
  {
  }

  /** The segment list the editor offers: `mpSegments` when it is a
      non-empty array, else `tcpMpSegments` when it is one, else the single
      `default` segment. */
  function Segments(mpSegments: Option<Json>, tcpMpSegments: Option<Json>): (r: seq<Json>)
    ensures |r| >= 1
    ensures IsNonEmptyArray(mpSegments) ==> r == mpSegments.value.items
    ensures !IsNonEmptyArray(mpSegments) && IsNonEmptyArray(tcpMpSegments) ==> r == tcpMpSegments.value.items
    ensures !IsNonEmptyArray(mpSegments) && !IsNonEmptyArray(tcpMpSegments) ==> r == [DefaultSegmentEntry]
  {
    if IsNonEmptyArray(mpSegments) then mpSegments.value.items
    else if IsNonEmptyArray(tcpMpSegments) then tcpMpSegments.value.items
    else [DefaultSegmentEntry]
  }

  predicate IsNonEmptyArray(v: Option<Json>) {
    v.Some? && v.value.JArr? && |v.value.items| > 0
  }

  const DefaultSegmentEntry: Json := JObj([("key", JStr("default")), ("label", JStr("Default"))])

  /** `seg.key` used as a property name: its string form, `undefined` when
      missing. */
  function SegmentKey(seg: Json): string {
    match Field(seg, "key")
    case Some(k) => JsString(k)
    case None => "undefined"
  }

  function SegmentKeys(segs: seq<Json>): (r: seq<string>)
    ensures |r| == |segs| && forall i :: 0 <= i < |segs| ==> r[i] == SegmentKey(segs[i])
  {
    seq(|segs|, i requires 0 <= i < |segs| => SegmentKey(segs[i]))
  }

  /** Writes `v(key)` under every key in turn (`output[segment.key] = ...`
      in a loop). */
  function AssignAll(acc: seq<(string, Json)>, keys: seq<string>, incoming: seq<(string, Json)>, blank: bool): (r: seq<(string, Json)>)
    ensures forall k :: k in Keys(r) <==> k in Keys(acc) || k in keys
    ensures forall k :: k in keys ==> Get(r, k) == Some(if blank then JObj([]) else CopyObject(Get(incoming, k)))
    ensures forall k :: k !in keys ==> Get(r, k) == Get(acc, k)
    decreases |keys|
  {
    if keys == [] then acc
    else
      var last := keys[|keys| - 1];
      var init := keys[..|keys| - 1];
      var d := AssignAll(acc, init, incoming, blank);
      var v := if blank then JObj([]) else CopyObject(Get(incoming, last));
      assert forall k :: k in keys <==> k in init || k == last;
      forall k ensures Get(Put(d, last, v), k) == if k == last then Some(v) else Get(d, k) {
        PutGet(d, last, v, k);
      }
      Put(d, last, v)
  }

  /** `Object.assign({}, v)`: a shallow copy of an object; anything else
      copies to `{}`. */
  function CopyObject(v: Option<Json>): Json {
    if v.Some? && v.value.JObj? then v.value else JObj([])
  }

  /** `DEFAULT_CONTENT`: an empty object for every segment. */
  function DefaultContent(segs: seq<Json>): (r: seq<(string, Json)>)
    ensures forall k :: k in Keys(r) <==> k in SegmentKeys(segs)
    ensures forall k :: k in SegmentKeys(segs) ==> Get(r, k) == Some(JObj([]))
  {
    AssignAll([], SegmentKeys(segs), [], true)
  }

  /** `normalizeContent`: exactly the segment keys, each holding a copy of
      the stored object for that segment, or `{}`; other stored keys are
      dropped and non-object content counts as `{}`. */
  function NormalizeContent(segs: seq<Json>, content: Json): (r: seq<(string, Json)>)
    ensures forall k :: k in Keys(r) <==> k in SegmentKeys(segs)
    ensures forall k :: k in SegmentKeys(segs) ==> Get(r, k) == Some(CopyObject(Get(Incoming(content), k)))
  {
    AssignAll([], SegmentKeys(segs), Incoming(content), false)
  }

  /** `content && typeof content === 'object' ? content : {}`, reading only
      objects' own keys. */
  function Incoming(content: Json): seq<(string, Json)> {
    if content.JObj? then content.fields else []
  }

  /** `Object.assign(target, source)` for ordered objects. */
  function Assign(target: seq<(string, Json)>, source: seq<(string, Json)>): (r: seq<(string, Json)>)
    decreases |source|
  {
    if source == [] then target
    else Put(Assign(target, source[..|source| - 1]), source[|source| - 1].0, source[|source| - 1].1)
  }

  /** Assigning an object with distinct keys: its keys take its values, all
      other keys keep theirs. */
  lemma {:induction false} AssignGet(target: seq<(string, Json)>, source: seq<(string, Json)>, k: string)
    requires DistinctKeys(source)
    ensures Get(Assign(target, source), k) == if k in Keys(source) then Get(source, k) else Get(target, k)
    decreases |source|
  {
    if source != [] {
      var init := source[..|source| - 1];
      var last := source[|source| - 1];
      DropLast(source);
      AssignGet(target, init, k);
      PutGet(Assign(target, init), last.0, last.1, k);
      if k == last.0 {
        GetLast(source, k);
      } else if k in Keys(init) {
        GetPrefix(source, init, k);
      }
    }
  }

  /** Dropping the last pair keeps the keys distinct and removes exactly the
      last key. */
  lemma DropLast(m: seq<(string, Json)>)
    requires DistinctKeys(m) && m != []
    ensures var init := m[..|m| - 1];
            && DistinctKeys(init)
            && (forall x :: x in Keys(m) <==> x in Keys(init) || x == m[|m| - 1].0)
  {
    var init := m[..|m| - 1];
    assert forall i :: 0 <= i < |init| ==> init[i] == m[i];
    assert forall x :: x in Keys(m) <==> x in Keys(init) || x == m[|m| - 1].0 by {
      forall x | x in Keys(m) ensures x in Keys(init) || x == m[|m| - 1].0 {
        var i :| 0 <= i < |m| && Keys(m)[i] == x;
        if i < |init| {
          assert Keys(init)[i] == x;
        }
      }
    }
  }

  /** On a prefix holding the key, `Get` finds the same pair. */
  lemma {:induction false} GetPrefix(m: seq<(string, Json)>, p: seq<(string, Json)>, k: string)
    requires |p| <= |m| && p == m[..|p|] && k in Keys(p)
    ensures Get(m, k) == Get(p, k)
  {
    if m[0].0 != k {
      assert Keys(p) == [p[0].0] + Keys(p[1..]);
      GetPrefix(m[1..], p[1..], k);
    }
  }

  /** With distinct keys, the key of the last pair finds that pair. */
  lemma {:induction false} GetLast(m: seq<(string, Json)>, k: string)
    requires DistinctKeys(m) && m != [] && m[|m| - 1].0 == k
    ensures Get(m, k) == Some(m[|m| - 1].1)
  {
    if |m| > 1 {
      assert m[0].0 != k by {
        assert Keys(m)[0] != Keys(m)[|m| - 1];
      }
      assert DistinctKeys(m[1..]) by {
        assert forall i :: 0 <= i < |m| - 1 ==> Keys(m[1..])[i] == Keys(m)[i + 1];
      }
      GetLast(m[1..], k);
    }
  }

  /** `updateSegment(segment, key, value)`: the defaults overlaid with the
      content, and then field `key` of `segment` set. */
  function UpdateSegment(defaults: seq<(string, Json)>, content: seq<(string, Json)>,
                         segment: string, key: string, value: Json): (r: seq<(string, Json)>)
    ensures segment in Keys(r)
    ensures Get(r, segment).Some? && Get(r, segment).value.JObj?
    ensures Get(Get(r, segment).value.fields, key) == Some(value)
  {
    var next := Assign(defaults, content);
    var edited := Put(Incoming(CopyObject(Get(content, segment))), key, value);
    PutGet(next, segment, JObj(edited), segment);
    PutGet(Incoming(CopyObject(Get(content, segment))), key, value, key);
    Put(next, segment, JObj(edited))
  }

  /** Editing one field of one segment changes that field only: every other
      segment is what the content (or the defaults) held, and every other
      field of the edited segment is kept. */
  lemma UpdateSegmentFrame(defaults: seq<(string, Json)>, content: seq<(string, Json)>,
                           segment: string, key: string, value: Json, other: string, field: string)
    requires DistinctKeys(content)
    ensures var next := UpdateSegment(defaults, content, segment, key, value);
            && (other != segment ==>
                  Get(next, other) == if other in Keys(content) then Get(content, other) else Get(defaults, other))
            && Get(next, segment).Some? && Get(next, segment).value.JObj?
            && Get(Get(next, segment).value.fields, field) ==
                 if field == key then Some(value) else Get(Incoming(CopyObject(Get(content, segment))), field)
  {
    var next := Assign(defaults, content);
    var edited := JObj(Put(Incoming(CopyObject(Get(content, segment))), key, value));
    PutGet(next, segment, edited, other);
    PutGet(next, segment, edited, segment);
    AssignGet(defaults, content, other);
    PutGet(Incoming(CopyObject(Get(content, segment))), key, value, field);
  }
}
