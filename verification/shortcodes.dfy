/** includes/shortcodes.php: the `[mp_dynamic]` shortcode (also registered
    as `[tcp_dynamic]`) prints a placeholder element that the browser fills
    from the personalization payload. */
module Shortcodes {
  import opened Options
  import opened Strings
  import opened OrderedMap
  import Wp

  /** `[A-Za-z0-9-]`, the characters a tag name keeps. */
  predicate IsTagChar(c: char) { IsAsciiLower(c) || IsAsciiUpper(c) || IsDigit(c) || c == '-' }

  /** What the placeholder is made of, before escaping. */
  datatype Placeholder = Placeholder(tag: string, key: string, fallback: string)

  /** The attributes after `shortcode_atts`: only `key`, `default` and `tag`,
      with `''`, `''` and `span` when missing. */
  function Attribute(atts: seq<(string, string)>, name: string, byDefault: string): string {
    Get(atts, name).GetOr(byDefault)
  }

  /** The placeholder the shortcode prints, or `None` (an empty string) when
      the key is blank. */
  function PlaceholderFor(atts: seq<(string, string)>): (r: Option<Placeholder>)
    ensures r.None? <==> PhpTrim(Attribute(atts, "key", "")) == ""
    ensures r.Some? ==> r.value.key == PhpTrim(Attribute(atts, "key", "")) && r.value.key != ""
    ensures r.Some? ==> r.value.tag != "" && forall i :: 0 <= i < |r.value.tag| ==> IsTagChar(r.value.tag[i])
    ensures r.Some? ==> r.value.fallback == Attribute(atts, "default", "")
  {
    var key := PhpTrim(Attribute(atts, "key", ""));
    if key == "" then None
    else Some(Placeholder(TagName(Attribute(atts, "tag", "span")), key, Attribute(atts, "default", "")))
  }

  /** The tag with every character outside `[A-Za-z0-9-]` removed, or `span`
      when none is left. */
  function TagName(raw: string): (t: string)
    ensures t != [] && forall i :: 0 <= i < |t| ==> IsTagChar(t[i])
    ensures (raw != [] && forall i :: 0 <= i < |raw| ==> IsTagChar(raw[i])) ==> t == raw
  {
    var kept := Filter(raw, IsTagChar);
    if kept == [] then
      assert !(raw != [] && forall i :: 0 <= i < |raw| ==> IsTagChar(raw[i])) by {
        if raw != [] && forall i :: 0 <= i < |raw| ==> IsTagChar(raw[i]) {
          FilterNoop(raw, IsTagChar);
        }
      }
      "span"
    else
      assert (raw != [] && forall i :: 0 <= i < |raw| ==> IsTagChar(raw[i])) ==> kept == raw by {
        if raw != [] && forall i :: 0 <= i < |raw| ==> IsTagChar(raw[i]) {
          FilterNoop(raw, IsTagChar);
        }
      }
      kept
  }

  /** `mp_shortcode_dynamic`: nothing for a blank key; otherwise an element
      opened and closed with the same escaped tag name, whose `data-mp-key`
      is the trimmed key, whose `data-mp-default` is the default text, and
      whose body is that default text HTML-escaped. */
  function MpShortcodeDynamic(atts: seq<(string, string)>, wp: Wp.Library): (r: string)
    ensures PhpTrim(Attribute(atts, "key", "")) == "" <==> r == ""
    ensures r != "" ==> var name := wp.escAttr(PlaceholderFor(atts).value.tag);
                        StartsWith(r, "<" + name + " ") && EndsWith(r, "</" + name + ">")
    ensures r != "" ==>
              var name := wp.escAttr(TagName(Attribute(atts, "tag", "span")));
              var fallback := Attribute(atts, "default", "");
              r == ("<" + name + " ")
                   + ("class=\"mp-dynamic\" data-mp-key=\"" + wp.escAttr(PhpTrim(Attribute(atts, "key", "")))
                      + "\" data-mp-default=\"" + wp.escAttr(fallback) + "\">" + wp.escHtml(fallback))
                   + ("</" + name + ">")
  {
    match PlaceholderFor(atts)
    case None => ""
    case Some(p) =>
      var name := wp.escAttr(p.tag);
      var open := "<" + name + " ";
      var close := "</" + name + ">";
      var middle := "class=\"mp-dynamic\" data-mp-key=\"" + wp.escAttr(p.key)
        + "\" data-mp-default=\"" + wp.escAttr(p.fallback) + "\">" + wp.escHtml(p.fallback);
      Framed(open, middle, close);
      open + middle + close
  }

  predicate StartsWith(s: string, prefix: string) {
    |prefix| <= |s| && s[..|prefix|] == prefix
  }

  lemma Framed(open: string, middle: string, close: string)
    ensures StartsWith(open + middle + close, open) && EndsWith(open + middle + close, close)
  {
    var s := open + middle + close;
    assert s[..|open|] == open;
    assert s[|s| - |close|..] == close;
  }

  /** Feeding a placeholder's own key, default and tag back into the
      shortcode gives the same placeholder. */
  lemma PlaceholderIsStable(atts: seq<(string, string)>)
    requires PlaceholderFor(atts).Some?
    ensures var p := PlaceholderFor(atts).value;
            PlaceholderFor([("key", p.key), ("default", p.fallback), ("tag", p.tag)]) == Some(p)
  {
    var p := PlaceholderFor(atts).value;
    var again := [("key", p.key), ("default", p.fallback), ("tag", p.tag)];
    ThreeAttributes(p.key, p.fallback, p.tag);
    KeyIsTrimmed(Attribute(atts, "key", ""));
  }

  /** Rendering again from a placeholder's own key, default and tag prints
      the same element. */
  lemma RenderIsStable(atts: seq<(string, string)>, wp: Wp.Library)
    requires PlaceholderFor(atts).Some?
    ensures var p := PlaceholderFor(atts).value;
            MpShortcodeDynamic([("key", p.key), ("default", p.fallback), ("tag", p.tag)], wp)
            == MpShortcodeDynamic(atts, wp)
  {
    PlaceholderIsStable(atts);
  }

  lemma ThreeAttributes(key: string, fallback: string, tag: string)
    ensures var atts := [("key", key), ("default", fallback), ("tag", tag)];
            Attribute(atts, "key", "") == key && Attribute(atts, "default", "") == fallback
            && Attribute(atts, "tag", "span") == tag
  {
    var atts := [("key", key), ("default", fallback), ("tag", tag)];
    assert "key"[0] != "default"[0] && "key"[0] != "tag"[0] && "default"[0] != "tag"[0];
    assert "key" != "default" && "key" != "tag" && "default" != "tag";
    assert atts[1..] == [("default", fallback), ("tag", tag)];
    assert atts[1..][1..] == [("tag", tag)];
    assert Get(atts, "default") == Get(atts[1..], "default");
    assert Get(atts, "tag") == Get(atts[1..], "tag") == Get(atts[1..][1..], "tag");
  }

  /** Trimming a trimmed key changes nothing. */
  lemma KeyIsTrimmed(raw: string)
    ensures PhpTrim(PhpTrim(raw)) == PhpTrim(raw)
  {
    TrimNoop(PhpTrim(raw), IsPhpTrimChar);
  }
}
