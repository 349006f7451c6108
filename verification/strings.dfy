/** The string primitives of PHP and JavaScript the plugin relies on:
    trimming, ASCII case folding, run replacement, character filtering and
    splitting. Strings are sequences of code points. */
module Strings {

  /** Characters PHP's `trim()` strips by default. */
  predicate IsPhpTrimChar(c: char) {
    c == ' ' || c == '\t' || c == '\n' || c == '\r' || c == '\0' || c == '\U{000B}'
  }

  /** Characters matched by `\s` in PHP's PCRE2 patterns. */
  predicate IsPcreSpace(c: char) {
    c == ' ' || c == '\t' || c == '\n' || c == '\r' || c == '\U{000B}' || c == '\U{000C}'
  }

  /** JavaScript WhiteSpace and LineTerminator code points: what
      `String.prototype.trim` strips and what `/\s/` matches. */
  predicate IsJsSpace(c: char) {
    || c == '\t' || c == '\n' || c == '\U{000B}' || c == '\U{000C}' || c == '\r' || c == ' '
    || c == '\U{00A0}' || c == '\U{1680}' || ('\U{2000}' <= c <= '\U{200A}')
    || c == '\U{2028}' || c == '\U{2029}' || c == '\U{202F}' || c == '\U{205F}'
    || c == '\U{3000}' || c == '\U{FEFF}'
  }

  predicate IsAsciiUpper(c: char) { 'A' <= c <= 'Z' }
  predicate IsAsciiLower(c: char) { 'a' <= c <= 'z' }
  predicate IsDigit(c: char) { '0' <= c <= '9' }

  /** Drops the leading characters for which `strip` holds. */
  function TrimLeft(s: string, strip: char -> bool): (r: string)
    ensures |r| <= |s| && r == s[|s| - |r|..]
    ensures r != [] ==> !strip(r[0])
    ensures forall i :: 0 <= i < |s| - |r| ==> strip(s[i])
  {
    if s != [] && strip(s[0]) then TrimLeft(s[1..], strip) else s
  }

  /** Drops the trailing characters for which `strip` holds. */
  function TrimRight(s: string, strip: char -> bool): (r: string)
    ensures |r| <= |s| && r == s[..|r|]
    ensures r != [] ==> !strip(r[|r| - 1])
    ensures forall i :: |r| <= i < |s| ==> strip(s[i])
  {
    if s != [] && strip(s[|s| - 1]) then TrimRight(s[..|s| - 1], strip) else s
  }

  function Trim(s: string, strip: char -> bool): string {
    TrimRight(TrimLeft(s, strip), strip)
  }

  /** PHP `trim($s)`. */
  function PhpTrim(s: string): string {
    Trim(s, IsPhpTrimChar)
  }

  /** `TrimLeft` drops exactly `n` characters when those are strippable and
      the next one is not. */
  lemma {:induction false} TrimLeftAt(s: string, strip: char -> bool, n: nat)
    requires n <= |s| && (n == |s| || !strip(s[n]))
    requires forall i :: 0 <= i < n ==> strip(s[i])
    ensures TrimLeft(s, strip) == s[n..]
  {
    if n > 0 {
      assert strip(s[0]);
      assert forall i :: 0 <= i < n - 1 ==> s[1..][i] == s[i + 1];
      TrimLeftAt(s[1..], strip, n - 1);
      assert s[1..][n - 1..] == s[n..];
    }
  }

  /** `TrimRight` keeps exactly `n` characters when the rest are strippable
      and the `n`-th is not. */
  lemma {:induction false} TrimRightAt(s: string, strip: char -> bool, n: nat)
    requires n <= |s| && (n == 0 || !strip(s[n - 1]))
    requires forall i :: n <= i < |s| ==> strip(s[i])
    ensures TrimRight(s, strip) == s[..n]
  {
    if n < |s| {
      var t := s[..|s| - 1];
      assert strip(s[|s| - 1]);
      assert forall i :: n <= i < |t| ==> t[i] == s[i];
      TrimRightAt(t, strip, n);
      assert t[..n] == s[..n];
    }
  }

  /** A string whose ends carry no strippable character trims to itself. */
  lemma TrimNoop(s: string, strip: char -> bool)
    requires s != [] ==> !strip(s[0]) && !strip(s[|s| - 1])
    ensures Trim(s, strip) == s
  {
  }

  /** Lower-cases ASCII letters only, as PHP 8's `strtolower` does. */
  function LowerChar(c: char): char {
    if IsAsciiUpper(c) then (c as int - 'A' as int + 'a' as int) as char else c
  }

  function Lower(s: string): (r: string)
    ensures |r| == |s|
    ensures forall i :: 0 <= i < |s| ==> r[i] == LowerChar(s[i])
  {
    seq(|s|, i requires 0 <= i < |s| => LowerChar(s[i]))
  }

  /** Replaces every maximal run of `sep` characters by the one character
      `rep` (`preg_replace('/\s+/', '_', $s)`). */
  function ReplaceRuns(s: string, sep: char -> bool, rep: char): (r: string)
    requires !sep(rep)
    ensures forall i :: 0 <= i < |r| ==> !sep(r[i])
    ensures forall i :: 0 <= i < |r| ==> r[i] == rep || r[i] in s
    ensures |r| <= |s|
  {
    if s == [] then []
    else if sep(s[0]) then [rep] + ReplaceRuns(TrimLeft(s[1..], sep), sep, rep)
    else [s[0]] + ReplaceRuns(s[1..], sep, rep)
  }

  /** Every character that is not a separator survives the replacement. */
  lemma {:induction false} ReplaceRunsKeeps(s: string, sep: char -> bool, rep: char, c: char)
    requires !sep(rep) && !sep(c) && c in s
    ensures c in ReplaceRuns(s, sep, rep)
  {
    if s[0] == c {
      assert ReplaceRuns(s, sep, rep) == [c] + ReplaceRuns(s[1..], sep, rep);
    } else if sep(s[0]) {
      var t := TrimLeft(s[1..], sep);
      assert ReplaceRuns(s, sep, rep) == [rep] + ReplaceRuns(t, sep, rep);
      assert c in s[1..];
      TrimLeftKeeps(s[1..], sep, c);
      ReplaceRunsKeeps(t, sep, rep, c);
    } else {
      assert ReplaceRuns(s, sep, rep) == [s[0]] + ReplaceRuns(s[1..], sep, rep);
      assert c in s[1..];
      ReplaceRunsKeeps(s[1..], sep, rep, c);
    }
  }

  /** The replacement brings in no character but `rep`. */
  lemma {:induction false} ReplaceRunsAdds(s: string, sep: char -> bool, rep: char, x: char)
    requires !sep(rep) && x != rep && x !in s
    ensures x !in ReplaceRuns(s, sep, rep)
  {
    if s != [] {
      var tail := if sep(s[0]) then TrimLeft(s[1..], sep) else s[1..];
      assert ReplaceRuns(s, sep, rep) == [if sep(s[0]) then rep else s[0]] + ReplaceRuns(tail, sep, rep);
      assert s[0] in s;
      NotInSuffix(s, |s| - |tail|, x);
      ReplaceRunsAdds(tail, sep, rep, x);
    }
  }

  /** A character that is not stripped survives `TrimLeft`. */
  lemma {:induction false} TrimLeftKeeps(s: string, strip: char -> bool, c: char)
    requires !strip(c) && c in s
    ensures c in TrimLeft(s, strip)
  {
    if strip(s[0]) {
      assert c in s[1..];
      TrimLeftKeeps(s[1..], strip, c);
    }
  }

  /** A string with no `sep` character is left as it is. */
  lemma {:induction false} ReplaceRunsNoop(s: string, sep: char -> bool, rep: char)
    requires !sep(rep)
    requires forall i :: 0 <= i < |s| ==> !sep(s[i])
    ensures ReplaceRuns(s, sep, rep) == s
  {
    if s != [] {
      ReplaceRunsNoop(s[1..], sep, rep);
    }
  }

  /** Leaving out the separators and the replacement character, the
      replacement keeps every other character, in order. */
  lemma {:induction false} FilterReplaceRuns(s: string, sep: char -> bool, rep: char, keep: char -> bool)
    requires !sep(rep) && !keep(rep)
    requires forall c :: sep(c) ==> !keep(c)
    ensures Filter(ReplaceRuns(s, sep, rep), keep) == Filter(s, keep)
  {
    if s != [] {
      if sep(s[0]) {
        var t := TrimLeft(s[1..], sep);
        assert ReplaceRuns(s, sep, rep) == [rep] + ReplaceRuns(t, sep, rep);
        assert ([rep] + ReplaceRuns(t, sep, rep))[1..] == ReplaceRuns(t, sep, rep);
        FilterReplaceRuns(t, sep, rep, keep);
        FilterTrimLeft(s[1..], sep, keep);
      } else {
        assert ReplaceRuns(s, sep, rep) == [s[0]] + ReplaceRuns(s[1..], sep, rep);
        assert ([s[0]] + ReplaceRuns(s[1..], sep, rep))[1..] == ReplaceRuns(s[1..], sep, rep);
        FilterReplaceRuns(s[1..], sep, rep, keep);
      }
    }
  }

  /** Stripping characters that are not kept does not change the filter. */
  lemma {:induction false} FilterTrimLeft(s: string, strip: char -> bool, keep: char -> bool)
    requires forall c :: strip(c) ==> !keep(c)
    ensures Filter(TrimLeft(s, strip), keep) == Filter(s, keep)
  {
    if s != [] && strip(s[0]) {
      FilterTrimLeft(s[1..], strip, keep);
    }
  }

  /** No two neighbouring characters of `r` are both `rep`. */
  predicate NoDoubled(r: string, rep: char) {
    forall i :: 0 <= i < |r| - 1 ==> r[i] != rep || r[i + 1] != rep
  }

  /** When `s` has no `rep`, the replacement never has two in a row: every
      run of separators becomes exactly one `rep`. */
  lemma {:induction false} ReplaceRunsSingle(s: string, sep: char -> bool, rep: char)
    requires !sep(rep) && rep !in s
    ensures NoDoubled(ReplaceRuns(s, sep, rep), rep)
  {
    if s != [] {
      if sep(s[0]) {
        var tail := TrimLeft(s[1..], sep);
        NotInSuffix(s, |s| - |tail|, rep);
        ReplaceRunsSingle(tail, sep, rep);
        ReplaceRunsHead(tail, sep, rep);
        ConsNoDoubled(rep, ReplaceRuns(tail, sep, rep), rep);
      } else {
        NotInSuffix(s, 1, rep);
        ReplaceRunsSingle(s[1..], sep, rep);
        assert s[0] in s;
        ConsNoDoubled(s[0], ReplaceRuns(s[1..], sep, rep), rep);
      }
    }
  }

  /** A replacement of a string that starts with a kept character starts
      with that character, which is not `rep`. */
  lemma ReplaceRunsHead(t: string, sep: char -> bool, rep: char)
    requires !sep(rep) && rep !in t && (t == [] || !sep(t[0]))
    ensures ReplaceRuns(t, sep, rep) == [] || ReplaceRuns(t, sep, rep)[0] != rep
  {
    if t != [] {
      assert ReplaceRuns(t, sep, rep) == [t[0]] + ReplaceRuns(t[1..], sep, rep);
      assert t[0] in t;
    }
  }

  lemma ConsNoDoubled(first: char, rest: string, rep: char)
    requires NoDoubled(rest, rep)
    requires first == rep ==> rest == [] || rest[0] != rep
    ensures NoDoubled([first] + rest, rep)
  {
    var r := [first] + rest;
    forall i | 0 <= i < |r| - 1 ensures r[i] != rep || r[i + 1] != rep {
      if i > 0 {
        assert r[i] == rest[i - 1] && r[i + 1] == rest[i];
      }
    }
  }

  /** What a string lacks, its suffixes lack too. */
  lemma NotInSuffix(s: string, k: int, x: char)
    requires 0 <= k <= |s| && x !in s
    ensures x !in s[k..]
  {
  }

  /** Replacing one character by another that is not kept either leaves the
      filter as it was. */
  lemma {:induction false} FilterReplaceChar(s: string, a: char, b: char, keep: char -> bool)
    requires !keep(a) && !keep(b)
    ensures Filter(ReplaceChar(s, a, b), keep) == Filter(s, keep)
  {
    if s != [] {
      assert ReplaceChar(s, a, b)[1..] == ReplaceChar(s[1..], a, b);
      FilterReplaceChar(s[1..], a, b, keep);
    }
  }

  /** Replaces every occurrence of `a` by `b` (`str_replace` on one character). */
  function ReplaceChar(s: string, a: char, b: char): (r: string)
    ensures |r| == |s|
    ensures forall i :: 0 <= i < |s| ==> r[i] == if s[i] == a then b else s[i]
    ensures a != b ==> a !in r
  {
    seq(|s|, i requires 0 <= i < |s| => if s[i] == a then b else s[i])
  }

  /** Replacing a character that does not occur changes nothing. */
  lemma ReplaceCharAbsent(s: string, a: char, b: char)
    requires a !in s
    ensures ReplaceChar(s, a, b) == s
  {
    forall i | 0 <= i < |s| ensures ReplaceChar(s, a, b)[i] == s[i] {
      assert s[i] in s;
    }
  }

  /** Keeps the characters for which `keep` holds, in order. */
  function Filter(s: string, keep: char -> bool): (r: string)
    ensures forall i :: 0 <= i < |r| ==> keep(r[i]) && r[i] in s
    ensures |r| <= |s|
  {
    if s == [] then [] else (if keep(s[0]) then [s[0]] else []) + Filter(s[1..], keep)
  }

  /** Filtering distributes over concatenation. */
  lemma {:induction false} FilterAppend(a: string, b: string, keep: char -> bool)
    ensures Filter(a + b, keep) == Filter(a, keep) + Filter(b, keep)
  {
    if a == [] {
      assert a + b == b;
    } else {
      assert (a + b)[0] == a[0];
      assert (a + b)[1..] == a[1..] + b;
      FilterAppend(a[1..], b, keep);
    }
  }

  /** Filtering a string all of whose characters are kept changes nothing. */
  lemma {:induction false} FilterNoop(s: string, keep: char -> bool)
    requires forall i :: 0 <= i < |s| ==> keep(s[i])
    ensures Filter(s, keep) == s
  {
    if s != [] {
      FilterNoop(s[1..], keep);
    }
  }

  /** Splits at every separator character (`explode` with a one-character
      delimiter, or `String.split`): n separators give n + 1 pieces. */
  function Split(s: string, sep: char -> bool): (r: seq<string>)
    ensures |r| >= 1
    ensures forall i, j :: 0 <= i < |r| && 0 <= j < |r[i]| ==> !sep(r[i][j])
  {
    if s == [] then [""]
    else
      var rest := Split(s[1..], sep);
      if sep(s[0]) then [""] + rest else [[s[0]] + rest[0]] + rest[1..]
  }

  /** A string without separators is one piece. */
  lemma {:induction false} SplitNone(s: string, sep: char -> bool)
    requires forall i :: 0 <= i < |s| ==> !sep(s[i])
    ensures Split(s, sep) == [s]
  {
    if s != [] {
      SplitNone(s[1..], sep);
      assert [s[0]] + s[1..] == s;
    }
  }

  /** Splitting `a + [c] + b` at a separator `c`, with none in `a`, gives
      `a` and then the pieces of `b`. */
  lemma {:induction false} SplitFirst(a: string, c: char, b: string, sep: char -> bool)
    requires sep(c)
    requires forall i :: 0 <= i < |a| ==> !sep(a[i])
    ensures Split(a + [c] + b, sep) == [a] + Split(b, sep)
  {
    if a == [] {
      assert (a + [c] + b)[1..] == b;
    } else {
      assert (a + [c] + b)[1..] == a[1..] + [c] + b;
      SplitFirst(a[1..], c, b, sep);
      assert [a[0]] + a[1..] == a;
    }
  }

  /** Splits at every maximal run of separator characters (`preg_split` with
      a `[...]+` pattern): like `Split`, but the empty pieces between two
      adjacent separators disappear. Leading and trailing empty pieces stay. */
  function SplitRuns(s: string, sep: char -> bool): (r: seq<string>)
    ensures |r| >= 1
    ensures forall i, j :: 0 <= i < |r| && 0 <= j < |r[i]| ==> !sep(r[i][j])
  {
    var p := Split(s, sep);
    if |p| <= 2 then p
    else [p[0]] + NonEmpty(p[1..|p| - 1]) + [p[|p| - 1]]
  }

  /** The non-empty strings of `xs`, in order. */
  function NonEmpty(xs: seq<string>): (r: seq<string>)
    ensures forall i :: 0 <= i < |r| ==> r[i] != [] && r[i] in xs
    ensures forall x :: x in xs && x != [] ==> x in r
  {
    if xs == [] then []
    else (if xs[0] != [] then [xs[0]] else []) + NonEmpty(xs[1..])
  }

  /** The index of the first occurrence of the two characters `a` `b` in
      `s`, or -1 (`strpos`). */
  function FindPair(s: string, a: char, b: char): (r: int)
    ensures r == -1 || 0 <= r <= |s| - 2
    ensures r >= 0 ==> s[r] == a && s[r + 1] == b
    ensures r >= 0 ==> forall i :: 0 <= i < r ==> !(s[i] == a && s[i + 1] == b)
    ensures r == -1 ==> forall i :: 0 <= i < |s| - 1 ==> !(s[i] == a && s[i + 1] == b)
  {
    if |s| < 2 then -1
    else if s[0] == a && s[1] == b then 0
    else
      var k := FindPair(s[1..], a, b);
      if k == -1 then -1 else k + 1
  }

  /** `$s` ends with `suffix`. */
  predicate EndsWith(s: string, suffix: string) {
    |suffix| <= |s| && s[|s| - |suffix|..] == suffix
  }

  /** Joins `xs` with `sep` between neighbours (`Array.prototype.join`). */
  function Join(xs: seq<string>, sep: string): string {
    if xs == [] then ""
    else if |xs| == 1 then xs[0]
    else xs[0] + sep + Join(xs[1..], sep)
  }
}
