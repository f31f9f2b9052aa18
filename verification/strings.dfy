/** The JavaScript string operations the editors rely on: `split` on a
    one-character separator, its inverse `join`, and `trim`. */
module Strings {
  import opened Seqs

  /** The characters `String.prototype.trim` removes: ECMAScript WhiteSpace
      (tab, vertical tab, form feed, no-break space, byte-order mark and the
      Unicode space separators) and LineTerminator characters. */
  predicate IsSpace(c: char) {
    c == '\t' || c == '\n' || c == '\U{B}' || c == '\U{C}' || c == '\r'
    || c == ' ' || c == '\U{A0}' || c == '\U{1680}'
    || ('\U{2000}' <= c <= '\U{200A}')
    || c == '\U{2028}' || c == '\U{2029}' || c == '\U{202F}' || c == '\U{205F}'
    || c == '\U{3000}' || c == '\U{FEFF}'
  }

  /** The index of the first non-space character at or after `i`
      (`|s|` when there is none). */
  function SkipSpace(s: string, i: nat): (k: nat)
    requires i <= |s|
    ensures i <= k <= |s|
    ensures forall j :: i <= j < k ==> IsSpace(s[j])
    ensures k < |s| ==> !IsSpace(s[k])
    decreases |s| - i
  {
    if i < |s| && IsSpace(s[i]) then SkipSpace(s, i + 1) else i
  }

  /** The end of `s[lo..e]` once its trailing space is dropped. */
  function DropTrailingSpace(s: string, lo: nat, e: nat): (k: nat)
    requires lo <= e <= |s|
    ensures lo <= k <= e
    ensures forall j :: k <= j < e ==> IsSpace(s[j])
    ensures k > lo ==> !IsSpace(s[k - 1])
  {
    if e > lo && IsSpace(s[e - 1]) then DropTrailingSpace(s, lo, e - 1) else e
  }

  /** `s.trim()`: what remains of `s` once its leading and its trailing
      white space are removed. */
  function Trim(s: string): (r: string)
    ensures var k := SkipSpace(s, 0);
      k + |r| <= |s| && s[k..k + |r|] == r
      && (forall j :: 0 <= j < k ==> IsSpace(s[j]))
      && (forall j :: k + |r| <= j < |s| ==> IsSpace(s[j]))
    ensures r == "" || (!IsSpace(r[0]) && !IsSpace(r[|r| - 1]))
    ensures r == "" <==> forall j :: 0 <= j < |s| ==> IsSpace(s[j])
  {
    var k := SkipSpace(s, 0);
    var e := DropTrailingSpace(s, k, |s|);
    s[k..e]
  }

  /** `s.split(sep)` for a one-character separator: the pieces between
      separators, one more piece than there are separators. */
  function Split(s: string, sep: char): (r: seq<string>)
    ensures |r| == Count(sep, s) + 1
    ensures forall i :: 0 <= i < |r| ==> sep !in r[i]
  {
    if |s| == 0 then [""]
    else
      var rest := Split(s[1..], sep);
      if s[0] == sep then [""] + rest
      else [[s[0]] + rest[0]] + rest[1..]
  }

  /** `parts.join(sep)`. */
  function Join(parts: seq<string>, sep: char): string
    requires |parts| > 0
  {
    if |parts| == 1 then parts[0]
    else parts[0] + [sep] + Join(parts[1..], sep)
  }

  lemma {:induction false} JoinConsHead(c: char, parts: seq<string>, sep: char)
    requires |parts| > 0
    ensures Join([[c] + parts[0]] + parts[1..], sep) == [c] + Join(parts, sep)
  {
    var ps := [[c] + parts[0]] + parts[1..];
    assert ps[1..] == parts[1..];
  }

  /** Splitting and joining back gives the original text. */
  lemma {:induction false} JoinSplit(s: string, sep: char)
    ensures Join(Split(s, sep), sep) == s
  {
    if |s| > 0 {
      var rest := Split(s[1..], sep);
      JoinSplit(s[1..], sep);
      if s[0] == sep {
        assert ([""] + rest)[1..] == rest;
      } else {
        JoinConsHead(s[0], rest, sep);
      }
      assert s == [s[0]] + s[1..];
    }
  }

  /** Joining separator-free pieces and splitting again gives the pieces. */
  lemma {:induction false} SplitJoin(parts: seq<string>, sep: char)
    requires |parts| > 0
    requires forall i :: 0 <= i < |parts| ==> sep !in parts[i]
    ensures Split(Join(parts, sep), sep) == parts
  {
    if |parts| == 1 {
      SplitPlain(parts[0], sep);
    } else {
      SplitJoin(parts[1..], sep);
      SplitPrefix(parts[0], Join(parts[1..], sep), sep);
      assert parts == [parts[0]] + parts[1..];
    }
  }

  lemma {:induction false} SplitPlain(p: string, sep: char)
    requires sep !in p
    ensures Split(p, sep) == [p]
  {
    if |p| > 0 {
      SplitPlain(p[1..], sep);
      assert p == [p[0]] + p[1..];
    }
  }

  lemma {:induction false} SplitPrefix(p: string, rest: string, sep: char)
    requires sep !in p
    ensures Split(p + [sep] + rest, sep) == [p] + Split(rest, sep)
  {
    if |p| == 0 {
      assert p + [sep] + rest == [sep] + rest;
      assert ([sep] + rest)[1..] == rest;
    } else {
      var t := p + [sep] + rest;
      assert t[0] == p[0];
      assert t[1..] == p[1..] + [sep] + rest;
      SplitPrefix(p[1..], rest, sep);
      assert p == [p[0]] + p[1..];
    }
  }
}
