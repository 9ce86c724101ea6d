/** The string operations the pages rely on: `String.prototype.trim`, a case
    fold standing in for `toLowerCase`, and an order standing in for
    `localeCompare`. */
module Text {

  /** The characters `trim` removes: ECMAScript WhiteSpace (tab, vertical tab,
      form feed, the byte-order mark and every Unicode space separator) and
      LineTerminator (line feed, carriage return, line and paragraph
      separator). */
  predicate IsSpace(c: char) {
    || c == '\t' || c == '\n' || c == '\U{000B}' || c == '\U{000C}' || c == '\r'
    || c == ' ' || c == '\U{00A0}' || c == '\U{1680}' || ('\U{2000}' <= c <= '\U{200A}')
    || c == '\U{2028}' || c == '\U{2029}' || c == '\U{202F}' || c == '\U{205F}'
    || c == '\U{3000}' || c == '\U{FEFF}'
  }

  /** True when every character of `s` is white space (vacuously for ""). */
  predicate Blank(s: string) {
    forall i :: 0 <= i < |s| ==> IsSpace(s[i])
  }

  /** `s` without its leading white space: a suffix of `s`. */
  function TrimStart(s: string): (r: string)
    ensures |r| <= |s| && r == s[|s| - |r|..]
    ensures forall i :: 0 <= i < |s| - |r| ==> IsSpace(s[i])
    ensures r != [] ==> !IsSpace(r[0])
    decreases |s|
  {
    if s != [] && IsSpace(s[0]) then TrimStart(s[1..]) else s
  }

  /** `s` without its trailing white space: a prefix of `s`. */
  function TrimEnd(s: string): (r: string)
    ensures |r| <= |s| && r == s[..|r|]
    ensures forall i :: |r| <= i < |s| ==> IsSpace(s[i])
    ensures r != [] ==> !IsSpace(r[|r| - 1])
    decreases |s|
  {
    if s != [] && IsSpace(s[|s| - 1]) then TrimEnd(s[..|s| - 1]) else s
  }

  /** `s.trim()`: `s` without the white space at both ends. It is empty
      exactly when `s` is blank, and otherwise neither starts nor ends with
      white space; `TrimMiddle` places it inside `s`. */
  function Trim(s: string): (r: string)
    ensures |r| <= |s|
    ensures r == [] <==> Blank(s)
    ensures r != [] ==> !IsSpace(r[0]) && !IsSpace(r[|r| - 1])
  {
    TrimEnd(TrimStart(s))
  }

  /** `r` is what is left of `s` from position `k` on once a blank prefix
      of length `k` and a blank suffix are cut off. */
  predicate MiddleAt(s: string, k: nat, r: string) {
    k <= |s| - |r| && r == s[k..k + |r|] && Blank(s[..k]) && Blank(s[k + |r|..])
  }

  /** `Trim(s)` is the middle of `s` left once a blank prefix and a blank
      suffix are cut off. */
  lemma TrimMiddle(s: string)
    ensures exists k :: MiddleAt(s, k, Trim(s))
  {
    var t := TrimStart(s);
    var r := TrimEnd(t);
    var k := |s| - |t|;
    CutPrefixBlank(s);
    CutSuffixBlank(t);
    assert r == Trim(s);
    assert s[k..k + |r|] == t[..|r|] == r;
    assert s[k + |r|..] == t[|r|..];
    assert MiddleAt(s, k, r);
  }

  /** What `TrimStart` cuts off is blank. */
  lemma CutPrefixBlank(s: string)
    ensures Blank(s[..|s| - |TrimStart(s)|])
  {
    var p := s[..|s| - |TrimStart(s)|];
    forall i | 0 <= i < |p| ensures IsSpace(p[i]) {
      assert p[i] == s[i];
    }
  }

  /** What `TrimEnd` cuts off is blank. */
  lemma CutSuffixBlank(s: string)
    ensures Blank(s[|TrimEnd(s)|..])
  {
    var n := |TrimEnd(s)|;
    var q := s[n..];
    forall i | 0 <= i < |q| ensures IsSpace(q[i]) {
      assert q[i] == s[n + i];
    }
  }

  /** Trimming a trimmed string changes nothing. */
  lemma TrimIdempotent(s: string)
    ensures Trim(Trim(s)) == Trim(s)
  {
    TrimOfTrimmed(Trim(s));
  }

  /** A string that is already trimmed is its own trim. */
  lemma TrimOfTrimmed(s: string)
    requires s != [] ==> !IsSpace(s[0]) && !IsSpace(s[|s| - 1])
    ensures Trim(s) == s
  {
    assert TrimStart(s) == s;
    assert TrimEnd(s) == s;
  }

  /** Lower-cases one character (ASCII letters only). */
  function FoldChar(c: char): char {
    if 'A' <= c <= 'Z' then (c as int + 32) as char else c
  }

  /** The case fold standing in for `toLowerCase`. */
  function Fold(s: string): (r: string)
    ensures |r| == |s|
  {
    seq(|s|, i requires 0 <= i < |s| => FoldChar(s[i]))
  }

  /** `a.toLowerCase() === b.toLowerCase()`. */
  predicate SameFold(a: string, b: string) {
    Fold(a) == Fold(b)
  }

  /** Strict lexicographic order by character code, standing in for
      `localeCompare`. */
  predicate LexLess(a: string, b: string)
    decreases |a|
  {
    b != [] && (a == [] || a[0] < b[0] || (a[0] == b[0] && LexLess(a[1..], b[1..])))
  }

  lemma {:induction false} LexIrreflexive(a: string)
    ensures !LexLess(a, a)
    decreases |a|
  {
    if a != [] {
      LexIrreflexive(a[1..]);
    }
  }

  lemma {:induction false} LexTransitive(a: string, b: string, c: string)
    requires LexLess(a, b) && LexLess(b, c)
    ensures LexLess(a, c)
    decreases |a|
  {
    if a != [] && a[0] == b[0] && b[0] == c[0] {
      LexTransitive(a[1..], b[1..], c[1..]);
    }
  }

  lemma {:induction false} LexTotal(a: string, b: string)
    ensures a == b || LexLess(a, b) || LexLess(b, a)
    decreases |a|
  {
    if a != [] && b != [] && a[0] == b[0] {
      LexTotal(a[1..], b[1..]);
      if a[1..] == b[1..] {
        assert a == [a[0]] + a[1..] && b == [b[0]] + b[1..];
      }
    }
  }

  lemma {:induction false} LexNotBoth(a: string, b: string)
    ensures !(LexLess(a, b) && LexLess(b, a))
    decreases |a|
  {
    if a != [] && b != [] && b[0] == a[0] {
      LexNotBoth(a[1..], b[1..]);
    }
  }
}
