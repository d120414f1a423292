/** The few Python string primitives the integration code relies on:
    str.strip(), str.replace() of one character, str.lower(), str.rfind(),
    posixpath.splitext(), the slice s[:k] for any integer k, and the
    decimal rendering of a natural number used by f-strings. */
module Strings {

  /** Python's str.isspace() for one character: the characters that
      str.strip() with no argument removes. */
  predicate IsSpace(c: char) {
    || ('\U{09}' <= c <= '\U{0D}')
    || ('\U{1C}' <= c <= '\U{20}')
    || c == '\U{85}' || c == '\U{A0}' || c == '\U{1680}'
    || ('\U{2000}' <= c <= '\U{200A}')
    || c == '\U{2028}' || c == '\U{2029}' || c == '\U{202F}'
    || c == '\U{205F}' || c == '\U{3000}'
  }

  /** Number of whitespace characters at the start of s. */
  function LeadingSpaces(s: string): (n: nat)
    ensures n <= |s|
    ensures forall i :: 0 <= i < n ==> IsSpace(s[i])
    ensures n < |s| ==> !IsSpace(s[n])
  {
    if |s| > 0 && IsSpace(s[0]) then 1 + LeadingSpaces(s[1..]) else 0
  }

  /** str.strip(): s without its leading and trailing whitespace, removed
      one character at a time from the front and then from the back. */
  function Strip(s: string): (r: string)
    ensures |r| <= |s|
    decreases |s|
  {
    if s != [] && IsSpace(s[0]) then Strip(s[1..])
    else if s != [] && IsSpace(s[|s| - 1]) then Strip(s[..|s| - 1])
    else s
  }

  /** What Strip returns neither starts nor ends with whitespace. */
  lemma {:induction false} StripEnds(s: string)
    ensures var r := Strip(s); r != [] ==> !IsSpace(r[0]) && !IsSpace(r[|r| - 1])
    decreases |s|
  {
    if s != [] && IsSpace(s[0]) {
      StripEnds(s[1..]);
    } else if s != [] && IsSpace(s[|s| - 1]) {
      StripEnds(s[..|s| - 1]);
    }
  }

  /** What Strip returns is the part of s after its leading whitespace, and
      all of s outside that part is whitespace. */
  lemma {:induction false} StripWindow(s: string)
    ensures var r, k := Strip(s), LeadingSpaces(s);
      && k + |r| <= |s|
      && r == s[k..k + |r|]
      && forall i :: 0 <= i < |s| && (i < k || k + |r| <= i) ==> IsSpace(s[i])
    decreases |s|
  {
    if s != [] && IsSpace(s[0]) {
      var t := s[1..];
      StripWindow(t);
      assert LeadingSpaces(s) == 1 + LeadingSpaces(t);
      assert forall i :: 1 <= i < |s| ==> s[i] == t[i - 1];
    } else if s != [] && IsSpace(s[|s| - 1]) {
      var t := s[..|s| - 1];
      StripWindow(t);
      assert |s| >= 2 && t[0] == s[0];
      assert LeadingSpaces(s) == 0 && LeadingSpaces(t) == 0;
      assert forall i :: 0 <= i < |t| ==> s[i] == t[i];
    } else {
      assert LeadingSpaces(s) == 0;
    }
  }

  /** Strip removes exactly the whitespace at both ends: what it returns is
      a contiguous part of s that neither starts nor ends with whitespace,
      empty only for an all-whitespace s, and everything cut off is whitespace. */
  lemma StripTrims(s: string)
    ensures var r := Strip(s);
      && (r == [] <==> forall i :: 0 <= i < |s| ==> IsSpace(s[i]))
      && (r != [] ==> !IsSpace(r[0]) && !IsSpace(r[|r| - 1]))
      && LeadingSpaces(s) + |r| <= |s|
      && r == s[LeadingSpaces(s)..LeadingSpaces(s) + |r|]
      && forall i :: 0 <= i < |s| && (i < LeadingSpaces(s) || LeadingSpaces(s) + |r| <= i) ==> IsSpace(s[i])
  {
    StripEnds(s);
    StripWindow(s);
    var r, k := Strip(s), LeadingSpaces(s);
    if r != [] {
      assert r[0] == s[k];
    }
  }

  /** A string with no whitespace at either end is its own strip. */
  lemma StripUnchanged(s: string)
    requires s != [] && !IsSpace(s[0]) && !IsSpace(s[|s| - 1])
    ensures Strip(s) == s
  {
  }

  /** Stripping a stripped string changes nothing. */
  lemma StripIdempotent(s: string)
    ensures Strip(Strip(s)) == Strip(s)
  {
    StripTrims(s);
  }

  /** str.replace(from, to) where both are single characters. */
  function Replace(s: string, from: char, to: char): (r: string)
    ensures |r| == |s|
    ensures forall i :: 0 <= i < |s| ==> r[i] == if s[i] == from then to else s[i]
  {
    if s == [] then [] else [if s[0] == from then to else s[0]] + Replace(s[1..], from, to)
  }

  /** str.replace(c, ''): every occurrence of c deleted, the rest kept in order. */
  function Remove(s: string, c: char): (r: string)
    ensures |r| <= |s|
    ensures multiset(r) == multiset(s)[c := 0]
    ensures c !in s ==> r == s
    decreases |s|
  {
    if s == [] then []
    else
      assert s == [s[0]] + s[1..];
      (if s[0] == c then [] else [s[0]]) + Remove(s[1..], c)
  }

  /** Concatenation is associative. */
  lemma AppendAssoc(x: string, y: string, z: string)
    ensures x + (y + z) == (x + y) + z
  {
  }

  /** Deleting from a string with a known first character. */
  lemma RemoveCons(x: char, s: string, c: char)
    ensures Remove([x] + s, c) == (if x == c then [] else [x]) + Remove(s, c)
  {
    assert ([x] + s)[1..] == s;
  }

  /** Deleting from a concatenation deletes from each part, so the kept
      characters stay in their order. */
  lemma {:induction false} RemoveAppend(a: string, b: string, c: char)
    ensures Remove(a + b, c) == Remove(a, c) + Remove(b, c)
    decreases |a|
  {
    if a == [] {
      assert a + b == b;
    } else {
      var x, t := a[0], a[1..];
      var h: string := if x == c then [] else [x];
      assert a == [x] + t;
      assert a + b == [x] + (t + b);
      RemoveCons(x, t + b, c);
      RemoveCons(x, t, c);
      RemoveAppend(t, b, c);
      AppendAssoc(h, Remove(t, c), Remove(b, c));
    }
  }

  /** Replacing in a concatenation replaces in each part. */
  lemma ReplaceAppend(a: string, b: string, from: char, to: char)
    ensures Replace(a + b, from, to) == Replace(a, from, to) + Replace(b, from, to)
  {
    var ab := a + b;
    assert forall i :: |a| <= i < |ab| ==> ab[i] == b[i - |a|];
  }

  /** A character that is neither the replaced one's substitute nor in the
      string does not appear after the replacement. */
  lemma ReplaceAbsent(s: string, from: char, to: char, c: char)
    requires c != to && c !in s
    ensures c !in Replace(s, from, to)
  {
    var r := Replace(s, from, to);
    forall i | 0 <= i < |r|
      ensures r[i] != c
    {
      assert s[i] in s;
    }
  }

  /** str.lower() restricted to ASCII letters. */
  function LowerChar(c: char): char {
    if 'A' <= c <= 'Z' then (c as int + ('a' as int - 'A' as int)) as char else c
  }

  function Lower(s: string): (r: string)
    ensures |r| == |s|
    ensures forall i :: 0 <= i < |s| ==> r[i] == LowerChar(s[i])
  {
    if s == [] then [] else [LowerChar(s[0])] + Lower(s[1..])
  }

  /** str.rfind(c): the index of the last c in s, or -1 when there is none. */
  function RFind(s: string, c: char): (i: int)
    ensures -1 <= i < |s|
    ensures i >= 0 ==> s[i] == c
    ensures forall j :: i < j < |s| ==> s[j] != c
  {
    if s == [] then -1 else if s[|s| - 1] == c then |s| - 1 else RFind(s[..|s| - 1], c)
  }

  /** Some character of p[lo..hi] is not a dot. */
  predicate HasNonDot(p: string, lo: int, hi: int)
    requires 0 <= lo && hi <= |p|
  {
    exists k :: lo <= k < hi && p[k] != '.'
  }

  /** posixpath.splitext(p): the extension is everything from the last dot
      of the final path component on, unless that component has only dots
      before it (so ".pdf" and "..pdf" have no extension). */
  function SplitExt(p: string): (r: (string, string))
    ensures r.0 + r.1 == p
    ensures r.1 != [] ==> r.1[0] == '.' && '.' !in r.1[1..] && '/' !in r.1
    ensures r.1 != [] ==> HasNonDot(p, RFind(p, '/') + 1, |r.0|)
    ensures r.1 == [] ==> RFind(p, '.') <= RFind(p, '/') || !HasNonDot(p, RFind(p, '/') + 1, RFind(p, '.'))
  {
    var sepIndex := RFind(p, '/');
    var dotIndex := RFind(p, '.');
    if dotIndex > sepIndex && HasNonDot(p, sepIndex + 1, dotIndex) then
      (p[..dotIndex], p[dotIndex..])
    else
      (p, [])
  }

  function Ext(p: string): string {
    SplitExt(p).1
  }

  /** Python's s[:k] for any integer k: a negative k counts from the end. */
  function PrefixSlice(s: string, k: int): (r: string)
    ensures |r| == if k >= 0 then (if k <= |s| then k else |s|) else (if -k <= |s| then |s| + k else 0)
    ensures r == s[..|r|]
  {
    if k >= 0 then (if k <= |s| then s[..k] else s)
    else (if -k <= |s| then s[..|s| + k] else [])
  }

  predicate IsDigit(c: char) {
    '0' <= c <= '9'
  }

  function DigitChar(d: nat): (c: char)
    requires d < 10
    ensures IsDigit(c) && c as int - '0' as int == d
  {
    (d + '0' as int) as char
  }

  /** f"{n}" for a natural number: its decimal digits, no leading zeros. */
  function Decimal(n: nat): (s: string)
    ensures |s| >= 1
    ensures forall i :: 0 <= i < |s| ==> IsDigit(s[i])
    ensures |s| > 1 ==> s[0] != '0'
  {
    if n < 10 then [DigitChar(n)] else Decimal(n / 10) + [DigitChar(n % 10)]
  }

  /** The number a string of decimal digits denotes (int() of it). */
  function DecimalValue(s: string): nat
    requires forall i :: 0 <= i < |s| ==> IsDigit(s[i])
  {
    if s == [] then 0
    else
      assert IsDigit(s[|s| - 1]);
      10 * DecimalValue(s[..|s| - 1]) + (s[|s| - 1] as int - '0' as int)
  }

  /** Reading back the rendering of n gives n. */
  lemma {:induction false} DecimalRoundTrip(n: nat)
    ensures DecimalValue(Decimal(n)) == n
  {
    if n >= 10 {
      DecimalRoundTrip(n / 10);
      var s := Decimal(n);
      assert s[..|s| - 1] == Decimal(n / 10);
    }
  }

  lemma DecimalInjective(m: nat, n: nat)
    ensures Decimal(m) == Decimal(n) ==> m == n
  {
    DecimalRoundTrip(m);
    DecimalRoundTrip(n);
  }

  /** Lowering changes neither dots nor slashes, so it finds the same last one. */
  lemma {:induction false} RFindLower(s: string, c: char)
    requires c == '.' || c == '/'
    ensures RFind(Lower(s), c) == RFind(s, c)
  {
    if s != [] {
      assert Lower(s)[..|s| - 1] == Lower(s[..|s| - 1]);
      RFindLower(s[..|s| - 1], c);
      LowerCharKeepsSeparators(s[|s| - 1]);
    }
  }

  lemma LowerCharKeepsSeparators(c: char)
    ensures LowerChar(c) == '.' <==> c == '.'
    ensures LowerChar(c) == '/' <==> c == '/'
  {
  }

  lemma HasNonDotLower(p: string, lo: int, hi: int)
    requires 0 <= lo && hi <= |p|
    ensures HasNonDot(Lower(p), lo, hi) == HasNonDot(p, lo, hi)
  {
    var q := Lower(p);
    if HasNonDot(p, lo, hi) {
      var k :| lo <= k < hi && p[k] != '.';
      LowerCharKeepsSeparators(p[k]);
      assert q[k] != '.';
    }
    if HasNonDot(q, lo, hi) {
      var k :| lo <= k < hi && q[k] != '.';
      LowerCharKeepsSeparators(p[k]);
      assert p[k] != '.';
    }
  }

  /** Lowering commutes with taking a suffix. */
  lemma LowerSuffix(s: string, k: nat)
    requires k <= |s|
    ensures Lower(s)[k..] == Lower(s[k..])
  {
    var l, t := Lower(s)[k..], s[k..];
    var m := Lower(t);
    assert |l| == |m|;
    forall i | 0 <= i < |l|
      ensures l[i] == m[i]
    {
      assert t[i] == s[k + i];
    }
  }

  /** The extension of the lowered name is the lowered extension. */
  lemma ExtLower(p: string)
    ensures Ext(Lower(p)) == Lower(Ext(p))
  {
    var q := Lower(p);
    RFindLower(p, '.');
    RFindLower(p, '/');
    var sepIndex := RFind(p, '/');
    var dotIndex := RFind(p, '.');
    if dotIndex > sepIndex {
      HasNonDotLower(p, sepIndex + 1, dotIndex);
      if HasNonDot(p, sepIndex + 1, dotIndex) {
        assert Ext(p) == p[dotIndex..];
        assert Ext(q) == q[dotIndex..];
        LowerSuffix(p, dotIndex);
      } else {
        assert Ext(p) == [] && Ext(q) == [];
      }
    } else {
      assert Ext(p) == [] && Ext(q) == [];
    }
  }

  /** A name with a non-dot stem, one dot, and a dot-free tail, and no slash
      anywhere: its extension is the dot and the tail. */
  lemma ExtOfStemAndTail(stem: string, tail: string)
    requires '/' !in stem && '/' !in tail && '.' !in tail
    requires exists k :: 0 <= k < |stem| && stem[k] != '.'
    ensures Ext(stem + "." + tail) == "." + tail
  {
    var p := stem + "." + tail;
    assert p[|stem|] == '.';
    assert forall j :: |stem| < j < |p| ==> p[j] == tail[j - |stem| - 1] && p[j] != '.';
    assert forall j :: 0 <= j < |p| ==> p[j] != '/';
    var d := RFind(p, '.');
    assert d == |stem|;
    assert RFind(p, '/') == -1;
    var k :| 0 <= k < |stem| && stem[k] != '.';
    assert p[k] == stem[k];
    assert HasNonDot(p, 0, d);
    assert p[d..] == "." + tail;
  }

  /** A name made of dots followed by a dot-free, slash-free tail has no
      extension: leading dots do not start one. */
  lemma ExtOfLeadingDots(dots: string, tail: string)
    requires |dots| >= 1 && forall i :: 0 <= i < |dots| ==> dots[i] == '.'
    requires '/' !in tail && '.' !in tail
    ensures Ext(dots + tail) == ""
  {
    var p := dots + tail;
    assert forall j :: 0 <= j < |dots| ==> p[j] == dots[j] == '.';
    assert forall j :: |dots| <= j < |p| ==> p[j] == tail[j - |dots|] && p[j] != '.' && p[j] != '/';
    assert p[|dots| - 1] == '.';
    var d := RFind(p, '.');
    assert d == |dots| - 1;
    assert RFind(p, '/') == -1;
    assert !HasNonDot(p, 0, d);
  }

  /** A name without any dot has no extension. */
  lemma ExtNoDot(p: string)
    requires '.' !in p
    ensures Ext(p) == ""
  {
    assert forall j :: 0 <= j < |p| ==> p[j] != '.';
    assert RFind(p, '.') == -1;
  }
}
