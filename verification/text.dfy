/**
 * The handful of Python `str` operations that the two rewriting scripts
 * build on (`find`, `in`, `strip`, `lstrip`, `split`, `startswith`,
 * `endswith`, `str(n)`), each defined once on `seq<char>` together with the
 * facts the other modules need about it.
 */
module Text {

  datatype Option<T> = None | Some(value: T)

  /** Python's `str.isspace` for one character (the Unicode white-space set). */
  predicate IsSpace(c: char)
  {
    || ('\t' <= c <= '\r')
    || ('\U{1C}' <= c <= '\U{1F}')
    || c == ' ' || c == '\U{85}' || c == '\U{A0}' || c == '\U{1680}'
    || ('\U{2000}' <= c <= '\U{200A}')
    || c == '\U{2028}' || c == '\U{2029}' || c == '\U{202F}' || c == '\U{205F}'
    || c == '\U{3000}'
  }

  /** `isupper` / `islower`, restricted to ASCII letters. */
  predicate IsUpper(c: char) { 'A' <= c <= 'Z' }
  predicate IsLower(c: char) { 'a' <= c <= 'z' }
  predicate IsDigit(c: char) { '0' <= c <= '9' }

  predicate HasUpper(s: string) { exists i :: 0 <= i < |s| && IsUpper(s[i]) }
  predicate HasLower(s: string) { exists i :: 0 <= i < |s| && IsLower(s[i]) }

  // ---------------------------------------------------------------------
  // Searching
  // ---------------------------------------------------------------------

  predicate OccursAt(s: string, sub: string, i: int)
  {
    0 <= i && i + |sub| <= |s| && s[i..i + |sub|] == sub
  }

  /** Python's `s.find(sub, start)`: the least index at or after `start` where
      `sub` occurs, or -1 when there is none. */
  function Find(s: string, sub: string, start: nat): (r: int)
    ensures r == -1 || (start <= r && OccursAt(s, sub, r))
    ensures forall i :: start <= i && (r == -1 || i < r) ==> !OccursAt(s, sub, i)
    decreases |s| - start
  {
    if start + |sub| > |s| then -1
    else if s[start..start + |sub|] == sub then start
    else Find(s, sub, start + 1)
  }

  /** Python's `sub in s`. */
  function Contains(s: string, sub: string): (b: bool)
    ensures b <==> exists i :: OccursAt(s, sub, i)
  {
    Find(s, sub, 0) >= 0
  }

  lemma OccursAtChar(s: string, c: char, i: int)
    ensures OccursAt(s, [c], i) <==> 0 <= i < |s| && s[i] == c
  {
    if 0 <= i < |s| {
      assert s[i..i + 1] == [s[i]];
    }
  }

  /** For a one-character needle, `in` on strings is membership. */
  lemma ContainsChar(s: string, c: char)
    ensures Contains(s, [c]) <==> c in s
  {
    if c in s {
      var i :| 0 <= i < |s| && s[i] == c;
      OccursAtChar(s, c, i);
    }
    if Contains(s, [c]) {
      var i :| OccursAt(s, [c], i);
      OccursAtChar(s, c, i);
    }
  }

  /** Where a one-character `find` lands: on that character, with none before. */
  lemma FindChar(s: string, c: char, start: nat)
    ensures var r := Find(s, [c], start);
      && (r == -1 <==> forall i :: start <= i < |s| ==> s[i] != c)
      && (r != -1 ==> start <= r < |s| && s[r] == c && forall i :: start <= i < r ==> s[i] != c)
  {
    var r := Find(s, [c], start);
    forall i | start <= i < |s| && (r == -1 || i < r)
      ensures s[i] != c
    {
      OccursAtChar(s, c, i);
    }
    if r != -1 {
      OccursAtChar(s, c, r);
    }
  }

  predicate StartsWith(s: string, prefix: string)
  {
    |prefix| <= |s| && s[..|prefix|] == prefix
  }

  predicate EndsWith(s: string, suffix: string)
  {
    |suffix| <= |s| && s[|s| - |suffix|..] == suffix
  }

  // ---------------------------------------------------------------------
  // Stripping
  // ---------------------------------------------------------------------

  /** Python's `s.lstrip()`: the suffix left after dropping leading white space. */
  function LStrip(s: string): (r: string)
    ensures |r| <= |s| && r == s[|s| - |r|..]
    ensures forall i :: 0 <= i < |s| - |r| ==> IsSpace(s[i])
    ensures r == [] || !IsSpace(r[0])
  {
    if s != [] && IsSpace(s[0]) then LStrip(s[1..]) else s
  }

  /** Python's `s.rstrip()`: the prefix left after dropping trailing white space. */
  function RStrip(s: string): (r: string)
    ensures |r| <= |s| && r == s[..|r|]
    ensures forall i :: |r| <= i < |s| ==> IsSpace(s[i])
    ensures r == [] || !IsSpace(r[|r| - 1])
  {
    if s != [] && IsSpace(s[|s| - 1]) then RStrip(s[..|s| - 1]) else s
  }

  /** Python's `s.strip()`. */
  function Strip(s: string): string
  {
    RStrip(LStrip(s))
  }

  /** What `strip` keeps: a slice of the input whose ends are not white space,
      everything cut off on either side being white space. */
  lemma StripSlice(s: string) returns (lo: nat, hi: nat)
    ensures lo <= hi <= |s| && Strip(s) == s[lo..hi]
    ensures forall i :: 0 <= i < |s| && (i < lo || hi <= i) ==> IsSpace(s[i])
    ensures Strip(s) == [] || (!IsSpace(s[lo]) && !IsSpace(s[hi - 1]))
  {
    var l := LStrip(s);
    lo := |s| - |l|;
    var r := RStrip(l);
    hi := lo + |r|;
    assert Strip(s) == r;
    assert r == s[lo..hi] && (r == [] || (!IsSpace(s[lo]) && !IsSpace(s[hi - 1])))
        && forall i :: 0 <= i < |s| && (i < lo || hi <= i) ==> IsSpace(s[i]) by {
      SliceOfSlice(s, l, r, lo);
    }
  }

  /** The slicing behind `StripSlice`: a prefix `r` of a suffix `l` of `s`. */
  lemma SliceOfSlice(s: string, l: string, r: string, lo: nat)
    requires lo <= |s| && l == s[lo..] && |r| <= |l| && r == l[..|r|]
    requires forall i :: 0 <= i < lo ==> IsSpace(s[i])
    requires forall i :: |r| <= i < |l| ==> IsSpace(l[i])
    requires r == [] || (!IsSpace(r[0]) && !IsSpace(r[|r| - 1]))
    ensures r == s[lo..lo + |r|]
    ensures forall i :: 0 <= i < |s| && (i < lo || lo + |r| <= i) ==> IsSpace(s[i])
    ensures r == [] || (!IsSpace(s[lo]) && !IsSpace(s[lo + |r| - 1]))
  {
    forall i | lo + |r| <= i < |s|
      ensures IsSpace(s[i])
    {
      assert s[i] == l[i - lo];
    }
    if r != [] {
      assert s[lo] == r[0] && s[lo + |r| - 1] == r[|r| - 1];
    }
  }

  lemma {:induction false} StripIdempotent(s: string)
    ensures Strip(Strip(s)) == Strip(s)
  {
    var r := Strip(s);
    var lo, hi := StripSlice(s);
    assert LStrip(r) == r;
    assert RStrip(r) == r;
  }

  /** A character that is not white space survives `strip` wherever it was. */
  lemma StripKeepsNonSpace(s: string, c: char)
    requires !IsSpace(c)
    ensures c in s <==> c in Strip(s)
  {
    var lo, hi := StripSlice(s);
    SliceKeepsNonSpace(s, Strip(s), lo, hi, c);
  }

  lemma SliceKeepsNonSpace(s: string, v: string, lo: nat, hi: nat, c: char)
    requires !IsSpace(c)
    requires lo <= hi <= |s| && v == s[lo..hi]
    requires forall i :: 0 <= i < |s| && (i < lo || hi <= i) ==> IsSpace(s[i])
    ensures c in s <==> c in v
  {
    if i :| 0 <= i < |s| && s[i] == c {
      assert !(i < lo || hi <= i);
      assert v[i - lo] == s[i];
    }
    if j :| 0 <= j < |v| && v[j] == c {
      assert s[lo + j] == v[j];
    }
  }

  /** `strip` leaves text behind exactly when there is a character that is
      not white space. */
  lemma StripNonBlank(s: string)
    ensures Strip(s) != [] <==> exists i :: 0 <= i < |s| && !IsSpace(s[i])
  {
    var lo, hi := StripSlice(s);
    if i :| 0 <= i < |s| && !IsSpace(s[i]) {
      assert lo <= i < hi;
    }
    if Strip(s) != [] {
      assert !IsSpace(s[lo]);
    }
  }

  /** Letters are not white space, so `strip` keeps every one of them. */
  lemma StripKeepsLetters(s: string)
    ensures HasUpper(Strip(s)) <==> HasUpper(s)
    ensures HasLower(Strip(s)) <==> HasLower(s)
  {
    var lo, hi := StripSlice(s);
    SliceKeepsLetters(s, Strip(s), lo, hi);
  }

  lemma SliceKeepsLetters(s: string, v: string, lo: nat, hi: nat)
    requires lo <= hi <= |s| && v == s[lo..hi]
    requires forall i :: 0 <= i < |s| && (i < lo || hi <= i) ==> IsSpace(s[i])
    ensures HasUpper(v) <==> HasUpper(s)
    ensures HasLower(v) <==> HasLower(s)
  {
    if i :| 0 <= i < |s| && IsUpper(s[i]) {
      assert lo <= i < hi && v[i - lo] == s[i];
    }
    if i :| 0 <= i < |s| && IsLower(s[i]) {
      assert lo <= i < hi && v[i - lo] == s[i];
    }
    if i :| 0 <= i < |v| && IsUpper(v[i]) {
      assert s[lo + i] == v[i];
    }
    if i :| 0 <= i < |v| && IsLower(v[i]) {
      assert s[lo + i] == v[i];
    }
  }

  lemma {:induction false} LStripPadded(pre: string, rest: string)
    requires rest == [] || !IsSpace(rest[0])
    requires forall i :: 0 <= i < |pre| ==> IsSpace(pre[i])
    ensures LStrip(pre + rest) == rest
  {
    if pre != [] {
      assert (pre + rest)[1..] == pre[1..] + rest;
      LStripPadded(pre[1..], rest);
    }
  }

  lemma {:induction false} RStripPadded(rest: string, post: string)
    requires rest == [] || !IsSpace(rest[|rest| - 1])
    requires forall i :: 0 <= i < |post| ==> IsSpace(post[i])
    ensures RStrip(rest + post) == rest
  {
    if post != [] {
      var p := post[..|post| - 1];
      assert (rest + post)[..|rest + post| - 1] == rest + p;
      RStripPadded(rest, p);
    }
  }

  /** `strip` of a core padded with white space gives back the core, provided
      the core neither starts nor ends with white space. */
  lemma StripPadded(pre: string, core: string, post: string)
    requires core != [] && !IsSpace(core[0]) && !IsSpace(core[|core| - 1])
    requires forall i :: 0 <= i < |pre| ==> IsSpace(pre[i])
    requires forall i :: 0 <= i < |post| ==> IsSpace(post[i])
    ensures Strip(pre + core + post) == core
  {
    assert pre + core + post == pre + (core + post);
    LStripPadded(pre, core + post);
    RStripPadded(core, post);
  }

  /** The two one-sided cases of `StripPadded`, and the case with no padding. */
  lemma StripLeading(pre: string, core: string)
    requires core != [] && !IsSpace(core[0]) && !IsSpace(core[|core| - 1])
    requires forall i :: 0 <= i < |pre| ==> IsSpace(pre[i])
    ensures Strip(pre + core) == core
  {
    LStripPadded(pre, core);
  }

  lemma StripTrailing(core: string, post: string)
    requires core != [] && !IsSpace(core[0]) && !IsSpace(core[|core| - 1])
    requires forall i :: 0 <= i < |post| ==> IsSpace(post[i])
    ensures Strip(core + post) == core
  {
    assert (core + post)[0] == core[0];
    RStripPadded(core, post);
  }

  lemma StripBare(core: string)
    requires core != [] && !IsSpace(core[0]) && !IsSpace(core[|core| - 1])
    ensures Strip(core) == core
  {
  }

  // ---------------------------------------------------------------------
  // Splitting and joining
  // ---------------------------------------------------------------------

  /** Python's `sep.join(parts)` for a one-character separator. */
  function JoinWith(parts: seq<string>, sep: char): string
  {
    if parts == [] then []
    else if |parts| == 1 then parts[0]
    else parts[0] + [sep] + JoinWith(parts[1..], sep)
  }

  /** Python's `s.split(sep)` for a one-character separator: never empty, no
      piece holds the separator, and joining the pieces gives `s` back. */
  function SplitOn(s: string, sep: char): (parts: seq<string>)
    ensures |parts| >= 1
    ensures forall i :: 0 <= i < |parts| ==> sep !in parts[i]
    ensures JoinWith(parts, sep) == s
  {
    if s == [] then [[]]
    else
      var rest := SplitOn(s[1..], sep);
      if s[0] == sep then
        assert ([[]] + rest)[1..] == rest;
        [[]] + rest
      else
        var parts := [[s[0]] + rest[0]] + rest[1..];
        assert |rest| > 1 ==> parts[1..] == rest[1..];
        assert s == [s[0]] + s[1..];
        parts
  }

  /** Python's `t.split(sep, 1)` and Java's `t.split(sep, 2)` for a `t`
      holding `sep`: the text before the first `sep` and the text after it. */
  function SplitFirst(t: string, sep: char): (kv: (string, string))
    requires sep in t
    ensures t == kv.0 + [sep] + kv.1 && sep !in kv.0
  {
    FindChar(t, sep, 0);
    var i := Find(t, [sep], 0);
    assert t == t[..i] + [t[i]] + t[i + 1..];
    (t[..i], t[i + 1..])
  }

  /** The split is the only one with no separator before it. */
  lemma SplitFirstUnique(a: string, b: string, sep: char)
    requires sep !in a
    ensures SplitFirst(a + [sep] + b, sep) == (a, b)
  {
    var s := a + [sep] + b;
    var kv := SplitFirst(s, sep);
    assert s[|a|] == sep && s[|kv.0|] == sep;
    assert forall i :: 0 <= i < |a| ==> s[i] == a[i];
    assert forall i :: 0 <= i < |kv.0| ==> s[i] == kv.0[i];
    assert |a| == |kv.0|;
    assert a == s[..|a|] == kv.0;
    assert b == s[|a| + 1..] == kv.1;
  }

  // ---------------------------------------------------------------------
  // Decimal numerals
  // ---------------------------------------------------------------------

  function DigitChar(d: nat): (c: char)
    requires d < 10
    ensures IsDigit(c)
  {
    (48 + d) as char
  }

  /** Python's `str(n)` for a natural number. */
  function Decimal(n: nat): (r: string)
    ensures r != [] && forall i :: 0 <= i < |r| ==> IsDigit(r[i])
  {
    if n < 10 then [DigitChar(n)] else Decimal(n / 10) + [DigitChar(n % 10)]
  }

  /** The number a string of decimal digits denotes. */
  function DecimalValue(s: string): int
  {
    if s == [] then 0 else DecimalValue(s[..|s| - 1]) * 10 + (s[|s| - 1] as int - 48)
  }

  lemma {:induction false} DecimalRoundTrip(n: nat)
    ensures DecimalValue(Decimal(n)) == n
  {
    if n >= 10 {
      DecimalRoundTrip(n / 10);
      var s := Decimal(n / 10) + [DigitChar(n % 10)];
      assert s[..|s| - 1] == Decimal(n / 10);
    }
  }

  /** Distinct numbers have distinct numerals. */
  lemma DecimalInjective(a: nat, b: nat)
    requires Decimal(a) == Decimal(b)
    ensures a == b
  {
    DecimalRoundTrip(a);
    DecimalRoundTrip(b);
  }
}
