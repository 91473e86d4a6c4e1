/**
 * The hardcoded-literal extractor (processing_hardcoded_words.py): every
 * double-quoted literal holding Chinese text is replaced by a call to
 * `I18nAutoTextProcessorUtil.getMessage("<key>")`, the key being made of the
 * literal's Chinese characters, letters and digits followed by `.message`,
 * and the pair `<key>=<literal>` is recorded in an ordered message catalog
 * that is read from and written back to a `key=value` file.
 */
module HardcodedWords {
  import opened Text

  // ---------------------------------------------------------------------
  // Characters (processing_hardcoded_words.py:147, 176)
  // ---------------------------------------------------------------------

  /** The CJK Unified Ideographs block, U+4E00 to U+9FFF. */
  predicate IsCjk(c: char)
  {
    '\U{4E00}' <= c <= '\U{9FFF}'
  }

  predicate HasCjk(s: string)
  {
    exists i :: 0 <= i < |s| && IsCjk(s[i])
  }

  /** The characters kept in a message key: CJK, ASCII letters and digits. */
  predicate IsKeyChar(c: char)
  {
    IsCjk(c) || IsLower(c) || IsUpper(c) || IsDigit(c)
  }

  // ---------------------------------------------------------------------
  // extract_content (processing_hardcoded_words.py:163-181)
  // ---------------------------------------------------------------------

  /** The key characters of `text`, in the order they occur there. */
  function KeyChars(text: string): (r: string)
    ensures |r| <= |text|
    ensures forall i :: 0 <= i < |r| ==> IsKeyChar(r[i])
  {
    if text == [] then []
    else
      var last := text[|text| - 1];
      KeyChars(text[..|text| - 1]) + (if IsKeyChar(last) then [last] else [])
  }

  /** Filtering distributes over concatenation: what is kept keeps its order. */
  lemma {:induction false} KeyCharsAppend(a: string, b: string)
    ensures KeyChars(a + b) == KeyChars(a) + KeyChars(b)
    decreases |b|
  {
    if b == [] {
      assert a + b == a;
    } else {
      var b' := b[..|b| - 1];
      assert (a + b)[..|a + b| - 1] == a + b';
      KeyCharsAppend(a, b');
    }
  }

  /** A character survives the filter exactly when it is a key character. */
  lemma {:induction false} KeyCharsMembership(text: string, c: char)
    ensures c in KeyChars(text) <==> c in text && IsKeyChar(c)
  {
    if text != [] {
      var init := text[..|text| - 1];
      KeyCharsMembership(init, c);
      assert text == init + [text[|text| - 1]];
    }
  }

  /** Filtering twice keeps what filtering once kept. */
  lemma {:induction false} KeyCharsIdempotent(text: string)
    ensures KeyChars(KeyChars(text)) == KeyChars(text)
  {
    if text != [] {
      var init := text[..|text| - 1];
      var last := text[|text| - 1];
      KeyCharsIdempotent(init);
      var tail := if IsKeyChar(last) then [last] else [];
      KeyCharsAppend(KeyChars(init), tail);
      if IsKeyChar(last) {
        assert KeyChars([last]) == KeyChars([]) + [last];
      }
    }
  }

  /** A text with a Chinese character has a nonempty key. */
  lemma CjkGivesKey(text: string)
    requires HasCjk(text)
    ensures KeyChars(text) != []
  {
    var i :| 0 <= i < |text| && IsCjk(text[i]);
    KeyCharsMembership(text, text[i]);
  }

  /** `extract_content`: the key characters, or nothing when there are none. */
  method ExtractContent(text: string) returns (extracted: Option<string>)
    ensures extracted == (if KeyChars(text) == [] then None else Some(KeyChars(text)))
  {
    var chars: string := [];
    var k := 0;
    while k < |text|
      invariant 0 <= k <= |text|
      invariant chars == KeyChars(text[..k])
    {
      assert text[..k + 1][..k] == text[..k];
      var c := text[k];
      if IsKeyChar(c) {
        chars := chars + [c];
      }
      k := k + 1;
    }
    assert text[..k] == text;
    extracted := if chars == [] then None else Some(chars);
  }

  // ---------------------------------------------------------------------
  // The message catalog: an insertion-ordered dictionary
  // ---------------------------------------------------------------------

  /** Keys in insertion order, and the value of each. */
  datatype Catalog = Catalog(order: seq<string>, entries: map<string, string>)

  /** Each key listed once, and exactly the listed keys have a value. */
  predicate ValidCatalog(c: Catalog)
  {
    && (forall i, j :: 0 <= i < j < |c.order| ==> c.order[i] != c.order[j])
    && (forall k :: k in c.entries ==> k in c.order)
    && (forall i :: 0 <= i < |c.order| ==> c.order[i] in c.entries)
  }

  const EmptyCatalog := Catalog([], map[])

  /** `d[key] = value`: a new key goes last, an old one keeps its place. */
  function Insert(c: Catalog, key: string, value: string): Catalog
  {
    Catalog(if key in c.entries then c.order else c.order + [key], c.entries[key := value])
  }

  lemma InsertValid(c: Catalog, key: string, value: string)
    requires ValidCatalog(c)
    ensures ValidCatalog(Insert(c, key, value))
    ensures Insert(c, key, value).entries[key] == value
    ensures forall k :: k in c.entries && k != key ==> k in Insert(c, key, value).entries && Insert(c, key, value).entries[k] == c.entries[k]
  {
  }

  /** `d` keeps every entry of `c` and lists `c`'s keys first, in `c`'s order. */
  predicate Extends(c: Catalog, d: Catalog)
  {
    && |c.order| <= |d.order| && d.order[..|c.order|] == c.order
    && (forall k :: k in c.entries ==> k in d.entries && d.entries[k] == c.entries[k])
  }

  lemma ExtendsTransitive(a: Catalog, b: Catalog, c: Catalog)
    requires Extends(a, b) && Extends(b, c)
    ensures Extends(a, c)
  {
    assert c.order[..|a.order|] == c.order[..|b.order|][..|a.order|];
  }

  // ---------------------------------------------------------------------
  // find_message_key (processing_hardcoded_words.py:183-208)
  // ---------------------------------------------------------------------

  /** The `n`-th key tried: the base key, then the base key with 1, 2, ... */
  function ProbeKey(base: string, n: nat): string
  {
    if n == 0 then base else base + Decimal(n)
  }

  /** No key is tried twice. */
  lemma ProbeKeyInjective(base: string, a: nat, b: nat)
    requires ProbeKey(base, a) == ProbeKey(base, b)
    ensures a == b
  {
    if a != 0 && b != 0 {
      assert (base + Decimal(a))[|base|..] == Decimal(a);
      assert (base + Decimal(b))[|base|..] == Decimal(b);
      DecimalInjective(a, b);
    }
  }

  ghost function Probes(base: string, n: nat): set<string>
  {
    set j | 0 <= j < n :: ProbeKey(base, j)
  }

  lemma {:induction false} ProbesSize(base: string, n: nat)
    ensures |Probes(base, n)| == n
  {
    if n > 0 {
      ProbesSize(base, n - 1);
      ProbesSnoc(base, n - 1);
      ProbeNotEarlier(base, n - 1);
    }
  }

  lemma ProbesSnoc(base: string, n: nat)
    ensures Probes(base, n + 1) == Probes(base, n) + {ProbeKey(base, n)}
  {
  }

  lemma ProbeNotEarlier(base: string, n: nat)
    ensures ProbeKey(base, n) !in Probes(base, n)
  {
    forall j | 0 <= j < n
      ensures ProbeKey(base, j) != ProbeKey(base, n)
    {
      if ProbeKey(base, j) == ProbeKey(base, n) {
        ProbeKeyInjective(base, j, n);
      }
    }
  }

  lemma {:induction false} SubsetSize<T>(a: set<T>, b: set<T>)
    requires a <= b
    ensures |a| <= |b|
    decreases |b|
  {
    if a != {} {
      var x :| x in a;
      SubsetSize(a - {x}, b - {x});
    }
  }

  /** While every key tried so far is taken, no more keys have been tried
      than the catalog holds. */
  lemma ProbesBounded(entries: map<string, string>, base: string, n: nat)
    requires forall j :: 0 <= j < n ==> ProbeKey(base, j) in entries
    ensures n <= |entries.Keys|
  {
    ProbesSize(base, n);
    SubsetSize(Probes(base, n), entries.Keys);
  }

  /** The number of the first key, from the `n`-th on, that is free or
      already holds `original`. */
  function FirstFree(entries: map<string, string>, base: string, original: string, n: nat): (m: nat)
    requires forall j :: 0 <= j < n ==> ProbeKey(base, j) in entries
    ensures n <= m
    ensures forall j :: n <= j < m ==> ProbeKey(base, j) in entries && entries[ProbeKey(base, j)] != original
    ensures ProbeKey(base, m) !in entries || entries[ProbeKey(base, m)] == original
    decreases |entries.Keys| - n
  {
    var key := ProbeKey(base, n);
    if key !in entries || entries[key] == original then n
    else
      ProbesBounded(entries, base, n + 1);
      FirstFree(entries, base, original, n + 1)
  }

  /** `find_message_key` on a catalog value: the key for `original`, and the
      catalog after the call. */
  function AssignKey(c: Catalog, extracted: string, original: string): (string, Catalog)
  {
    var base := extracted + ".message";
    var key := ProbeKey(base, FirstFree(c.entries, base, original, 0));
    (key, if key in c.entries then c else Insert(c, key, original))
  }

  /** The key returned is the base key or the base key with a positive
      number; after the call it holds `original`; it is the first key tried
      that was free or already held `original`. */
  lemma AssignKeyResult(c: Catalog, extracted: string, original: string)
    ensures var (key, d) := AssignKey(c, extracted, original);
      var base := extracted + ".message";
      && (key == base || exists n: nat :: 1 <= n && key == base + Decimal(n))
      && key in d.entries && d.entries[key] == original
      && exists m: nat :: key == ProbeKey(base, m)
           && (forall j :: 0 <= j < m ==> ProbeKey(base, j) in c.entries && c.entries[ProbeKey(base, j)] != original)
  {
    var base := extracted + ".message";
    var m := FirstFree(c.entries, base, original, 0);
    if m != 0 {
      assert ProbeKey(base, m) == base + Decimal(m);
    }
  }

  /** The catalog only grows: nothing is changed or removed, at most one key
      is added at the end, and none when a key tried already held the text. */
  lemma AssignKeyAppendOnly(c: Catalog, extracted: string, original: string)
    requires ValidCatalog(c)
    ensures var (key, d) := AssignKey(c, extracted, original);
      && ValidCatalog(d)
      && Extends(c, d)
      && (d.order == c.order || d.order == c.order + [key])
      && (key in c.entries ==> d == c)
  {
    var (key, d) := AssignKey(c, extracted, original);
    if key !in c.entries {
      InsertValid(c, key, original);
      assert d.order[..|c.order|] == c.order;
    }
  }

  /** The probe stops at the first key that is free or holds the text. */
  lemma {:induction false} FirstFreeIs(entries: map<string, string>, base: string, original: string, m: nat, n: nat)
    requires m <= n
    requires forall j :: 0 <= j < n ==> ProbeKey(base, j) in entries && entries[ProbeKey(base, j)] != original
    requires ProbeKey(base, n) !in entries || entries[ProbeKey(base, n)] == original
    ensures FirstFree(entries, base, original, m) == n
    decreases n - m
  {
    if m < n {
      FirstFreeIs(entries, base, original, m + 1, n);
    }
  }

  /** The key for a text when the first `n` keys hold other texts and the
      next one is free. */
  lemma AssignFresh(c: Catalog, extracted: string, t: string, n: nat)
    requires forall j :: 0 <= j < n ==> ProbeKey(extracted + ".message", j) in c.entries && c.entries[ProbeKey(extracted + ".message", j)] != t
    requires ProbeKey(extracted + ".message", n) !in c.entries
    ensures var key := ProbeKey(extracted + ".message", n);
      AssignKey(c, extracted, t) == (key, Insert(c, key, t))
  {
    FirstFreeIs(c.entries, extracted + ".message", t, 0, n);
  }

  /** The key for a text when the first `n` keys hold other texts and the
      next one already holds it. */
  lemma AssignFound(c: Catalog, extracted: string, t: string, n: nat)
    requires forall j :: 0 <= j < n ==> ProbeKey(extracted + ".message", j) in c.entries && c.entries[ProbeKey(extracted + ".message", j)] != t
    requires ProbeKey(extracted + ".message", n) in c.entries && c.entries[ProbeKey(extracted + ".message", n)] == t
    ensures AssignKey(c, extracted, t) == (ProbeKey(extracted + ".message", n), c)
  {
    FirstFreeIs(c.entries, extracted + ".message", t, 0, n);
  }

  /** Three different texts with the same key characters get the base key,
      then the base key with 1, then with 2; the first text again gets the
      base key back without a new entry. */
  lemma CollidingTexts(c: Catalog, extracted: string, t1: string, t2: string, t3: string)
    requires ValidCatalog(c)
    requires t1 != t2 && t2 != t3 && t1 != t3
    requires forall j :: 0 <= j < 3 ==> ProbeKey(extracted + ".message", j) !in c.entries
    ensures var base := extracted + ".message";
      var r1 := AssignKey(c, extracted, t1);
      var r2 := AssignKey(r1.1, extracted, t2);
      var r3 := AssignKey(r2.1, extracted, t3);
      && r1.0 == base && r2.0 == base + "1" && r3.0 == base + "2"
      && AssignKey(r3.1, extracted, t1) == (base, r3.1)
      && r3.1.order == c.order + [base, base + "1", base + "2"]
  {
    var base := extracted + ".message";
    assert Decimal(1) == "1" && Decimal(2) == "2";
    var p0, p1, p2 := ProbeKey(base, 0), ProbeKey(base, 1), ProbeKey(base, 2);
    assert p1 != p0 by { if p1 == p0 { ProbeKeyInjective(base, 1, 0); } }
    assert p2 != p0 by { if p2 == p0 { ProbeKeyInjective(base, 2, 0); } }
    assert p2 != p1 by { if p2 == p1 { ProbeKeyInjective(base, 2, 1); } }
    var c1 := Insert(c, p0, t1);
    var c2 := Insert(c1, p1, t2);
    var c3 := Insert(c2, p2, t3);
    assert AssignKey(c, extracted, t1) == (p0, c1) by {
      AssignFresh(c, extracted, t1, 0);
    }
    assert AssignKey(c1, extracted, t2) == (p1, c2) by {
      AssignFresh(c1, extracted, t2, 1);
    }
    assert AssignKey(c2, extracted, t3) == (p2, c3) by {
      AssignFresh(c2, extracted, t3, 2);
    }
    assert AssignKey(c3, extracted, t1) == (p0, c3) by {
      FirstFreeIs(c3.entries, base, t1, 0, 0);
    }
    assert c3.order == c.order + [p0, p1, p2];
  }

  // ---------------------------------------------------------------------
  // The guards of process_line (processing_hardcoded_words.py:131-136)
  // ---------------------------------------------------------------------

  /** A line left alone: its stripped text starts with `@` or an upper-case
      letter, or with `logger.` or `log.`, or an upper-case letter comes
      before its first `=`. */
  predicate Skipped(line: string)
  {
    var t := Strip(line);
    || (t != [] && (StartsWith(t, "@") || IsUpper(t[0])))
    || StartsWith(t, "logger.") || StartsWith(t, "log.")
    || ('=' in line && HasUpper(SplitOn(line, '=')[0]))
  }

  /** The part `line.split("=")[0]` the third guard looks at is the text
      before the first `=`. */
  lemma BeforeFirstEquals(line: string)
    ensures var head := SplitOn(line, '=')[0];
      && StartsWith(line, head) && '=' !in head
      && (|head| == |line| || line[|head|] == '=')
  {
    var parts := SplitOn(line, '=');
    if |parts| > 1 {
      assert JoinWith(parts, '=') == parts[0] + ['='] + JoinWith(parts[1..], '=');
      assert line[..|parts[0]|] == parts[0];
    } else {
      assert line == parts[0];
    }
  }

  // ---------------------------------------------------------------------
  // The literal scanner: re.finditer(r'"(.*?)"', line)
  // ---------------------------------------------------------------------

  /** A match of `"(.*?)"` from `p` to `q`: two double quotes with neither a
      double quote nor a line break between them. */
  predicate LiteralAt(line: string, p: int, q: int)
  {
    && 0 <= p < q < |line|
    && line[p] == '"' && line[q] == '"'
    && forall k :: p < k < q ==> line[k] != '"' && line[k] != '\n'
  }

  /** The first double quote at or after `from`, or -1. */
  function NextQuote(line: string, from: nat): (r: int)
    ensures r == -1 || (from <= r < |line| && line[r] == '"')
    ensures forall i :: from <= i < |line| && (r == -1 || i < r) ==> line[i] != '"'
    decreases |line| - from
  {
    if from >= |line| then -1
    else if line[from] == '"' then from
    else NextQuote(line, from + 1)
  }

  /** A line break between a quote and the next one rules out every match
      starting in between. */
  lemma NoLiteralAcrossBreak(line: string, p: nat, q: nat)
    requires p < q < |line| && line[q] == '"' && '\n' in line[p + 1..q]
    requires forall i :: p < i < q ==> line[i] != '"'
    ensures forall i, j :: p <= i < q ==> !LiteralAt(line, i, j)
  {
    var b :| p + 1 <= b < q && line[b] == '\n';
    forall i, j | p <= i < q
      ensures !LiteralAt(line, i, j)
    {
      if i == p && q < j {
        assert line[q] == '"';
      } else if i == p && j == q {
        assert line[b] == '\n';
      }
    }
  }

  /** The next match at or after `from`, as the positions of its two quotes:
      the leftmost one, and none when there is no match. */
  function NextLiteral(line: string, from: nat): (r: Option<(nat, nat)>)
    ensures r.Some? ==> from <= r.value.0 && LiteralAt(line, r.value.0, r.value.1)
    ensures forall i, j :: from <= i && (r.None? || i < r.value.0) ==> !LiteralAt(line, i, j)
    decreases |line| - from
  {
    var p := NextQuote(line, from);
    if p == -1 then None
    else
      var q := NextQuote(line, p + 1);
      if q == -1 then None
      else if '\n' in line[p + 1..q] then
        NoLiteralAcrossBreak(line, p, q);
        NextLiteral(line, q)
      else Some((p, q))
  }

  // ---------------------------------------------------------------------
  // process_line (processing_hardcoded_words.py:119-161)
  // ---------------------------------------------------------------------

  const GetMessagePrefix := "I18nAutoTextProcessorUtil.getMessage(\""
  const GetMessageSuffix := "\")"

  function GetMessageCall(key: string): string
  {
    GetMessagePrefix + key + GetMessageSuffix
  }

  function Quoted(text: string): string
  {
    "\"" + text + "\""
  }

  /** What replaces the literal with contents `text`, and the catalog after. */
  function Replacement(text: string, c: Catalog): (string, Catalog)
  {
    if HasCjk(text) then
      var extracted := KeyChars(text);
      if extracted != [] then
        var keyed := AssignKey(c, extracted, text);
        (GetMessageCall(keyed.0), keyed.1)
      else (Quoted(text), c)
    else (Quoted(text), c)
  }

  /** The loop over the matches from `lastEnd` on, `acc` being the text
      produced so far; `replace` gives what a literal with the given contents
      becomes, and the catalog after it (`Replacement` in the script). */
  function RewriteFrom(replace: (string, Catalog) -> (string, Catalog), line: string, lastEnd: nat, c: Catalog, acc: string): (string, Catalog)
    requires lastEnd <= |line|
    decreases |line| - lastEnd
  {
    var next := NextLiteral(line, lastEnd);
    if next.None? then (acc + line[lastEnd..], c)
    else
      var start, close := next.value.0, next.value.1;
      var r := replace(line[start + 1..close], c);
      RewriteFrom(replace, line, close + 1, r.1, acc + line[lastEnd..start] + r.0)
  }

  /** `process_line`: the new line and the catalog after it. */
  function RewrittenLine(line: string, c: Catalog): (string, Catalog)
  {
    if Skipped(line) then (line, c) else RewriteFrom(Replacement, line, 0, c, [])
  }

  /** A literal without Chinese text is put back as it was. */
  lemma QuotedIsVerbatim(line: string, p: nat, q: nat)
    requires LiteralAt(line, p, q)
    ensures Quoted(line[p + 1..q]) == line[p..q + 1]
  {
  }

  /** One step of the loop over the matches. */
  lemma RewriteStep(replace: (string, Catalog) -> (string, Catalog), line: string, lastEnd: nat, c: Catalog, acc: string, start: nat, close: nat)
    requires lastEnd <= |line| && NextLiteral(line, lastEnd) == Some((start, close))
    ensures close + 1 <= |line| && lastEnd <= start
    ensures var r := replace(line[start + 1..close], c);
      RewriteFrom(replace, line, lastEnd, c, acc) == RewriteFrom(replace, line, close + 1, r.1, acc + line[lastEnd..start] + r.0)
  {
  }

  /** The end of the loop: no match is left. */
  lemma RewriteDone(replace: (string, Catalog) -> (string, Catalog), line: string, lastEnd: nat, c: Catalog, acc: string)
    requires lastEnd <= |line| && NextLiteral(line, lastEnd) == None
    ensures RewriteFrom(replace, line, lastEnd, c, acc) == (acc + line[lastEnd..], c)
  {
  }

  lemma GluePieces(acc: string, line: string, a: nat, b: nat, e: nat)
    requires a <= b <= e <= |line|
    ensures acc + line[a..b] + line[b..e] + line[e..] == acc + line[a..]
  {
    assert line[a..b] + line[b..e] + line[e..] == line[a..];
  }

  /** A scan over literals none of which holds Chinese text copies the rest
      of the line, whenever `replace` quotes such literals back verbatim. */
  lemma {:induction false} RewriteWithoutCjk(replace: (string, Catalog) -> (string, Catalog), line: string, lastEnd: nat, c: Catalog, acc: string)
    requires lastEnd <= |line|
    requires forall p, q :: lastEnd <= p && LiteralAt(line, p, q) ==> !HasCjk(line[p + 1..q])
    requires forall text, d :: !HasCjk(text) ==> replace(text, d) == (Quoted(text), d)
    ensures RewriteFrom(replace, line, lastEnd, c, acc) == (acc + line[lastEnd..], c)
    decreases |line| - lastEnd
  {
    var next := NextLiteral(line, lastEnd);
    if next.None? {
      RewriteDone(replace, line, lastEnd, c, acc);
    } else {
      var start, close := next.value.0, next.value.1;
      var acc' := acc + line[lastEnd..start] + line[start..close + 1];
      assert RewriteFrom(replace, line, lastEnd, c, acc) == RewriteFrom(replace, line, close + 1, c, acc') by {
        RewriteStep(replace, line, lastEnd, c, acc, start, close);
        assert LiteralAt(line, start, close);
        QuotedIsVerbatim(line, start, close);
      }
      RewriteWithoutCjk(replace, line, close + 1, c, acc');
      GluePieces(acc, line, lastEnd, start, close + 1);
    }
  }

  /** `Replacement` puts a literal without Chinese text back as it was. */
  lemma ReplacementVerbatim(text: string, d: Catalog)
    requires !HasCjk(text)
    ensures Replacement(text, d) == (Quoted(text), d)
  {
  }

  /** A line none of whose literals holds Chinese text comes back unchanged,
      and the catalog with it. */
  lemma LineWithoutCjk(line: string, c: Catalog)
    requires NoCjkLiteral(line)
    ensures RewrittenLine(line, c) == (line, c)
  {
    if !Skipped(line) {
      forall text, d | !HasCjk(text)
        ensures Replacement(text, d) == (Quoted(text), d)
      {
        ReplacementVerbatim(text, d);
      }
      RewriteWithoutCjk(Replacement, line, 0, c, []);
      assert [] + line[0..] == line;
    }
  }

  lemma ExtendsReflexive(c: Catalog)
    ensures Extends(c, c)
  {
    assert c.order[..|c.order|] == c.order;
  }

  lemma ReplacementExtends(text: string, c: Catalog)
    requires ValidCatalog(c)
    ensures ValidCatalog(Replacement(text, c).1) && Extends(c, Replacement(text, c).1)
  {
    if HasCjk(text) && KeyChars(text) != [] {
      AssignKeyAppendOnly(c, KeyChars(text), text);
    } else {
      ExtendsReflexive(c);
    }
  }

  lemma {:induction false} RewriteExtends(line: string, lastEnd: nat, c: Catalog, acc: string)
    requires lastEnd <= |line| && ValidCatalog(c)
    ensures ValidCatalog(RewriteFrom(Replacement, line, lastEnd, c, acc).1) && Extends(c, RewriteFrom(Replacement, line, lastEnd, c, acc).1)
    decreases |line| - lastEnd
  {
    var next := NextLiteral(line, lastEnd);
    if next.None? {
      RewriteDone(Replacement, line, lastEnd, c, acc);
      ExtendsReflexive(c);
    } else {
      var start, close := next.value.0, next.value.1;
      RewriteStep(Replacement, line, lastEnd, c, acc, start, close);
      var r := Replacement(line[start + 1..close], c);
      ReplacementExtends(line[start + 1..close], c);
      var acc' := acc + line[lastEnd..start] + r.0;
      RewriteExtends(line, close + 1, r.1, acc');
      ExtendsTransitive(c, r.1, RewriteFrom(Replacement, line, close + 1, r.1, acc').1);
    }
  }

  /** Processing a line only adds entries to the catalog, at its end. */
  lemma RewrittenLineExtends(line: string, c: Catalog)
    requires ValidCatalog(c)
    ensures ValidCatalog(RewrittenLine(line, c).1) && Extends(c, RewrittenLine(line, c).1)
  {
    if Skipped(line) {
      ExtendsReflexive(c);
    } else {
      RewriteExtends(line, 0, c, []);
    }
  }

  /** A literal with Chinese text becomes a `getMessage` call whose key holds
      that text in the catalog. */
  lemma ReplacementResolves(text: string, c: Catalog)
    requires HasCjk(text)
    ensures var (piece, d) := Replacement(text, c);
      exists key :: piece == GetMessageCall(key) && key in d.entries && d.entries[key] == text
  {
    CjkGivesKey(text);
    var (key, d) := AssignKey(c, KeyChars(text), text);
    AssignKeyResult(c, KeyChars(text), text);
    assert Replacement(text, c).0 == GetMessageCall(key);
  }

  /** Sample verdicts of the guards: an annotation is skipped ... */
  lemma AnnotationSkipped()
    ensures Skipped("@ApiOperation(\"\U{67E5}\U{8BE2}\")")
  {
    var a := "@ApiOperation(\"\U{67E5}\U{8BE2}\")";
    assert Strip(a) == a by {
      StripBare(a);
    }
    assert StartsWith(a, "@");
    FirstCharGuard(a);
  }

  /** ... and so is a log call, however it is indented and whatever it
      logs ... */
  lemma LogCallSkipped(indent: string, call: string)
    requires forall i :: 0 <= i < |indent| ==> indent[i] == ' '
    requires call == [] || !IsSpace(call[|call| - 1])
    ensures Skipped(indent + "logger." + call)
  {
    var core := "logger." + call;
    var line := indent + "logger." + call;
    assert StartsWith(Strip(line), "logger.") by {
      assert Strip(line) == core by {
        assert core[0] == 'l';
        assert core[|core| - 1] == if call == [] then '.' else call[|call| - 1];
        StripLeading(indent, core);
        assert indent + core == line;
      }
      assert core[..7] == "logger.";
    }
    LogGuard(line);
  }


  lemma FirstCharGuard(line: string)
    requires Strip(line) != [] && (StartsWith(Strip(line), "@") || IsUpper(Strip(line)[0]))
    ensures Skipped(line)
  {
  }

  lemma LogGuard(line: string)
    requires StartsWith(Strip(line), "logger.")
    ensures Skipped(line)
  {
  }

  /** A line whose text before its first `=` holds an upper-case letter is
      skipped, and that text is what `line.split("=")[0]` gives. */
  lemma UpperBeforeEquals(head: string, tail: string)
    requires '=' !in head && HasUpper(head)
    ensures var line := head + "=" + tail;
      SplitOn(line, '=')[0] == head && Skipped(line)
  {
    var line := head + "=" + tail;
    var h := SplitOn(line, '=')[0];
    BeforeFirstEquals(line);
    assert line[|head|] == '=';
    assert forall i :: 0 <= i < |head| ==> line[i] == head[i];
    assert |h| == |head| by {
      assert forall i :: 0 <= i < |h| ==> h[i] == line[i];
    }
    assert h == line[..|h|] == head;
  }

  /** ... and a constant declaration whose type names a class, as in
      `private static final String[] NUMS = {"零"};`: the first character is
      lower case, so it is the upper-case letter before the `=` that skips
      it. */
  lemma ConstantSkipped()
    ensures var line := NumsHead + "=" + NumsTail;
      && line[0] == 'p' && Strip(line) == line
      && HasUpper(SplitOn(line, '=')[0])
      && Skipped(line)
  {
    NumsHeadHasUpper();
    UpperBeforeEquals(NumsHead, NumsTail);
    NumsLineBare();
  }

  lemma NumsHeadHasUpper()
    ensures '=' !in NumsHead && HasUpper(NumsHead)
  {
    assert forall i :: 0 <= i < |NumsHead| ==> NumsHead[i] != '=';
    assert IsUpper(NumsHead[21]);
  }

  lemma NumsLineBare()
    ensures var line := NumsHead + "=" + NumsTail;
      line[0] == 'p' && Strip(line) == line
  {
    var line := NumsHead + "=" + NumsTail;
    assert line[0] == NumsHead[0] == 'p';
    assert line[|line| - 1] == NumsTail[|NumsTail| - 1] == ';';
    StripBare(line);
  }

  const NumsHead := "private static final String[] NUMS "
  const NumsTail := " {\"\U{96F6}\"};"

  /** ... but not an ordinary call. */
  lemma CallNotSkipped()
    ensures !Skipped("  f(\"\U{4E2D}\");")
  {
    var e := "f(\"\U{4E2D}\");";
    var line := "  f(\"\U{4E2D}\");";
    assert '=' !in line by {
      assert forall i :: 0 <= i < |line| ==> line[i] != '=';
    }
    assert Strip(line) == e by {
      StripLeading("  ", e);
      assert "  " + e == line;
    }
    assert IsLower(e[0]) && e[0] != 'l';
    NoGuard(line, e);
  }

  /** None of the guards holds for a line without `=` whose stripped text
      starts with a lower-case letter other than `l`. */
  lemma NoGuard(line: string, t: string)
    requires Strip(line) == t && t != [] && IsLower(t[0]) && t[0] != 'l'
    requires '=' !in line
    ensures !Skipped(line)
  {
    assert t[0] != "@"[0] && t[0] != "logger."[0] && t[0] != "log."[0];
  }

  // ---------------------------------------------------------------------
  // The message file: load_messages and write_messages
  // (processing_hardcoded_words.py:66-86, 210-221)
  // ---------------------------------------------------------------------

  /** A line of the file read into the catalog: a line with `=` is stripped
      and split at its first `=`, the key taking the new value. */
  function LoadLine(c: Catalog, line: string): Catalog
  {
    if '=' in line then
      StripKeepsNonSpace(line, '=');
      var kv := SplitFirst(Strip(line), '=');
      Insert(c, kv.0, kv.1)
    else c
  }

  /** The catalog read from the lines of the file. */
  function Loaded(lines: seq<string>): (c: Catalog)
    ensures ValidCatalog(c)
  {
    if lines == [] then EmptyCatalog
    else
      var c := Loaded(lines[..|lines| - 1]);
      LoadLineValid(c, lines[|lines| - 1]);
      LoadLine(c, lines[|lines| - 1])
  }

  lemma LoadLineValid(c: Catalog, line: string)
    requires ValidCatalog(c)
    ensures ValidCatalog(LoadLine(c, line))
  {
    if '=' in line {
      StripKeepsNonSpace(line, '=');
      var kv := SplitFirst(Strip(line), '=');
      InsertValid(c, kv.0, kv.1);
    }
  }

  /** A line with `=` inserts the entry split off its stripped text. */
  lemma LoadLineInserts(c: Catalog, line: string)
    requires '=' in line && '=' in Strip(line)
    ensures LoadLine(c, line) == Insert(c, SplitFirst(Strip(line), '=').0, SplitFirst(Strip(line), '=').1)
  {
  }

  /** A later line for a key already read replaces its value and leaves the
      order of the keys as it was. */
  lemma LaterLineWins(c: Catalog, line: string)
    requires ValidCatalog(c) && '=' in line
    ensures '=' in Strip(line)
    ensures var kv := SplitFirst(Strip(line), '=');
      && LoadLine(c, line).entries[kv.0] == kv.1
      && (kv.0 in c.entries ==> LoadLine(c, line).order == c.order)
      && (forall k :: k in c.entries && k != kv.0 ==> k in LoadLine(c, line).entries && LoadLine(c, line).entries[k] == c.entries[k])
  {
    StripKeepsNonSpace(line, '=');
    var kv := SplitFirst(Strip(line), '=');
    InsertValid(c, kv.0, kv.1);
  }

  function EntryLine(key: string, value: string): string
  {
    key + "=" + value + "\n"
  }

  /** The lines `write_messages` writes: one `key=value` line per entry, in
      insertion order. */
  function Serialized(c: Catalog): (lines: seq<string>)
    requires ValidCatalog(c)
    ensures |lines| == |c.order|
  {
    seq(|c.order|, i requires 0 <= i < |c.order| => EntryLine(c.order[i], c.entries[c.order[i]]))
  }

  /** An entry that reads back as written: no `=` in the key, no line break
      in either text, since reading the file cuts it into lines at `\n`, `\r`
      and `\r\n`, and no white space for `strip` to remove at the start of
      the key or the end of the value. */
  predicate Storable(key: string, value: string)
  {
    && '=' !in key
    && '\n' !in key && '\r' !in key && '\n' !in value && '\r' !in value
    && (key == [] || !IsSpace(key[0]))
    && (value == [] || !IsSpace(value[|value| - 1]))
  }

  lemma EntryCoreEnds(key: string, value: string)
    requires Storable(key, value)
    ensures var core := key + "=" + value;
      core != [] && !IsSpace(core[0]) && !IsSpace(core[|core| - 1])
  {
    var core := key + "=" + value;
    if key == [] {
      assert core[0] == '=';
    } else {
      assert core[0] == key[0];
    }
    if value == [] {
      assert core[|core| - 1] == '=';
    } else {
      assert core[|core| - 1] == value[|value| - 1];
    }
  }

  lemma StripEntryLine(key: string, value: string)
    requires Storable(key, value)
    ensures Strip(EntryLine(key, value)) == key + "=" + value
  {
    EntryCoreEnds(key, value);
    StripTrailing(key + "=" + value, "\n");
  }

  /** A written line is read back as the entry it came from. */
  lemma ParseEntryLine(key: string, value: string)
    requires Storable(key, value)
    ensures '=' in EntryLine(key, value)
    ensures '=' in Strip(EntryLine(key, value))
    ensures SplitFirst(Strip(EntryLine(key, value)), '=') == (key, value)
  {
    StripEntryLine(key, value);
    var core := key + "=" + value;
    assert core[|key|] == '=';
    assert EntryLine(key, value)[|key|] == '=';
    SplitFirstUnique(key, value, '=');
  }

  lemma LoadEntryLine(c: Catalog, key: string, value: string)
    requires Storable(key, value)
    ensures LoadLine(c, EntryLine(key, value)) == Insert(c, key, value)
  {
    ParseEntryLine(key, value);
  }

  lemma LoadedStep(lines: seq<string>, k: nat, before: Catalog, after: Catalog)
    requires k < |lines| && before == Loaded(lines[..k]) && after == LoadLine(before, lines[k])
    ensures after == Loaded(lines[..k + 1])
  {
    LoadedSnoc(lines, k);
  }

  lemma LoadedSnoc(lines: seq<string>, k: nat)
    requires k < |lines|
    ensures Loaded(lines[..k + 1]) == LoadLine(Loaded(lines[..k]), lines[k])
  {
    assert lines[..k + 1][..k] == lines[..k];
  }

  /** The catalog made of the first `n` keys of `c`. */
  function Prefix(c: Catalog, n: nat): Catalog
    requires ValidCatalog(c) && n <= |c.order|
  {
    Catalog(c.order[..n], map k | k in c.order[..n] :: c.entries[k])
  }

  lemma PrefixStep(c: Catalog, n: nat)
    requires ValidCatalog(c) && 0 < n <= |c.order|
    ensures Prefix(c, n) == Insert(Prefix(c, n - 1), c.order[n - 1], c.entries[c.order[n - 1]])
  {
    var key := c.order[n - 1];
    var before := Prefix(c, n - 1);
    assert c.order[..n] == c.order[..n - 1] + [key];
    assert key !in before.entries by {
      assert forall j | 0 <= j < n - 1 :: c.order[j] != key;
    }
    assert Prefix(c, n).entries == before.entries[key := c.entries[key]] by {
      assert forall k :: k in c.order[..n] <==> k in c.order[..n - 1] || k == key;
    }
  }

  lemma {:induction false} LoadPrefix(c: Catalog, n: nat)
    requires ValidCatalog(c) && n <= |c.order|
    requires forall k :: k in c.entries ==> Storable(k, c.entries[k])
    ensures Loaded(Serialized(c)[..n]) == Prefix(c, n)
  {
    if n > 0 {
      var lines := Serialized(c);
      LoadPrefix(c, n - 1);
      LoadedSnoc(lines, n - 1);
      var key := c.order[n - 1];
      LoadEntryLine(Prefix(c, n - 1), key, c.entries[key]);
      PrefixStep(c, n);
    } else {
      assert Serialized(c)[..0] == [];
    }
  }

  /** Writing the catalog and reading the file back gives the same catalog:
      the same entries in the same order. */
  lemma LoadAfterWrite(c: Catalog)
    requires ValidCatalog(c)
    requires forall k :: k in c.entries ==> Storable(k, c.entries[k])
    ensures Loaded(Serialized(c)) == c
  {
    LoadPrefix(c, |c.order|);
    assert Serialized(c)[..|c.order|] == Serialized(c);
    WholePrefix(c);
  }

  lemma WholePrefix(c: Catalog)
    requires ValidCatalog(c)
    ensures Prefix(c, |c.order|) == c
  {
    var whole := Prefix(c, |c.order|);
    assert c.order[..|c.order|] == c.order;
    assert whole.entries.Keys == c.entries.Keys;
    assert whole.entries == c.entries;
  }

  // ---------------------------------------------------------------------
  // The catalog as the scripts hold it: a dictionary updated in place
  // ---------------------------------------------------------------------

  class MessageCatalog {
    var order: seq<string>
    var entries: map<string, string>

    function Model(): Catalog
      reads this
    {
      Catalog(order, entries)
    }

    ghost predicate Valid()
      reads this
    {
      ValidCatalog(Model())
    }

    /** `load_messages`, on the lines of the file. */
    constructor Load(lines: seq<string>)
      ensures Valid() && Model() == Loaded(lines)
    {
      var keys: seq<string> := [];
      var dict: map<string, string> := map[];
      var k := 0;
      while k < |lines|
        invariant 0 <= k <= |lines|
        invariant Catalog(keys, dict) == Loaded(lines[..k])
      {
        var line := lines[k];
        ghost var before := Catalog(keys, dict);
        if '=' in line {
          StripKeepsNonSpace(line, '=');
          var kv := SplitFirst(Strip(line), '=');
          if kv.0 !in dict {
            keys := keys + [kv.0];
          }
          dict := dict[kv.0 := kv.1];
          LoadLineInserts(before, line);
        }
        LoadedStep(lines, k, before, Catalog(keys, dict));
        k := k + 1;
      }
      assert lines[..k] == lines;
      order := keys;
      entries := dict;
    }

    /** `find_message_key`: the key for `original`, recorded in the catalog
        when it is new. */
    method FindMessageKey(extracted: string, original: string) returns (key: string)
      requires Valid()
      modifies this
      ensures Valid()
      ensures (key, Model()) == AssignKey(old(Model()), extracted, original)
    {
      var n;
      key, n := ProbeMessageKey(extracted + ".message", original);
      if key in entries {
        AssignFound(Model(), extracted, original, n);
        return;
      }
      AssignFresh(Model(), extracted, original, n);
      InsertValid(Model(), key, original);
      entries := entries[key := original];
      order := order + [key];
    }

    /** The probing loop of `find_message_key`: the first of `baseKey`,
        `baseKey1`, `baseKey2`, ... that is free or already holds `original`,
        every key before it holding some other text. */
    method ProbeMessageKey(baseKey: string, original: string) returns (key: string, n: nat)
      ensures key == ProbeKey(baseKey, n)
      ensures forall j :: 0 <= j < n ==> ProbeKey(baseKey, j) in entries && entries[ProbeKey(baseKey, j)] != original
      ensures key !in entries || entries[key] == original
    {
      key := baseKey;
      var counter := 1;
      while key in entries
        invariant counter >= 1 && key == ProbeKey(baseKey, counter - 1)
        invariant forall j :: 0 <= j < counter - 1 ==> ProbeKey(baseKey, j) in entries && entries[ProbeKey(baseKey, j)] != original
        decreases |entries.Keys| - (counter - 1)
      {
        if entries[key] == original {
          return key, counter - 1;
        }
        ProbesBounded(entries, baseKey, counter);
        key := baseKey + Decimal(counter);
        counter := counter + 1;
      }
      n := counter - 1;
    }

    /** `write_messages`: the lines written to the file. */
    method Write() returns (lines: seq<string>)
      requires Valid()
      ensures lines == Serialized(Model())
    {
      lines := [];
      var k := 0;
      while k < |order|
        invariant 0 <= k <= |order|
        invariant lines == Serialized(Model())[..k]
      {
        var key := order[k];
        lines := lines + [key + "=" + entries[key] + "\n"];
        k := k + 1;
      }
    }
  }

  /** The body of the loop in `process_line` for one literal: the text that
      replaces it, the catalog having gained its key when it holds Chinese. */
  method ReplaceLiteral(text: string, catalog: MessageCatalog) returns (piece: string)
    requires catalog.Valid()
    modifies catalog
    ensures catalog.Valid()
    ensures (piece, catalog.Model()) == Replacement(text, old(catalog.Model()))
  {
    if HasCjk(text) {
      var extracted := ExtractContent(text);
      if extracted.Some? {
        var key := catalog.FindMessageKey(extracted.value, text);
        piece := GetMessageCall(key);
      } else {
        piece := Quoted(text);
      }
    } else {
      piece := Quoted(text);
    }
  }

  /** `process_line` on the catalog the script updates in place: the new
      line, the catalog having gained the keys of its Chinese literals. */
  method ProcessLine(line: string, catalog: MessageCatalog) returns (newLine: string)
    requires catalog.Valid()
    modifies catalog
    ensures catalog.Valid()
    ensures (newLine, catalog.Model()) == RewrittenLine(line, old(catalog.Model()))
  {
    var t := Strip(line);
    if t != [] && (StartsWith(t, "@") || IsUpper(t[0])) {
      return line;
    }
    if StartsWith(t, "logger.") || StartsWith(t, "log.") {
      return line;
    }
    if '=' in line && HasUpper(SplitOn(line, '=')[0]) {
      return line;
    }
    newLine := ReplaceLiterals(line, catalog);
  }

  /** The loop of `process_line` over the literals of a line that no guard
      skipped. */
  method ReplaceLiterals(line: string, catalog: MessageCatalog) returns (newLine: string)
    requires catalog.Valid()
    modifies catalog
    ensures catalog.Valid()
    ensures (newLine, catalog.Model()) == RewriteFrom(Replacement, line, 0, old(catalog.Model()), [])
  {
    newLine := [];
    var lastEnd := 0;
    var next := NextLiteral(line, 0);
    while next.Some?
      invariant lastEnd <= |line| && next == NextLiteral(line, lastEnd)
      invariant catalog.Valid()
      invariant RewriteFrom(Replacement, line, lastEnd, catalog.Model(), newLine) == RewriteFrom(Replacement, line, 0, old(catalog.Model()), [])
      decreases |line| - lastEnd
    {
      var start, close := next.value.0, next.value.1;
      RewriteStep(Replacement, line, lastEnd, catalog.Model(), newLine, start, close);
      var piece := ReplaceLiteral(line[start + 1..close], catalog);
      newLine := newLine + line[lastEnd..start] + piece;
      lastEnd := close + 1;
      next := NextLiteral(line, lastEnd);
    }
    RewriteDone(Replacement, line, lastEnd, catalog.Model(), newLine);
    newLine := newLine + line[lastEnd..];
  }

  // ---------------------------------------------------------------------
  // process_file (processing_hardcoded_words.py:97-117), without the file
  // ---------------------------------------------------------------------

  /** The package the helper class lives in (processing_hardcoded_words.py:224,
      I18nAutoTextProcessorUtil.java:1) and the helper class itself. */
  const PackagePath := "com.itla.imh.common.util"
  const ClassName := "I18nAutoTextProcessorUtil"

  /** The import inserted under the package line: the class qualified by its
      package. */
  const ImportLine := "import " + PackagePath + "." + ClassName + ";\n"

  /** The import as processing_hardcoded_words.py:109 builds it: the package
      path of line 224 has no trailing dot, so it runs into the class name. */
  const ImportLineAsWritten := "import " + PackagePath + ClassName + ";\n"

  /** `line` is a Java import of a class whose simple name is `cls`: the
      imported name ends with a dot followed by `cls`. */
  predicate ImportsClass(line: string, cls: string)
  {
    && '.' !in cls
    && StartsWith(line, "import ")
    && EndsWith(line, "." + cls + ";\n")
  }

  lemma ClassNameHasNoDot()
    ensures '.' !in ClassName && '.' !in "util" + ClassName
  {
    var n := "util" + ClassName;
    assert forall i :: 0 <= i < |n| ==> n[i] != '.';
    assert forall i :: 0 <= i < |ClassName| ==> ClassName[i] == n[i + 4];
  }

  /** The line as written imports a class `utilI18nAutoTextProcessorUtil`
      from package `com.itla.imh.common`, not the helper class. */
  lemma ImportAsWrittenMissesClass()
    ensures !ImportsClass(ImportLineAsWritten, ClassName)
    ensures ImportsClass(ImportLineAsWritten, "util" + ClassName)
  {
    ClassNameHasNoDot();
    var l := ImportLineAsWritten;
    var tail := "." + ClassName + ";\n";
    assert l[|l| - |tail|] == 'l' && tail[0] == '.';
    assert l[..7] == "import ";
    assert l[|l| - 32..] == "." + ("util" + ClassName) + ";\n";
  }

  /** The corrected line imports the helper class from its package. */
  lemma ImportLineImportsClass()
    ensures ImportsClass(ImportLine, ClassName)
    ensures ImportLine[7..|ImportLine| - |ClassName| - 3] == PackagePath
  {
    ClassNameHasNoDot();
    var l := ImportLine;
    assert l[..7] == "import ";
    assert l[|l| - 28..] == "." + ClassName + ";\n";
  }

  /** The index of the first line whose stripped text starts with `package`,
      or -1 when there is none. */
  function PackageIndex(lines: seq<string>, from: nat): (i: int)
    requires from <= |lines|
    ensures i == -1 || (from <= i < |lines| && StartsWith(Strip(lines[i]), "package"))
    ensures forall j :: from <= j < |lines| && (i == -1 || j < i) ==> !StartsWith(Strip(lines[j]), "package")
    decreases |lines| - from
  {
    if from == |lines| then -1
    else if StartsWith(Strip(lines[from]), "package") then from
    else PackageIndex(lines, from + 1)
  }

  /** `lines.insert(i + 1, extra)` when `i` is an index, no change for -1. */
  function InsertAfter(lines: seq<string>, i: int, extra: string): seq<string>
    requires -1 <= i < |lines|
  {
    if i == -1 then lines else lines[..i + 1] + [extra] + lines[i + 1..]
  }

  /** The insertion adds one line, `extra` itself, and all others are lines
      of the input. */
  lemma InsertAfterLines(lines: seq<string>, i: int, extra: string)
    requires -1 <= i < |lines|
    ensures var r := InsertAfter(lines, i, extra);
      && |r| == |lines| + (if i == -1 then 0 else 1)
      && (i != -1 ==> r[i + 1] == extra)
      && forall k :: 0 <= k < |r| ==> r[k] == extra || r[k] in lines
  {
    var r := InsertAfter(lines, i, extra);
    if i != -1 {
      forall k | 0 <= k < |r|
        ensures r[k] == extra || r[k] in lines
      {
        if k <= i {
          assert r[k] == lines[k];
        } else if k > i + 1 {
          assert r[k] == lines[k - 1];
        }
      }
    }
  }

  /** The lines after the import, as the script writes it, is inserted under
      the package line. */
  function WithImport(lines: seq<string>): seq<string>
  {
    InsertAfter(lines, PackageIndex(lines, 0), ImportLineAsWritten)
  }

  /** The loop of `process_file` over its lines, threading the catalog. */
  function RewriteLines(lines: seq<string>, c: Catalog): (r: (seq<string>, Catalog))
    ensures |r.0| == |lines|
  {
    if lines == [] then ([], c)
    else
      var before := RewriteLines(lines[..|lines| - 1], c);
      var last := RewrittenLine(lines[|lines| - 1], before.1);
      (before.0 + [last.0], last.1)
  }

  /** `process_file`: the new lines of the file and the catalog after them. */
  function ProcessedFile(lines: seq<string>, c: Catalog): (seq<string>, Catalog)
  {
    RewriteLines(WithImport(lines), c)
  }

  lemma RewriteLinesSnoc(lines: seq<string>, k: nat, c: Catalog)
    requires k < |lines|
    ensures var before := RewriteLines(lines[..k], c);
      var last := RewrittenLine(lines[k], before.1);
      RewriteLines(lines[..k + 1], c) == (before.0 + [last.0], last.1)
  {
    assert lines[..k + 1][..k] == lines[..k];
  }

  /** One turn of the loop of `process_file`. */
  lemma RewriteLinesStep(lines: seq<string>, k: nat, c: Catalog, out: seq<string>, d: Catalog, line: string, e: Catalog)
    requires k < |lines|
    requires out == RewriteLines(lines[..k], c).0 && d == RewriteLines(lines[..k], c).1
    requires (line, e) == RewrittenLine(lines[k], d)
    ensures out + [line] == RewriteLines(lines[..k + 1], c).0 && e == RewriteLines(lines[..k + 1], c).1
  {
    RewriteLinesSnoc(lines, k, c);
  }

  /** The `k`-th output line is the `k`-th input line processed with the
      catalog as the lines before it left it. */
  lemma {:induction false} RewriteLinesAt(lines: seq<string>, c: Catalog, k: nat)
    requires k < |lines|
    ensures RewriteLines(lines, c).0[k] == RewrittenLine(lines[k], RewriteLines(lines[..k], c).1).0
    decreases |lines|
  {
    var init := lines[..|lines| - 1];
    var before := RewriteLines(init, c);
    assert RewriteLines(lines, c).0 == before.0 + [RewrittenLine(lines[|lines| - 1], before.1).0];
    if k < |lines| - 1 {
      RewriteLinesAt(init, c, k);
      assert init[..k] == lines[..k];
    } else {
      assert init == lines[..k];
    }
  }

  lemma {:induction false} RewriteLinesExtends(lines: seq<string>, c: Catalog)
    requires ValidCatalog(c)
    ensures ValidCatalog(RewriteLines(lines, c).1) && Extends(c, RewriteLines(lines, c).1)
  {
    if lines == [] {
      ExtendsReflexive(c);
    } else {
      var before := RewriteLines(lines[..|lines| - 1], c);
      RewriteLinesExtends(lines[..|lines| - 1], c);
      RewrittenLineExtends(lines[|lines| - 1], before.1);
      ExtendsTransitive(c, before.1, RewrittenLine(lines[|lines| - 1], before.1).1);
    }
  }

  /** A line with no double quote has no literal. */
  lemma NoQuoteNoLiteral(line: string)
    requires forall i :: 0 <= i < |line| ==> line[i] != '"'
    ensures forall p, q :: !LiteralAt(line, p, q)
  {
  }

  lemma ImportLineHasNoLiteral()
    ensures NoCjkLiteral(ImportLineAsWritten)
  {
    var l := ImportLineAsWritten;
    assert forall i :: 0 <= i < |l| ==> l[i] != '"';
    NoQuoteNoLiteral(l);
  }

  lemma ImportLineUnchanged(c: Catalog)
    ensures RewrittenLine(ImportLineAsWritten, c) == (ImportLineAsWritten, c)
  {
    ImportLineHasNoLiteral();
    LineWithoutCjk(ImportLineAsWritten, c);
  }

  /** The file gains exactly one line, the import, right under its first
      package line, or none when it has no package line. */
  lemma ProcessedFileImport(lines: seq<string>, c: Catalog)
    ensures var out := ProcessedFile(lines, c).0;
      var i := PackageIndex(lines, 0);
      && |out| == |lines| + (if i == -1 then 0 else 1)
      && (i != -1 ==> out[i + 1] == ImportLineAsWritten)
  {
    var i := PackageIndex(lines, 0);
    InsertAfterLines(lines, i, ImportLineAsWritten);
    if i != -1 {
      var all := WithImport(lines);
      RewriteLinesAt(all, c, i + 1);
      ImportLineUnchanged(RewriteLines(all[..i + 1], c).1);
    }
  }

  /** No literal of `line` holds Chinese text. */
  ghost predicate NoCjkLiteral(line: string)
  {
    forall p, q :: LiteralAt(line, p, q) ==> !HasCjk(line[p + 1..q])
  }

  lemma {:induction false} RewriteLinesWithoutCjk(lines: seq<string>, c: Catalog)
    requires forall k :: 0 <= k < |lines| ==> NoCjkLiteral(lines[k])
    ensures RewriteLines(lines, c) == (lines, c)
  {
    if lines != [] {
      var n := |lines| - 1;
      var init := lines[..n];
      RewriteLinesWithoutCjk(init, c);
      LineWithoutCjk(lines[n], c);
      RewriteLinesStep(lines, n, c, init, c, lines[n], c);
      assert lines[..n + 1] == lines == init + [lines[n]];
    }
  }

  lemma InsertedWithoutCjk(lines: seq<string>, i: int, extra: string)
    requires -1 <= i < |lines|
    requires NoCjkLiteral(extra) && forall line | line in lines :: NoCjkLiteral(line)
    ensures forall k :: 0 <= k < |InsertAfter(lines, i, extra)| ==> NoCjkLiteral(InsertAfter(lines, i, extra)[k])
  {
    InsertAfterLines(lines, i, extra);
  }

  /** A file none of whose literals holds Chinese text only gains the import,
      and the catalog does not change. */
  lemma FileWithoutCjk(lines: seq<string>, c: Catalog)
    requires forall line | line in lines :: NoCjkLiteral(line)
    ensures ProcessedFile(lines, c) == (WithImport(lines), c)
  {
    ImportLineHasNoLiteral();
    InsertedWithoutCjk(lines, PackageIndex(lines, 0), ImportLineAsWritten);
    RewriteLinesWithoutCjk(WithImport(lines), c);
  }

  /** Processing a file only adds entries to the catalog, at its end. */
  lemma ProcessedFileExtends(lines: seq<string>, c: Catalog)
    requires ValidCatalog(c)
    ensures ValidCatalog(ProcessedFile(lines, c).1) && Extends(c, ProcessedFile(lines, c).1)
  {
    RewriteLinesExtends(WithImport(lines), c);
  }

  /** The search for the package line at the start of `process_file`. */
  method FindPackageLine(lines: seq<string>) returns (index: int)
    ensures index == PackageIndex(lines, 0)
  {
    index := -1;
    var i := 0;
    while i < |lines|
      invariant 0 <= i <= |lines|
      invariant PackageIndex(lines, 0) == PackageIndex(lines, i)
    {
      if StartsWith(Strip(lines[i]), "package") {
        index := i;
        break;
      }
      i := i + 1;
    }
  }

  /** `process_file` on the catalog the script updates in place. */
  method ProcessFile(lines: seq<string>, catalog: MessageCatalog) returns (newLines: seq<string>)
    requires catalog.Valid()
    modifies catalog
    ensures catalog.Valid()
    ensures (newLines, catalog.Model()) == ProcessedFile(lines, old(catalog.Model()))
  {
    var packageLineIndex := FindPackageLine(lines);
    var all := InsertAfter(lines, packageLineIndex, ImportLineAsWritten);
    newLines := ProcessLines(all, catalog);
  }

  /** The loop of `process_file` calling `process_line` on each line. */
  method ProcessLines(all: seq<string>, catalog: MessageCatalog) returns (newLines: seq<string>)
    requires catalog.Valid()
    modifies catalog
    ensures catalog.Valid()
    ensures (newLines, catalog.Model()) == RewriteLines(all, old(catalog.Model()))
  {
    ghost var c0 := catalog.Model();
    newLines := [];
    var k := 0;
    while k < |all|
      invariant 0 <= k <= |all|
      invariant catalog.Valid()
      invariant newLines == RewriteLines(all[..k], c0).0
      invariant catalog.Model() == RewriteLines(all[..k], c0).1
    {
      ghost var before := catalog.Model();
      var newLine := ProcessLine(all[k], catalog);
      RewriteLinesStep(all, k, c0, newLines, before, newLine, catalog.Model());
      newLines := newLines + [newLine];
      k := k + 1;
    }
    assert all[..k] == all;
  }

  // ---------------------------------------------------------------------
  // Which files are processed (processing_hardcoded_words.py:59)
  // ---------------------------------------------------------------------

  /** A Java source other than `StringUtil.java` and the `*Mapper.java` files. */
  predicate IsProcessedFile(name: string)
  {
    EndsWith(name, ".java") && name != "StringUtil.java" && !EndsWith(name, "Mapper.java")
  }

  /** For a Java source named `<stem>.java` the filter keeps it exactly when
      the stem is not `StringUtil` and does not end in `Mapper`. */
  lemma ProcessedFileStem(stem: string)
    ensures IsProcessedFile(stem + ".java") <==> stem != "StringUtil" && !EndsWith(stem, "Mapper")
  {
    var name := stem + ".java";
    assert name[|stem|..] == ".java";
    assert EndsWith(name, "Mapper.java") <==> EndsWith(stem, "Mapper") by {
      if |stem| >= 6 {
        assert name[|name| - 11..] == stem[|stem| - 6..] + ".java";
      } else {
        assert |name| < 11;
      }
    }
    assert name == "StringUtil.java" <==> stem == "StringUtil" by {
      if name == "StringUtil.java" {
        assert stem == name[..|stem|] == "StringUtil";
      }
    }
  }

  lemma ControllerProcessed()
    ensures IsProcessedFile("UserController.java")
  {
    var n := "UserController.java";
    assert n[|n| - 5..] == ".java";
    assert n[|n| - 11..][0] == 'r';
  }

  lemma MapperNotProcessed()
    ensures !IsProcessedFile("UserMapper.java")
  {
    var n := "UserMapper.java";
    assert n[|n| - 11..] == "Mapper.java";
  }
}
