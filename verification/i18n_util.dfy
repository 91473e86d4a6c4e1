/**
 * The pure parts of the Java runtime helper I18nAutoTextProcessorUtil: the
 * Chinese-character test and filter, the key routing of `getMessage`, the
 * translation of a JSON tree, and the collection of its Chinese texts into
 * an append-only `key=value` log.  The resource bundle is a map and the log
 * file a sequence of lines.
 */
module I18nUtil {
  import opened Text
  import HardcodedWords

  // ---------------------------------------------------------------------
  // containsChinese (I18nAutoTextProcessorUtil.java:259-261)
  // ---------------------------------------------------------------------

  /** The range the helper treats as Chinese, U+4E00 to U+9FA5. */
  predicate IsChinese(c: char)
  {
    '\U{4E00}' <= c <= '\U{9FA5}'
  }

  predicate ContainsChinese(text: string)
  {
    exists i :: 0 <= i < |text| && IsChinese(text[i])
  }

  /** The helper's range lies inside the one the literal extractor uses ... */
  lemma ChineseIsCjk(text: string)
    ensures ContainsChinese(text) ==> HardcodedWords.HasCjk(text)
  {
    if ContainsChinese(text) {
      var i :| 0 <= i < |text| && IsChinese(text[i]);
      assert HardcodedWords.IsCjk(text[i]);
    }
  }

  /** ... and is strictly narrower: U+9FA6 counts for one and not the other. */
  lemma ChineseNarrowerThanCjk()
    ensures HardcodedWords.HasCjk("\U{9FA6}") && !ContainsChinese("\U{9FA6}")
  {
    assert HardcodedWords.IsCjk("\U{9FA6}"[0]);
  }

  // ---------------------------------------------------------------------
  // extractAlphanumericAndChinese (I18nAutoTextProcessorUtil.java:50, 263-270)
  // ---------------------------------------------------------------------

  /** The characters of the pattern `[0-9a-zA-Z一-龥]`. */
  predicate IsKept(c: char)
  {
    IsDigit(c) || IsLower(c) || IsUpper(c) || IsChinese(c)
  }

  /** The kept characters of `text`, in the order they occur there. */
  function Extract(text: string): (r: string)
    ensures |r| <= |text|
    ensures forall i :: 0 <= i < |r| ==> IsKept(r[i])
  {
    if text == [] then []
    else
      var last := text[|text| - 1];
      Extract(text[..|text| - 1]) + (if IsKept(last) then [last] else [])
  }

  lemma ExtractSnoc(text: string, k: nat)
    requires k < |text|
    ensures Extract(text[..k + 1]) == Extract(text[..k]) + (if IsKept(text[k]) then [text[k]] else [])
  {
    assert text[..k + 1][..k] == text[..k];
  }

  /** A character survives the filter exactly when it is kept. */
  lemma {:induction false} ExtractMembership(text: string, c: char)
    ensures c in Extract(text) <==> c in text && IsKept(c)
  {
    if text != [] {
      var init := text[..|text| - 1];
      ExtractMembership(init, c);
      assert text == init + [text[|text| - 1]];
    }
  }

  /** Outside U+9FA6 to U+9FFF the helper's filter and the literal
      extractor's agree, so a key built by the extractor is rebuilt here. */
  lemma {:induction false} ExtractAgreesWithKeyChars(text: string)
    requires forall i :: 0 <= i < |text| ==> !('\U{9FA6}' <= text[i] <= '\U{9FFF}')
    ensures Extract(text) == HardcodedWords.KeyChars(text)
  {
    if text != [] {
      ExtractAgreesWithKeyChars(text[..|text| - 1]);
    }
  }

  lemma ExtractRunStep(text: string, start: nat, end: nat)
    requires start <= end < |text| && IsKept(text[end])
    requires Extract(text[..end]) == Extract(text[..start]) + text[start..end]
    ensures Extract(text[..end + 1]) == Extract(text[..start]) + text[start..end + 1]
  {
    ExtractSnoc(text, end);
    assert text[start..end + 1] == text[start..end] + [text[end]];
  }

  /** The loop over the matches of the pattern: each match is a maximal run
      of kept characters, and the runs are appended in order. */
  method ExtractAlphanumericAndChinese(text: string) returns (r: string)
    ensures r == Extract(text)
  {
    r := [];
    var pos := 0;
    while pos < |text|
      invariant 0 <= pos <= |text|
      invariant r == Extract(text[..pos])
      decreases |text| - pos
    {
      var start := pos;
      while start < |text| && !IsKept(text[start])
        invariant pos <= start <= |text|
        invariant Extract(text[..start]) == Extract(text[..pos])
      {
        ExtractSnoc(text, start);
        start := start + 1;
      }
      var end := start;
      while end < |text| && IsKept(text[end])
        invariant start <= end <= |text|
        invariant end == start ==> start == |text| || IsKept(text[start])
        invariant Extract(text[..end]) == Extract(text[..start]) + text[start..end]
      {
        ExtractRunStep(text, start, end);
        end := end + 1;
      }
      r := r + text[start..end];
      pos := end;
    }
    assert text[..pos] == text;
  }

  // ---------------------------------------------------------------------
  // getMessage (I18nAutoTextProcessorUtil.java:113-132)
  // ---------------------------------------------------------------------

  /** The characters of the regular expression `\s`. */
  predicate IsRegexSpace(c: char)
  {
    c == ' ' || c == '\t' || c == '\n' || c == '\U{0B}' || c == '\U{0C}' || c == '\r'
  }

  /** `key.replaceAll("\\s+", "")`. */
  function RemoveWhitespace(s: string): (r: string)
    ensures forall i :: 0 <= i < |r| ==> !IsRegexSpace(r[i])
  {
    if s == [] then []
    else
      var last := s[|s| - 1];
      RemoveWhitespace(s[..|s| - 1]) + (if IsRegexSpace(last) then [] else [last])
  }

  lemma {:induction false} RemoveWhitespaceNoop(s: string)
    requires forall i :: 0 <= i < |s| ==> !IsRegexSpace(s[i])
    ensures RemoveWhitespace(s) == s
  {
    if s != [] {
      RemoveWhitespaceNoop(s[..|s| - 1]);
    }
  }

  /** `bundle.getString(k)`, the `MissingResourceException` handler giving
      back `fallback`. */
  function Lookup(bundle: map<string, string>, k: string, fallback: string): string
  {
    if k in bundle then bundle[k] else fallback
  }

  const MessageSuffix := ".message"

  /** The routing as written: a key ending in `.message` is looked up without
      its white space, a key with Chinese text through its filtered form
      followed by `.message`, and any other key is returned as it is.
      Whatever the route, the answer is the key itself or a value of the
      bundle. */
  function GetMessageAsWritten(bundle: map<string, string>, key: string): (r: string)
    ensures r == key || r in bundle.Values
  {
    if EndsWith(key, MessageSuffix) then Lookup(bundle, RemoveWhitespace(key), key)
    else if ContainsChinese(key) then Lookup(bundle, Extract(key) + MessageSuffix, key)
    else key
  }

  /** `key` without its trailing decimal digits. */
  function TrimDigits(key: string): (r: string)
    ensures |r| <= |key| && r == key[..|r|]
    ensures forall i :: |r| <= i < |key| ==> IsDigit(key[i])
    ensures r == [] || !IsDigit(r[|r| - 1])
  {
    if key != [] && IsDigit(key[|key| - 1]) then TrimDigits(key[..|key| - 1]) else key
  }

  /** The corrected routing: a key ending in `.message` followed by any
      number of digits, which is every key the literal extractor writes, is
      looked up as it stands. */
  function GetMessage(bundle: map<string, string>, key: string): (r: string)
    ensures r == key || r in bundle.Values
  {
    if EndsWith(TrimDigits(key), MessageSuffix) then Lookup(bundle, RemoveWhitespace(key), key)
    else if ContainsChinese(key) then Lookup(bundle, Extract(key) + MessageSuffix, key)
    else key
  }

  /** With nothing in the bundle every key comes back unchanged. */
  lemma GetMessageEmptyBundle(key: string)
    ensures GetMessage(map[], key) == key && GetMessageAsWritten(map[], key) == key
  {
  }

  /** A key ending in `.message` has no trailing digits to trim. */
  lemma MessageKeyUntrimmed(key: string)
    ensures EndsWith(key, MessageSuffix) ==> TrimDigits(key) == key
  {
    if EndsWith(key, MessageSuffix) {
      assert key[|key| - 1] == MessageSuffix[|MessageSuffix| - 1];
    }
  }

  /** A key that is neither a message key nor holds Chinese text comes back
      unchanged whatever the bundle holds. */
  lemma GetMessagePlainText(bundle: map<string, string>, key: string)
    requires !EndsWith(TrimDigits(key), MessageSuffix) && !ContainsChinese(key)
    ensures GetMessage(bundle, key) == key && GetMessageAsWritten(bundle, key) == key
  {
    MessageKeyUntrimmed(key);
  }

  /** Trimming the digits of a number written after a text that does not end
      in a digit gives that text back. */
  lemma TrimDigitsAppend(s: string, n: nat)
    requires s != [] && !IsDigit(s[|s| - 1])
    ensures TrimDigits(s + Decimal(n)) == s
  {
    var full := s + Decimal(n);
    var t := TrimDigits(full);
    assert forall i :: |s| <= i < |full| ==> IsDigit(full[i]);
    assert !IsDigit(full[|s| - 1]);
    assert |t| == |s|;
    assert t == full[..|s|] == s;
  }

  lemma KeyCharsNoSpace(s: string)
    requires forall i :: 0 <= i < |s| ==> HardcodedWords.IsKeyChar(s[i])
    ensures forall i :: 0 <= i < |s + MessageSuffix| ==> !IsRegexSpace((s + MessageSuffix)[i])
  {
  }

  /** Every key the literal extractor can give out, the base key or the base
      key with a number, is looked up as it stands. */
  lemma {:induction false} GetMessageResolvesProbeKey(bundle: map<string, string>, extracted: string, n: nat)
    requires forall i :: 0 <= i < |extracted| ==> HardcodedWords.IsKeyChar(extracted[i])
    requires HardcodedWords.ProbeKey(extracted + MessageSuffix, n) in bundle
    ensures var key := HardcodedWords.ProbeKey(extracted + MessageSuffix, n);
      GetMessage(bundle, key) == bundle[key]
  {
    var base := extracted + MessageSuffix;
    var key := HardcodedWords.ProbeKey(base, n);
    KeyCharsNoSpace(extracted);
    assert base[|base| - 1] == 'e';
    if n == 0 {
      assert TrimDigits(base) == base;
    } else {
      TrimDigitsAppend(base, n);
      assert forall i :: 0 <= i < |key| ==> !IsRegexSpace(key[i]);
    }
    RemoveWhitespaceNoop(key);
  }

  /** The literal extractor and the helper together: the key a literal is
      given, looked up in the catalog the extractor leaves behind, is the
      literal's own text. */
  lemma AssignedKeyResolves(c: HardcodedWords.Catalog, text: string)
    ensures var kd := HardcodedWords.AssignKey(c, HardcodedWords.KeyChars(text), text);
      GetMessage(kd.1.entries, kd.0) == text
  {
    var extracted := HardcodedWords.KeyChars(text);
    HardcodedWords.AssignKeyResult(c, extracted, text);
    var kd := HardcodedWords.AssignKey(c, extracted, text);
    var m: nat :| kd.0 == HardcodedWords.ProbeKey(extracted + MessageSuffix, m);
    GetMessageResolvesProbeKey(kd.1.entries, extracted, m);
  }

  /** As written, a numbered key misses: `中.message1` is routed through the
      Chinese branch to `中message1.message`, which is not in the bundle, and
      the key itself is returned instead of the stored text. */
  lemma NumberedKeyUnresolvedAsWritten()
    ensures var key := "\U{4E2D}.message1";
      var bundle := map[key := "\U{4E2D}"];
      GetMessageAsWritten(bundle, key) == key && GetMessage(bundle, key) == "\U{4E2D}"
  {
    NumberedKeyMissed();
    NumberedKeyFound();
  }

  lemma NumberedKeyMissed()
    ensures var key := "\U{4E2D}.message1";
      GetMessageAsWritten(map[key := "\U{4E2D}"], key) == key
  {
    var key := "\U{4E2D}.message1";
    var bundle := map[key := "\U{4E2D}"];
    assert !EndsWith(key, MessageSuffix) && ContainsChinese(key) by {
      assert key[|key| - 1] == '1' && MessageSuffix[|MessageSuffix| - 1] == 'e';
      assert IsChinese(key[0]);
    }
    assert Extract(key) + MessageSuffix !in bundle by {
      NumberedKeyExtract();
      assert ("\U{4E2D}message1" + MessageSuffix)[1] == 'm' && key[1] == '.';
    }
  }

  lemma NumberedKeyFound()
    ensures var key := "\U{4E2D}.message1";
      GetMessage(map[key := "\U{4E2D}"], key) == "\U{4E2D}"
  {
    var key := "\U{4E2D}.message1";
    assert EndsWith(TrimDigits(key), MessageSuffix) by {
      NumberedKeyTrimmed();
      assert "\U{4E2D}.message"[1..] == MessageSuffix;
    }
    assert forall i :: 0 <= i < |key| ==> !IsRegexSpace(key[i]) by {
      assert IsChinese(key[0]);
    }
    RemoveWhitespaceNoop(key);
  }


  /** The Chinese branch turns `中.message1` into `中message1`. */
  lemma NumberedKeyExtract()
    ensures Extract("\U{4E2D}.message1") == "\U{4E2D}message1"
  {
    assert Extract("\U{4E2D}.") == "\U{4E2D}" by {
      assert "\U{4E2D}."[..1] == "\U{4E2D}";
      assert "\U{4E2D}"[..0] == [];
    }
    ExtractAppendKept("\U{4E2D}.", "message1");
    assert "\U{4E2D}." + "message1" == "\U{4E2D}.message1";
  }

  /** Trimming the digits of `中.message1` leaves a key ending in `.message`. */
  lemma NumberedKeyTrimmed()
    ensures TrimDigits("\U{4E2D}.message1") == "\U{4E2D}.message"
  {
    assert "\U{4E2D}.message1"[..9] == "\U{4E2D}.message";
  }

  /** Appending characters that are all kept appends them to the filtered text. */
  lemma {:induction false} ExtractAppendKept(a: string, b: string)
    requires forall i :: 0 <= i < |b| ==> IsKept(b[i])
    ensures Extract(a + b) == Extract(a) + b
    decreases |b|
  {
    if b == [] {
      assert a + b == a;
    } else {
      var b' := b[..|b| - 1];
      assert (a + b)[..|a + b| - 1] == a + b';
      ExtractAppendKept(a, b');
    }
  }

  // ---------------------------------------------------------------------
  // The JSON tree and translatePropertiesRecursive
  // (I18nAutoTextProcessorUtil.java:156-191)
  // ---------------------------------------------------------------------

  /** A JSON value; object fields keep their order. */
  datatype Json =
    | JNull
    | JBool(b: bool)
    | JNumber(n: int)
    | JText(s: string)
    | JArray(items: seq<Json>)
    | JObject(fields: seq<(string, Json)>)

  /** The fields whose values are never translated. */
  predicate Excluded(name: string)
  {
    name == "id" || name == "parentId" || name == "delFlag"
  }

  /** Two trees with the same shape: the same constructors, the same array
      lengths, the same field names in the same order, and the same non-text
      leaves; only text may differ. */
  predicate SameShape(a: Json, b: Json)
  {
    || a == b
    || match a
       case JText(_) => b.JText?
       case JArray(xs) =>
         b.JArray? && |b.items| == |xs| && forall i :: 0 <= i < |xs| ==> SameShape(xs[i], b.items[i])
       case JObject(fs) =>
         && b.JObject? && |b.fields| == |fs|
         && forall i :: 0 <= i < |fs| ==> b.fields[i].0 == fs[i].0 && SameShape(fs[i].1, b.fields[i].1)
       case _ => false
  }

  /** Every text leaf becomes its message, as the helper routes it, except
      under an excluded field; everything else keeps its place, so the tree
      keeps its shape. */
  function Translate(bundle: map<string, string>, node: Json): (r: Json)
    ensures SameShape(node, r)
  {
    match node
    case JText(s) => JText(GetMessageAsWritten(bundle, s))
    case JArray(items) =>
      JArray(seq(|items|, i requires 0 <= i < |items| => Translate(bundle, items[i])))
    case JObject(fields) =>
      JObject(seq(|fields|, i requires 0 <= i < |fields| =>
        (fields[i].0, if Excluded(fields[i].0) then fields[i].1 else Translate(bundle, fields[i].1))))
    case _ => node
  }

  /** With an empty bundle the translation changes nothing. */
  lemma {:induction false} TranslateEmptyBundle(node: Json)
    ensures Translate(map[], node) == node
  {
    var t := Translate(map[], node);
    match node
    case JText(s) =>
      GetMessageEmptyBundle(s);
    case JArray(xs) =>
      forall i | 0 <= i < |xs| ensures t.items[i] == xs[i] {
        TranslateEmptyBundle(xs[i]);
      }
      assert t.items == xs;
    case JObject(fs) =>
      forall i | 0 <= i < |fs| ensures t.fields[i] == fs[i] {
        TranslateEmptyBundle(fs[i].1);
      }
      assert t.fields == fs;
    case _ =>
  }

  /** An `id` holding Chinese text keeps it while a `name` beside it is
      translated. */
  lemma SingleChineseExtract(k: string)
    requires |k| == 1 && IsChinese(k[0])
    ensures Extract(k) == k
  {
    assert k[..0] == [];
    assert Extract(k) == Extract(k[..0]) + [k[0]];
  }

  lemma SingleChineseRoute(k: string)
    requires |k| == 1 && IsChinese(k[0])
    ensures !EndsWith(k, MessageSuffix) && ContainsChinese(k)
  {
    assert |MessageSuffix| == 8;
  }

  /** A one-character Chinese text is looked up as itself followed by
      `.message`. */
  lemma ChineseCharKey(bundle: map<string, string>, k: string)
    requires |k| == 1 && IsChinese(k[0])
    ensures GetMessageAsWritten(bundle, k) == Lookup(bundle, k + MessageSuffix, k)
    ensures Extract(k) == k
  {
    SingleChineseExtract(k);
    SingleChineseRoute(k);
  }

  lemma IdKeptNameTranslated(k: string, text: string)
    requires |k| == 1 && IsChinese(k[0])
    ensures var bundle := map[k + MessageSuffix := text];
      var node := JObject([("id", JText(k)), ("name", JText(k))]);
      Translate(bundle, node) == JObject([("id", JText(k)), ("name", JText(text))])
  {
    var bundle := map[k + MessageSuffix := text];
    var node := JObject([("id", JText(k)), ("name", JText(k))]);
    assert Translate(bundle, JText(k)) == JText(text) by {
      ChineseCharKey(bundle, k);
    }
    assert !Excluded("name") by { assert "name"[0] == 'n'; }
    var t := Translate(bundle, node);
    assert t.fields[0] == ("id", JText(k));
    assert t.fields[1] == ("name", JText(text));
    assert t.fields == [("id", JText(k)), ("name", JText(text))];
  }


  // ---------------------------------------------------------------------
  // writeIfUnique (I18nAutoTextProcessorUtil.java:290-313), on the lines
  // of the log file
  // ---------------------------------------------------------------------

  /** A log line `key=value`. */
  function LogLine(key: string, value: string): string
  {
    key + "=" + value
  }

  /** The map built from the log: each line with `=` split at its first `=`,
      a later line for the same key replacing an earlier one. */
  function ParsedEntries(lines: seq<string>): map<string, string>
  {
    if lines == [] then map[]
    else
      var entries := ParsedEntries(lines[..|lines| - 1]);
      var line := lines[|lines| - 1];
      if '=' in line then
        var kv := SplitFirst(line, '=');
        entries[kv.0 := kv.1]
      else entries
  }

  /** Each parsed entry comes from a line of the log that is exactly that
      entry. */
  lemma {:induction false} ParsedEntryHasLine(lines: seq<string>, key: string)
    requires key in ParsedEntries(lines)
    ensures LogLine(key, ParsedEntries(lines)[key]) in lines
  {
    var init := lines[..|lines| - 1];
    var line := lines[|lines| - 1];
    assert lines == init + [line];
    if '=' in line && SplitFirst(line, '=').0 == key {
      assert line == LogLine(key, ParsedEntries(lines)[key]);
    } else {
      ParsedEntryHasLine(init, key);
    }
  }

  predicate IsBreak(c: char)
  {
    c == '\n' || c == '\r'
  }

  predicate NoBreak(s: string)
  {
    forall i :: 0 <= i < |s| ==> !IsBreak(s[i])
  }

  /** The first line break at or after `from`, or the end of the text. */
  function FirstBreak(s: string, from: nat): (i: nat)
    requires from <= |s|
    ensures from <= i <= |s| && (i < |s| ==> IsBreak(s[i]))
    ensures forall j :: from <= j < i ==> !IsBreak(s[j])
    decreases |s| - from
  {
    if from == |s| || IsBreak(s[from]) then from else FirstBreak(s, from + 1)
  }

  /** The lines `Files.readAllLines` gives for a text: it is cut at every
      `\n`, `\r` and `\r\n`, and a final terminator ends the last line
      rather than starting an empty one. No line holds a break. */
  function ReadLines(s: string): (lines: seq<string>)
    ensures forall k :: 0 <= k < |lines| ==> NoBreak(lines[k])
    decreases |s|
  {
    if s == [] then []
    else
      var i := FirstBreak(s, 0);
      if i == |s| then [s]
      else
        var next := if s[i] == '\r' && i + 1 < |s| && s[i + 1] == '\n' then i + 2 else i + 1;
        [s[..i]] + ReadLines(s[next..])
  }

  /** A text without breaks followed by `\n` reads as that one line, then
      the lines of what follows. */
  lemma ReadLinesJoin(t: string, rest: string)
    requires NoBreak(t)
    ensures ReadLines(t + "\n" + rest) == [t] + ReadLines(rest)
  {
    var s := t + "\n" + rest;
    assert FirstBreak(s, 0) == |t| by {
      assert IsBreak(s[|t|]);
      assert forall j :: 0 <= j < |t| ==> s[j] == t[j];
    }
    assert s[..|t|] == t;
    assert s[|t| + 1..] == rest;
  }

  /** A text without breaks, written with its terminator, reads back as
      that one line. */
  lemma ReadLinesSingle(t: string)
    requires NoBreak(t)
    ensures ReadLines(t + "\n") == [t]
  {
    ReadLinesJoin(t, []);
    assert t + "\n" + [] == t + "\n";
  }

  /** The lines the log gains when `key=value` is written with its line
      separator and the file is read again: one line, or several when the
      value holds line breaks. */
  function Appended(key: string, value: string): seq<string>
  {
    ReadLines(LogLine(key, value) + "\n")
  }

  /** The log after `writeIfUnique(processed, original)`: the lines of
      `processed.message=original` are appended unless the log already maps
      that key to `original`. */
  function WrittenLog(lines: seq<string>, processed: string, original: string): seq<string>
  {
    var key := processed + MessageSuffix;
    var entries := ParsedEntries(lines);
    if key !in entries || entries[key] != original then lines + Appended(key, original) else lines
  }

  lemma LogLineNoBreak(key: string, value: string)
    requires NoBreak(key) && NoBreak(value)
    ensures NoBreak(LogLine(key, value))
  {
    var line := LogLine(key, value);
    forall i | 0 <= i < |line| ensures !IsBreak(line[i]) {
      if i < |key| {
        assert line[i] == key[i];
      } else if i > |key| {
        assert line[i] == value[i - |key| - 1];
      }
    }
  }

  lemma MessageKeyNoBreak(processed: string)
    requires NoBreak(processed)
    ensures NoBreak(processed + MessageSuffix)
  {
  }

  /** Earlier lines are never rewritten; a pair without line breaks is in
      the log afterwards as one line, appended or found. */
  lemma WrittenLogAppendOnly(lines: seq<string>, processed: string, original: string)
    ensures var r := WrittenLog(lines, processed, original);
      && (r == lines || r == lines + Appended(processed + MessageSuffix, original))
      && (NoBreak(processed) && NoBreak(original) ==> LogLine(processed + MessageSuffix, original) in r)
  {
    var key := processed + MessageSuffix;
    var entries := ParsedEntries(lines);
    if key in entries && entries[key] == original {
      ParsedEntryHasLine(lines, key);
    } else if NoBreak(processed) && NoBreak(original) {
      MessageKeyNoBreak(processed);
      LogLineNoBreak(key, original);
      ReadLinesSingle(LogLine(key, original));
      var r := WrittenLog(lines, processed, original);
      assert r[|lines|] == LogLine(key, original);
    }
  }

  /** Writing the same pair again changes nothing, when neither text holds a
      line break. */
  lemma WrittenLogIdempotent(lines: seq<string>, processed: string, original: string)
    requires '=' !in processed && NoBreak(processed) && NoBreak(original)
    ensures var r := WrittenLog(lines, processed, original);
      WrittenLog(r, processed, original) == r
  {
    var key := processed + MessageSuffix;
    var r := WrittenLog(lines, processed, original);
    if r != lines {
      assert '=' !in key by {
        assert forall i :: 0 <= i < |MessageSuffix| ==> MessageSuffix[i] != '=';
      }
      MessageKeyNoBreak(processed);
      LogLineNoBreak(key, original);
      ReadLinesSingle(LogLine(key, original));
      SplitFirstUnique(key, original, '=');
      assert r[..|r| - 1] == lines;
    }
  }

  /** A text with a line break is written again on every call: the log reads
      it back as two lines, the first parsed as the key mapped to the text's
      first line and the second without `=`, so the key never maps to the
      whole text. */
  lemma MultiLineTextRewritten(processed: string, first: string, second: string)
    requires '=' !in processed && NoBreak(processed) && NoBreak(first) && NoBreak(second) && '=' !in second
    ensures var text := first + "\n" + second;
      var once := WrittenLog([], processed, text);
      && once == [LogLine(processed + MessageSuffix, first), second]
      && WrittenLog(once, processed, text) == once + once
  {
    var key := processed + MessageSuffix;
    var text := first + "\n" + second;
    MessageKeyNoBreak(processed);
    MultiLineReadBack(key, first, second);
    var once := WrittenLog([], processed, text);
    assert once == [LogLine(key, first), second];
    assert ParsedEntries(once) == map[key := first] by {
      assert '=' !in key by {
        assert forall i :: 0 <= i < |MessageSuffix| ==> MessageSuffix[i] != '=';
      }
      assert once[..1] == [LogLine(key, first)];
      assert once[..1][..0] == [];
      SplitFirstUnique(key, first, '=');
    }
    assert |text| > |first|;
  }

  /** A pair whose value holds one `\n` reads back as two lines. */
  lemma MultiLineReadBack(key: string, first: string, second: string)
    requires NoBreak(key) && NoBreak(first) && NoBreak(second)
    ensures Appended(key, first + "\n" + second) == [LogLine(key, first), second]
  {
    LogLineNoBreak(key, first);
    assert LogLine(key, first + "\n" + second) + "\n" == LogLine(key, first) + "\n" + (second + "\n");
    ReadLinesJoin(LogLine(key, first), second + "\n");
    ReadLinesSingle(second);
  }

  /** `writeIfUnique` on the lines of the log: the map of the existing
      entries is built line by line, then the pair is written if new and the
      lines it adds are those the file reads back. */
  method WriteIfUnique(processed: string, original: string, lines: seq<string>) returns (newLines: seq<string>)
    ensures newLines == WrittenLog(lines, processed, original)
  {
    var key := processed + MessageSuffix;
    var existing: map<string, string> := map[];
    var k := 0;
    while k < |lines|
      invariant 0 <= k <= |lines|
      invariant existing == ParsedEntries(lines[..k])
    {
      assert lines[..k + 1][..k] == lines[..k];
      var line := lines[k];
      if '=' in line {
        var parts := SplitFirst(line, '=');
        existing := existing[parts.0 := parts.1];
      }
      k := k + 1;
    }
    assert lines[..k] == lines;
    newLines := lines;
    if key !in existing || existing[key] != original {
      newLines := lines + ReadLines(LogLine(key, original) + "\n");
    }
  }

  // ---------------------------------------------------------------------
  // extractAndWriteRecursive (I18nAutoTextProcessorUtil.java:238-257)
  // ---------------------------------------------------------------------

  function Concat(xs: seq<seq<string>>): seq<string>
  {
    if xs == [] then [] else Concat(xs[..|xs| - 1]) + xs[|xs| - 1]
  }

  /** The text leaves of the tree in the order the walk visits them, those
      under `id`, `parentId` and `delFlag` included. */
  function TextLeaves(node: Json): seq<string>
  {
    match node
    case JText(s) => [s]
    case JArray(items) => Concat(seq(|items|, i requires 0 <= i < |items| => TextLeaves(items[i])))
    case JObject(fields) => Concat(seq(|fields|, i requires 0 <= i < |fields| => TextLeaves(fields[i].1)))
    case _ => []
  }

  /** The log after the leaves `texts` are visited in order: a leaf with
      Chinese text is written through `writeIfUnique`, any other is passed by. */
  function WriteLeaves(texts: seq<string>, log: seq<string>): seq<string>
  {
    if texts == [] then log
    else
      var before := WriteLeaves(texts[..|texts| - 1], log);
      var t := texts[|texts| - 1];
      if ContainsChinese(t) then WrittenLog(before, Extract(t), t) else before
  }

  /** `extractAndWriteRecursive` on the lines of the log; the log it starts
      from is kept as it is and only added to. */
  function ExtractAndWrite(node: Json, log: seq<string>): (r: seq<string>)
    ensures |log| <= |r| && r[..|log|] == log
  {
    WriteLeavesAppendOnly(TextLeaves(node), log);
    WriteLeaves(TextLeaves(node), log)
  }

  /** The walk only appends: the old log is a prefix of the new one, and
      every line appended is one the file reads back after
      `<filtered text>.message=<text>` is written for a leaf with Chinese
      text. */
  lemma {:induction false} WriteLeavesAppendOnly(texts: seq<string>, log: seq<string>)
    ensures var r := WriteLeaves(texts, log);
      && |log| <= |r| && r[..|log|] == log
      && forall j :: |log| <= j < |r| ==>
           exists k :: 0 <= k < |texts| && ContainsChinese(texts[k]) && r[j] in Appended(Extract(texts[k]) + MessageSuffix, texts[k])
  {
    if texts != [] {
      var init := texts[..|texts| - 1];
      var t := texts[|texts| - 1];
      var before := WriteLeaves(init, log);
      WriteLeavesAppendOnly(init, log);
      var r := WriteLeaves(texts, log);
      if ContainsChinese(t) {
        WrittenLogAppendOnly(before, Extract(t), t);
      }
      assert r[..|before|] == before;
      assert r[..|log|] == before[..|log|];
      forall j | |log| <= j < |r|
        ensures exists k :: 0 <= k < |texts| && ContainsChinese(texts[k]) && r[j] in Appended(Extract(texts[k]) + MessageSuffix, texts[k])
      {
        if j < |before| {
          var k :| 0 <= k < |init| && ContainsChinese(init[k]) && before[j] in Appended(Extract(init[k]) + MessageSuffix, init[k]);
          assert texts[k] == init[k];
        } else {
          assert texts[|texts| - 1] == t;
          assert r[j] == Appended(Extract(t) + MessageSuffix, t)[j - |before|];
        }
      }
    }
  }

  /** After the walk, every leaf with Chinese text and no line break has its
      line in the log. */
  lemma {:induction false} WriteLeavesRecordsAll(texts: seq<string>, log: seq<string>)
    ensures var r := WriteLeaves(texts, log);
      forall k :: 0 <= k < |texts| && ContainsChinese(texts[k]) && NoBreak(texts[k]) ==>
        LogLine(Extract(texts[k]) + MessageSuffix, texts[k]) in r
  {
    if texts != [] {
      var init := texts[..|texts| - 1];
      var t := texts[|texts| - 1];
      var before := WriteLeaves(init, log);
      WriteLeavesRecordsAll(init, log);
      var r := WriteLeaves(texts, log);
      if ContainsChinese(t) {
        assert NoBreak(Extract(t));
        WrittenLogAppendOnly(before, Extract(t), t);
      }
      forall k | 0 <= k < |texts| && ContainsChinese(texts[k]) && NoBreak(texts[k])
        ensures LogLine(Extract(texts[k]) + MessageSuffix, texts[k]) in r
      {
        if k < |init| {
          assert texts[k] == init[k];
          var line := LogLine(Extract(init[k]) + MessageSuffix, init[k]);
          var i :| 0 <= i < |before| && before[i] == line;
          assert r[..|before|] == before;
          assert r[i] == line;
        }
      }
    }
  }

  /** Leaves without Chinese text leave the log alone. */
  lemma {:induction false} WriteLeavesWithoutChinese(texts: seq<string>, log: seq<string>)
    requires forall k :: 0 <= k < |texts| ==> !ContainsChinese(texts[k])
    ensures WriteLeaves(texts, log) == log
  {
    if texts != [] {
      WriteLeavesWithoutChinese(texts[..|texts| - 1], log);
    }
  }

  lemma SingleFieldLeaves(name: string, k: string)
    ensures TextLeaves(JObject([(name, JText(k))])) == [k]
  {
    var node := JObject([(name, JText(k))]);
    var parts := seq(1, i requires 0 <= i < 1 => TextLeaves(node.fields[i].1));
    assert parts == [[k]];
    assert Concat(parts) == Concat(parts[..0]) + [k];
  }

  lemma ChineseCharAppended(k: string)
    requires |k| == 1 && IsChinese(k[0])
    ensures Appended(k + MessageSuffix, k) == [LogLine(k + MessageSuffix, k)]
  {
    assert NoBreak(k);
    MessageKeyNoBreak(k);
    LogLineNoBreak(k + MessageSuffix, k);
    ReadLinesSingle(LogLine(k + MessageSuffix, k));
  }

  /** The walk does not skip excluded field names: an `id` holding one
      Chinese character is recorded. */
  lemma IdIsCollected(k: string)
    requires |k| == 1 && IsChinese(k[0])
    ensures ExtractAndWrite(JObject([("id", JText(k))]), []) == [k + ".message=" + k]
  {
    SingleFieldLeaves("id", k);
    ChineseCharWritten(k);
  }

  lemma ChineseCharWritten(k: string)
    requires |k| == 1 && IsChinese(k[0])
    ensures WriteLeaves([k], []) == [k + ".message=" + k]
  {
    var ks: seq<string> := [k];
    assert ks[..0] == [];
    ChineseCharKey(map[], k);
    ChineseCharAppended(k);
    assert LogLine(k + MessageSuffix, k) == k + ".message=" + k;
  }
}
