# I18n auto text processor, modelled in Dafny

This project models three text engines. Together they prepare a Spring code
base for internationalisation:

- **The return-value rewriter** (`process_controllers.py`). In a controller
  source, every `return ` line that passes is rewritten:
  - the values between the first `(` after `return` and the `)` that
    balances it are split at top-level commas;
  - the values are filtered by rule R;
  - each accepted value without an arrow gets a line of its own above the
    return, `I18nAutoTextProcessorUtil.extractAndWrite(v);`, at the return's
    indentation;
  - each accepted value is wrapped in place as
    `I18nAutoTextProcessorUtil.translate(v)`.

  A set of closed intervals is kept across the passes. Each interval is
  recorded at the offset where a value was found, in the text that pass
  started from, and spans the length of its wrap. An occurrence found inside
  an interval is copied as it is. The intervals do not follow the text as
  later passes rewrite it. So they block some occurrences that lie outside
  every wrap (`SecondOccurrenceSkipped`), and they do not reliably keep a
  later value from being wrapped inside an earlier wrap.
- **The hardcoded-literal extractor** (`processing_hardcoded_words.py`). Each
  double-quoted literal holding CJK text (U+4E00 to U+9FFF), on a line that
  none of the guards skip, becomes
  `I18nAutoTextProcessorUtil.getMessage("<key>")`. The key is built as
  follows:
  - take the literal's CJK characters, ASCII letters and digits, followed by
    `.message`;
  - if the key is already taken by a different text, try a numeric suffix
    (`.message1`, `.message2`, …);
  - the pair is recorded in an insertion-ordered message catalog.

  The catalog is read from and written back to a `key=value` file. An import
  of the helper class is inserted under the first `package` line.
- **The runtime helper** (`I18nAutoTextProcessorUtil.java`). This part
  covers:
  - the Chinese test (U+4E00 to U+9FA5) and the character filter;
  - the key routing of `getMessage` against a resource bundle;
  - the translation of every text leaf of a JSON tree, except under `id`,
    `parentId` and `delFlag`;
  - the collection of Chinese leaves into an append-only `key=value` log
    through `writeIfUnique`.

Modules and files:

- `text.dfy`, module `Text`. The Python and Java string operations the
  scripts rely on: `find`, `in`, `strip`, `split`, `str(n)`.
- `return_rewrite.dfy`, module `ReturnRewrite`. Models
  `process_controllers.py`.
- `hardcoded_words.dfy`, module `HardcodedWords`. Models
  `processing_hardcoded_words.py`.
- `i18n_util.dfy`, module `I18nUtil`. Models the pure parts of
  `I18nAutoTextProcessorUtil.java`.

How the model is written:

- **Loops become methods.** Every loop of the source is a method proved equal
  to a specification function. The properties are lemmas about that function.
- **The message dictionary is a class.** It is updated in place, so it is
  the class `HardcodedWords.MessageCatalog`, with an insertion order and a
  map. Its abstract value is the datatype `Catalog`.
- **The JSON tree is a datatype.** The helper's walk over it is pure
  recursion.
- **Files are sequences of lines.** The resource bundle is a map.

Where the comments in the source and the code disagree, the model follows the
code. Two cases:

- The comment of rule R asks for a lower-case letter, but digit-only values
  pass (`RuleRAcceptsNumber`).
- The example key in the extractor's doc comment drops the letters `mm`, but
  the code keeps ASCII letters.

The two defects under "## Findings" are modelled as the code has them.
`HardcodedWords.WithImport` inserts `ImportLineAsWritten`, and
`I18nUtil.Translate` routes its keys through `GetMessageAsWritten`. The
corrected definitions, `ImportLine` and `GetMessage`, stand beside them with
their own lemmas.

## Model

| member | source | states |
|---|---|---|
| Text.Find | process_controllers.py:220-226 | `str.find`: the result is -1 or an occurrence at or after `start`, and no occurrence lies between `start` and the result (none at all when -1) |
| Text.Contains | process_controllers.py:70 | `sub in s` holds exactly when `sub` occurs at some index of `s` |
| Text.FindChar | process_controllers.py:224 | finding one character: -1 exactly when it is absent from `s[start..]`, otherwise its first index there |
| Text.LStrip | process_controllers.py:207 | `lstrip` removes a leading run made only of white space and leaves no leading white space |
| Text.RStrip | process_controllers.py:188 | `rstrip` removes a trailing run made only of white space and leaves no trailing white space |
| Text.StripSlice | process_controllers.py:188 | `strip` returns a slice of the input, with only white space outside it and no white space at either end of it |
| Text.StripIdempotent | process_controllers.py:188 | stripping twice is stripping once |
| Text.StripNonBlank | process_controllers.py:189 | the stripped text is non-empty exactly when the input has a non-space character |
| Text.StripKeepsLetters | process_controllers.py:193-194 | the stripped text has an upper-case (lower-case) letter exactly when the input has one |
| Text.StripPadded | processing_hardcoded_words.py:82 | white space around a core with non-space ends is removed and the core is kept whole |
| Text.SplitOn | process_controllers.py:153 | `split(sep)` yields at least one piece, no piece holds the separator, and joining the pieces with it gives back the input |
| Text.SplitFirst | processing_hardcoded_words.py:82 | `split("=", 1)` on a text holding `=`: key, `=` and value make up the text, and the key has no `=` |
| Text.SplitFirstUnique | processing_hardcoded_words.py:82 | splitting `a=b` with no `=` in `a` gives back exactly `(a, b)` |
| Text.Decimal | processing_hardcoded_words.py:204 | `str(n)` is a non-empty string of decimal digits |
| Text.DecimalRoundTrip | processing_hardcoded_words.py:204 | reading back `str(n)` gives `n` |
| Text.DecimalInjective | processing_hardcoded_words.py:204 | different numbers have different decimal strings |
| ReturnRewrite.CloseFrom | process_controllers.py:124 | the lazy group stops at the first `);` not past a newline, and at no earlier one |
| ReturnRewrite.OpenFrom | process_controllers.py:124 | backtracking over `.*?` settles on the first `(` that can be closed, with its first `);` |
| ReturnRewrite.SearchFrom | process_controllers.py:124 | `re.search` returns a match of `return .*?\((.*?)\);` that the engine tries before every other match, or None when there is no match at all |
| ReturnRewrite.MatchAnchors | process_controllers.py:128-129 | once the pattern matched, `find('return')` and the first `(` after it exist and lie at or before the match's own |
| ReturnRewrite.DepthAppend | process_controllers.py:136-141 | the running paren depth of a concatenation is the sum of the parts' depths |
| ReturnRewrite.MatchingCloseFrom | process_controllers.py:137-144 | the depth scan returns -1 or an index below the limit holding `)` where the depth from the `(` is back to zero |
| ReturnRewrite.MatchingCloseFirst | process_controllers.py:137-144 | no scanned index before the result (none at all when -1) closes the group |
| ReturnRewrite.DepthPositive | process_controllers.py:136-144 | the depth stays positive at every position scanned before the chosen `)` |
| ReturnRewrite.MatchingCloseSpan | process_controllers.py:228-241 | the text strictly between the `(` and its matching `)` is balanced, and its depth never goes negative |
| ReturnRewrite.NoMatchingClose | process_controllers.py:231-241 | when the depth stays positive to the end, no matching `)` is found |
| ReturnRewrite.ScanForClose | process_controllers.py:131-144 | the loop with `open_count` computes the matching close before the limit, or -1 |
| ReturnRewrite.GroupTopLevel | process_controllers.py:156-172 | regrouping comma-split parts of a balanced text gives pieces that join back to it, each with its commas nested and a depth of zero |
| ReturnRewrite.SplitBalanced | process_controllers.py:153-172 | a balanced group splits into top-level pieces that join back to it with `,`, and the values are those pieces stripped, in order |
| ReturnRewrite.ExtractValuesTopLevel | process_controllers.py:114-176 | when the chosen content is balanced, the extracted values are its stripped top-level comma-separated pieces, left to right |
| ReturnRewrite.ScanPart | process_controllers.py:161-166 | the character loop adds the part's depth to the count and appends the part to the current value |
| ReturnRewrite.MergeParts | process_controllers.py:153-174 | the merge loop yields the stripped regrouped pieces |
| ReturnRewrite.ExtractValuesFromReturn | process_controllers.py:114-176 | the method yields `[]` when the regex has no match; otherwise it splits the balanced content, falling back to the regex group when no balancing `)` comes before the next `;` |
| ReturnRewrite.RuleRMeaning | process_controllers.py:178-195 | rule R holds exactly when the value has a non-space character, no `"`, and a lower-case letter whenever it has an upper-case one |
| ReturnRewrite.RuleRStripped | process_controllers.py:188 | rule R gives the same verdict on a value and on its stripped form |
| ReturnRewrite.RuleRAcceptsLowerCase | process_controllers.py:195 | `list` passes |
| ReturnRewrite.RuleRAcceptsMixedCase | process_controllers.py:195 | a mixed-case identifier (`xId`) passes |
| ReturnRewrite.RuleRAcceptsNumber | process_controllers.py:195 | a digit-only value passes |
| ReturnRewrite.RuleRRefusesSamples | process_controllers.py:189-195 | `LIST`, a quoted literal and a blank value fail |
| ReturnRewrite.FullBucket | process_controllers.py:74-79 | the values kept for registration are exactly the extracted values that pass rule R and have no `->` |
| ReturnRewrite.LambdaBucket | process_controllers.py:74-79 | the translate-only values are exactly the extracted values that pass rule R and have `->` |
| ReturnRewrite.BucketsNonEmpty | process_controllers.py:74-79 | no accepted value is empty, so every replacement pass advances |
| ReturnRewrite.SortValues | process_controllers.py:72-79 | the sorting loop fills the two lists with exactly the two buckets, in order |
| ReturnRewrite.Indentation | process_controllers.py:207 | the indentation is a prefix of the line |
| ReturnRewrite.IndentationMeaning | process_controllers.py:207 | the indentation is all white space and is followed by the end of the line or a non-space character |
| ReturnRewrite.FirstPassReplaces | process_controllers.py:249-279 | with an empty history, the first value's pass replaces every non-overlapping occurrence left to right, as `replace` would, when occurrences lie further apart than the wrap |
| ReturnRewrite.AbsentValue | process_controllers.py:256-260 | a value that no longer occurs leaves the rest of the text and the history unchanged |
| ReturnRewrite.PassKeepsPrefix | process_controllers.py:252-277 | a pass only appends to the text built so far |
| ReturnRewrite.BlockedOccurrenceVerbatim | process_controllers.py:264-277 | for any text, value, history and position: an occurrence found inside a recorded interval, both ends included, is copied as it is, with the text before it, and the pass goes on from its end |
| ReturnRewrite.SecondOccurrenceSkipped | process_controllers.py:264-277 | an example: in `a, a` the second `a` starts at offset 3, inside the interval recorded for the first wrap, so only the first `a` is wrapped |
| ReturnRewrite.CanReplace | process_controllers.py:264-268 | the history scan allows a replacement exactly when the index lies in no recorded interval |
| ReturnRewrite.PassRound | process_controllers.py:256-277 | one round of the pass moves the index forward and leaves the rest of the pass's outcome unchanged |
| ReturnRewrite.TranslatePass | process_controllers.py:252-279 | the `while index < len(within_paren)` loop terminates for a non-empty value and produces the pass's new text and history |
| ReturnRewrite.ReplaceAll | process_controllers.py:249-279 | the passes over all values, in order and sharing one history, produce the replaced group |
| ReturnRewrite.FindCloseParen | process_controllers.py:228-238 | the scan from the `(` finds its matching `)`, or -1 |
| ReturnRewrite.ReplaceWithTranslate | process_controllers.py:209-282 | the method computes the translated line |
| ReturnRewrite.TranslateLineFrame | process_controllers.py:220-282 | with `ret`, `open` and `close` the first `return`, the first `(` after it and its balancing `)`: when any of them is missing the line comes back unchanged; otherwise the `(` and `)` form a balanced pair, and the line keeps everything up to and including the `(` and everything from the `)` on |
| ReturnRewrite.TranslateLineUnbalanced | process_controllers.py:240-241 | when no `)` balances the `(`, the line comes back unchanged |
| ReturnRewrite.TranslateLineNoValues | process_controllers.py:249-282 | with no values the line comes back unchanged |
| ReturnRewrite.SpliceGroupIdentity | process_controllers.py:244-282 | splicing the group back unchanged gives back the line |
| ReturnRewrite.TranslateLineKeepsIndentation | process_controllers.py:244-282 | the translated line keeps the original line's indentation |
| ReturnRewrite.RewriteLine | process_controllers.py:62-94 | each line gives at least one output line, and a comment, package or non-return line gives itself |
| ReturnRewrite.RegistrationsOfBucket | process_controllers.py:82-88 | there is one `extractAndWrite` line per registered value, each for an accepted value without `->`, and every such value is registered |
| ReturnRewrite.ReturnLineParts | process_controllers.py:70-92 | a return line becomes its registrations followed by the return line translated with both buckets |
| ReturnRewrite.ReturnLineOutput | process_controllers.py:82-92 | a return line yields exactly one registration per registered value, in order, followed by one line |
| ReturnRewrite.RegistrationsIndented | process_controllers.py:83-88 | every inserted line starts with the return line's indentation |
| ReturnRewrite.ReturnLineIndented | process_controllers.py:91-92 | the rewritten return line keeps its indentation |
| ReturnRewrite.ReturnLineIndentation | process_controllers.py:82-92 | every output line of a return line starts with its indentation |
| ReturnRewrite.RewriteReturnLine | process_controllers.py:70-92 | the return-line branch computes the rewrite |
| ReturnRewrite.ProcessJavaLine | process_controllers.py:61-94 | one loop step computes the line's output and whether the package line has been seen |
| ReturnRewrite.NoReturnNoChange | process_controllers.py:61-94 | a file with no `return ` line comes back unchanged |
| ReturnRewrite.RewriteLinesGrows | process_controllers.py:59-94 | the output has at least as many lines as the input |
| ReturnRewrite.IsControllerFile | process_controllers.py:99-112 | a file counts as a controller exactly when some line contains `Controller` |
| ReturnRewrite.ProcessJavaFile | process_controllers.py:56-94 | a non-controller file is untouched, and otherwise the line loop computes the rewritten file |
| HardcodedWords.KeyChars | processing_hardcoded_words.py:174-177 | the filtered text is no longer than the input and holds only CJK characters, ASCII letters and digits |
| HardcodedWords.KeyCharsAppend | processing_hardcoded_words.py:175-177 | the filter works character by character, so order is kept |
| HardcodedWords.KeyCharsMembership | processing_hardcoded_words.py:176 | a character survives exactly when it is in the text and in the kept classes |
| HardcodedWords.KeyCharsIdempotent | processing_hardcoded_words.py:174-181 | filtering twice is filtering once |
| HardcodedWords.CjkGivesKey | processing_hardcoded_words.py:147-154 | a text with CJK always yields a non-empty key, so the branch at lines 153-154 cannot be taken |
| HardcodedWords.ExtractContent | processing_hardcoded_words.py:163-181 | the accumulator loop returns the filtered text, or None when it is empty |
| HardcodedWords.InsertValid | processing_hardcoded_words.py:207 | storing a key keeps the catalog well-formed, sets that key and changes no other key |
| HardcodedWords.ProbeKeyInjective | processing_hardcoded_words.py:196-205 | distinct probe numbers give distinct keys (`base`, `base1`, `base2`, …) |
| HardcodedWords.ProbesSize | processing_hardcoded_words.py:200-205 | the first `n` probes are `n` distinct keys |
| HardcodedWords.ProbesBounded | processing_hardcoded_words.py:200-205 | no more probes can be taken than the catalog has keys, so the probing terminates |
| HardcodedWords.FirstFree | processing_hardcoded_words.py:200-205 | the probe stops at the first key that is free or already holds the text; every earlier probe holds another text |
| HardcodedWords.AssignKeyResult | processing_hardcoded_words.py:183-208 | the key is `base` or `base + str(n)` for some n ≥ 1, found after probing in order, and afterwards it maps to the original text |
| HardcodedWords.AssignKeyAppendOnly | processing_hardcoded_words.py:200-207 | existing entries are never changed or removed; at most one key is added, at the end, and none when a probed key already holds the text |
| HardcodedWords.AssignFresh | processing_hardcoded_words.py:204-207 | a free probe is taken and stored |
| HardcodedWords.AssignFound | processing_hardcoded_words.py:200-202 | a probe that already holds the text is reused, and the catalog stays as it was |
| HardcodedWords.CollidingTexts | processing_hardcoded_words.py:196-207 | three different texts with one fragment F get `F.message`, `F.message1`, `F.message2`; repeating the first returns `F.message` and adds nothing |
| HardcodedWords.MessageCatalog.ProbeMessageKey | processing_hardcoded_words.py:196-205 | the `while key in messages_dict` loop ends at a probe that is free or already holds the text, past probes that all hold other texts |
| HardcodedWords.MessageCatalog.FindMessageKey | processing_hardcoded_words.py:183-208 | updating the dictionary in place gives the key and the catalog that key assignment describes |
| HardcodedWords.BeforeFirstEquals | processing_hardcoded_words.py:135 | `line.split("=")[0]` is the text before the first `=` |
| HardcodedWords.AnnotationSkipped | processing_hardcoded_words.py:131-132 | an annotation line is left alone |
| HardcodedWords.LogCallSkipped | processing_hardcoded_words.py:133-134 | an indented `logger.` call is left alone |
| HardcodedWords.ConstantSkipped | processing_hardcoded_words.py:135-136 | the docstring's own example `private static final String[] NUMS = {"零"};` starts with a lower-case letter, has an upper-case letter before its `=`, and is left alone |
| HardcodedWords.CallNotSkipped | processing_hardcoded_words.py:131-136 | a lower-case call with no `=` is processed |
| HardcodedWords.NoGuard | processing_hardcoded_words.py:131-136 | a line starting with a lower-case letter other than `l` and holding no `=` passes every guard |
| HardcodedWords.NextQuote | processing_hardcoded_words.py:140 | the next `"` at or after a position, with no `"` before it, or -1 |
| HardcodedWords.NoLiteralAcrossBreak | processing_hardcoded_words.py:140 | no literal spans a newline, as `.` does not match one |
| HardcodedWords.NextLiteral | processing_hardcoded_words.py:140 | `finditer` finds the leftmost `"…"` span at or after a position, and no literal starts before it |
| HardcodedWords.QuotedIsVerbatim | processing_hardcoded_words.py:154-156 | re-quoting a matched literal's text reproduces it exactly |
| HardcodedWords.RewriteWithoutCjk | processing_hardcoded_words.py:140-160 | when no remaining literal holds CJK, the rest of the line is copied verbatim and the catalog is untouched |
| HardcodedWords.ReplacementResolves | processing_hardcoded_words.py:147-152 | a literal with CJK becomes a `getMessage` call whose key maps to the literal's text afterwards |
| HardcodedWords.ReplacementExtends | processing_hardcoded_words.py:147-152 | replacing a literal only extends the catalog |
| HardcodedWords.LineWithoutCjk | processing_hardcoded_words.py:138-161 | a line with no CJK literal comes back unchanged and the catalog is untouched |
| HardcodedWords.RewriteExtends | processing_hardcoded_words.py:140-160 | the scan keeps the catalog well-formed and only extends it |
| HardcodedWords.RewrittenLineExtends | processing_hardcoded_words.py:119-161 | processing a line keeps the catalog well-formed and only extends it |
| HardcodedWords.ReplaceLiteral | processing_hardcoded_words.py:144-156 | the method computes one literal's replacement, updating the catalog in place |
| HardcodedWords.ReplaceLiterals | processing_hardcoded_words.py:138-160 | the `finditer` loop accumulating `new_line` and `last_end` computes the scan |
| HardcodedWords.ProcessLine | processing_hardcoded_words.py:119-161 | the method computes the line's rewrite, guards included |
| HardcodedWords.Loaded | processing_hardcoded_words.py:77-86 | the catalog read from any lines is well-formed |
| HardcodedWords.LoadLineValid | processing_hardcoded_words.py:80-83 | reading one line keeps the catalog well-formed |
| HardcodedWords.LaterLineWins | processing_hardcoded_words.py:83 | a later line for a key overrides the value, keeps the key's place, and leaves other keys alone |
| HardcodedWords.Serialized | processing_hardcoded_words.py:220-221 | one line is written per entry |
| HardcodedWords.ParseEntryLine | processing_hardcoded_words.py:82 | a written `key=value` line is split back into its key and value |
| HardcodedWords.LoadEntryLine | processing_hardcoded_words.py:80-83 | reading a written line stores its entry |
| HardcodedWords.LoadPrefix | processing_hardcoded_words.py:220-221 | reading back the first `n` written lines gives the catalog of the first `n` keys |
| HardcodedWords.LoadAfterWrite | processing_hardcoded_words.py:66-86 | reading back the file `write_messages` writes gives the same catalog, order included, for entries without line breaks, without `=` in the key and without white space at the outer ends |
| HardcodedWords.MessageCatalog.constructor | processing_hardcoded_words.py:66-86 | `load_messages` fills a well-formed dictionary equal to the catalog read from the lines |
| HardcodedWords.MessageCatalog.Write | processing_hardcoded_words.py:210-221 | `write_messages` writes the serialised catalog |
| HardcodedWords.ImportAsWrittenMissesClass | processing_hardcoded_words.py:109 | the import line as written names `…utilI18nAutoTextProcessorUtil` and does not import the helper class |
| HardcodedWords.ImportLineImportsClass | processing_hardcoded_words.py:109 | the corrected import line imports the helper class from its package |
| HardcodedWords.PackageIndex | processing_hardcoded_words.py:101-105 | the index of the first line whose stripped text starts with `package`, or -1 when there is none |
| HardcodedWords.FindPackageLine | processing_hardcoded_words.py:101-105 | the search loop with `break` finds that index |
| HardcodedWords.InsertAfterLines | processing_hardcoded_words.py:108-109 | one line is inserted right after the package line, none without one, and no other line changes |
| HardcodedWords.RewriteLines | processing_hardcoded_words.py:111-114 | the loop gives one output line per input line |
| HardcodedWords.RewriteLinesAt | processing_hardcoded_words.py:111-114 | output line k is line k rewritten with the catalog left by the lines before it |
| HardcodedWords.RewriteLinesExtends | processing_hardcoded_words.py:111-114 | the file's lines only extend the catalog |
| HardcodedWords.RewriteLinesWithoutCjk | processing_hardcoded_words.py:111-114 | lines without CJK literals come back unchanged with the catalog untouched |
| HardcodedWords.ImportLineHasNoLiteral | processing_hardcoded_words.py:109 | the import as written holds no literal |
| HardcodedWords.ImportLineUnchanged | processing_hardcoded_words.py:109-113 | the inserted import passes through the line loop unchanged |
| HardcodedWords.ProcessedFileImport | processing_hardcoded_words.py:100-114 | the processed file has one more line exactly when there is a package line, and the import as line 109 writes it follows that line |
| HardcodedWords.FileWithoutCjk | processing_hardcoded_words.py:100-114 | a file without CJK literals only gains the import as line 109 writes it, and the catalog is untouched |
| HardcodedWords.ProcessedFileExtends | processing_hardcoded_words.py:100-114 | processing a file only extends the catalog |
| HardcodedWords.ProcessLines | processing_hardcoded_words.py:111-114 | the line loop computes the rewritten lines, updating the catalog in place |
| HardcodedWords.ProcessFile | processing_hardcoded_words.py:100-114 | `process_file` without its file access: the import as line 109 writes it is inserted, then the line loop runs, keeping the catalog well-formed |
| HardcodedWords.ProcessedFileStem | processing_hardcoded_words.py:59 | a file `<stem>.java` is processed exactly when the stem is not `StringUtil` and does not end in `Mapper` |
| HardcodedWords.ControllerProcessed | processing_hardcoded_words.py:59 | a controller source is processed |
| HardcodedWords.MapperNotProcessed | processing_hardcoded_words.py:59 | a `*Mapper.java` file is not processed |
| I18nUtil.ChineseIsCjk | I18nAutoTextProcessorUtil.java:259-261 | text the helper calls Chinese is CJK text to the extractor |
| I18nUtil.ChineseNarrowerThanCjk | I18nAutoTextProcessorUtil.java:259-261 | the helper's range is narrower: U+9FA6 is CJK to the extractor but not Chinese to the helper |
| I18nUtil.Extract | I18nAutoTextProcessorUtil.java:263-270 | the joined matches of `[0-9a-zA-Z一-龥]+` are no longer than the input and hold only those characters |
| I18nUtil.ExtractMembership | I18nAutoTextProcessorUtil.java:50 | a character survives exactly when it is in the text and in the pattern's class |
| I18nUtil.ExtractAppendKept | I18nAutoTextProcessorUtil.java:263-270 | a run of kept characters passes through whole, so order is kept |
| I18nUtil.ExtractAgreesWithKeyChars | I18nAutoTextProcessorUtil.java:50 | on text without U+9FA6 to U+9FFF, the helper's filter and the extractor's filter agree |
| I18nUtil.ExtractAlphanumericAndChinese | I18nAutoTextProcessorUtil.java:263-270 | the `matcher.find()` loop appending each run computes the filter |
| I18nUtil.RemoveWhitespace | I18nAutoTextProcessorUtil.java:120 | `replaceAll("\\s+", "")` leaves no regex white space |
| I18nUtil.RemoveWhitespaceNoop | I18nAutoTextProcessorUtil.java:120 | a key without white space is unchanged |
| I18nUtil.TrimDigits | I18nAutoTextProcessorUtil.java:119 | the key without its trailing digits: a prefix followed only by digits, and not itself ending in a digit |
| I18nUtil.GetMessageAsWritten | I18nAutoTextProcessorUtil.java:113-132 | the routing as written returns the key itself or a value of the bundle |
| I18nUtil.GetMessage | I18nAutoTextProcessorUtil.java:113-132 | the corrected routing returns the key itself or a value of the bundle |
| I18nUtil.GetMessageEmptyBundle | I18nAutoTextProcessorUtil.java:129-131 | with nothing in the bundle every key comes back unchanged |
| I18nUtil.GetMessagePlainText | I18nAutoTextProcessorUtil.java:125-127 | a key that is neither a message key nor Chinese comes back unchanged |
| I18nUtil.ChineseCharKey | I18nAutoTextProcessorUtil.java:121-124 | a Chinese key is looked up as its filtered form followed by `.message`, falling back to the key |
| I18nUtil.GetMessageResolvesProbeKey | I18nAutoTextProcessorUtil.java:119-120 | every key the extractor can give out, numbered or not, is looked up as it stands |
| I18nUtil.AssignedKeyResolves | I18nAutoTextProcessorUtil.java:119-124 | the key a literal is given, looked up in the catalog the extractor leaves, is the literal's text |
| I18nUtil.NumberedKeyUnresolvedAsWritten | I18nAutoTextProcessorUtil.java:119-124 | as written, `中.message1` is routed through the Chinese branch and missed; the corrected routing finds it |
| I18nUtil.Translate | I18nAutoTextProcessorUtil.java:156-191 | translation keeps the tree's shape: constructors, field names and order, array lengths and non-text leaves; only texts may change |
| I18nUtil.TranslateEmptyBundle | I18nAutoTextProcessorUtil.java:156-191 | with an empty bundle the tree comes back unchanged |
| I18nUtil.IdKeptNameTranslated | I18nAutoTextProcessorUtil.java:167-169 | for any one-character Chinese text `k` and any bundle entry `k.message`: `k` under `id` is kept while the same `k` under `name` is translated |
| I18nUtil.ParsedEntryHasLine | I18nAutoTextProcessorUtil.java:299-305 | each parsed entry comes from a line of the log that is exactly that entry |
| I18nUtil.ReadLines | I18nAutoTextProcessorUtil.java:296 | `readAllLines` cuts the file at `\n`, `\r` and `\r\n`, so no line it returns holds a line break |
| I18nUtil.ReadLinesJoin | I18nAutoTextProcessorUtil.java:296 | a line without breaks, followed by its terminator, reads back as itself, followed by the lines of the rest |
| I18nUtil.WrittenLogAppendOnly | I18nAutoTextProcessorUtil.java:307-312 | the log is unchanged or gains, at the end, the lines `key=original` reads back as; without line breaks that is the one line `key=original`, which is in the log afterwards |
| I18nUtil.WrittenLogIdempotent | I18nAutoTextProcessorUtil.java:307-312 | writing the same pair twice appends at most once, for texts without line breaks |
| I18nUtil.MultiLineTextRewritten | I18nAutoTextProcessorUtil.java:296-312 | a text `first\nsecond` is read back as two lines, the key maps to `first` only, and every later call appends both lines again |
| I18nUtil.WriteIfUnique | I18nAutoTextProcessorUtil.java:290-313 | the parse loop and the decision compute the new log |
| I18nUtil.WriteLeavesAppendOnly | I18nAutoTextProcessorUtil.java:238-257 | the walk only appends, and every appended line is one of the lines `extract(t).message=t` reads back as, for a leaf `t` with Chinese |
| I18nUtil.WriteLeavesRecordsAll | I18nAutoTextProcessorUtil.java:250-255 | every leaf with Chinese and no line break has its line in the log afterwards |
| I18nUtil.WriteLeavesWithoutChinese | I18nAutoTextProcessorUtil.java:250-255 | leaves without Chinese leave the log as it was |
| I18nUtil.ExtractAndWrite | I18nAutoTextProcessorUtil.java:210-257 | collecting a tree's texts keeps the log it starts from as its prefix |
| I18nUtil.IdIsCollected | I18nAutoTextProcessorUtil.java:238-245 | the collection walk has no field exclusions: an `id` holding one Chinese character `k` logs `k.message=k` |

## Left out

- Directory walks, file reads and writes, and progress prints are left out. Files are sequences of lines, read and written whole. This covers `os.walk` and `process_java_files` in process_controllers.py, and the top-level loop and the `open` calls in processing_hardcoded_words.py.
- `find_new_content.py` is not part of this model. It is file I/O around a set difference.
- The Jackson conversions in `translate` and `extractAndWrite` are left out: `valueToTree`, `treeToValue`, `writeValueAsString`, `readTree` and their error handlers. JSON is the datatype `I18nUtil.Json`, and the walks start from a tree.
- `ResourceBundle` and `LocaleContextHolder` are left out. The bundle for the current locale is a map, and a missing key is the map's absence.
- The regex engines are not modelled as such. The two patterns are written out as scanners: `return .*?\((.*?)\);`, and `"(.*?)"` with its `.` not crossing a newline.
- `isupper`, `islower` and the `\s` class are restricted to ASCII. The `strip` white-space set is the full Unicode one.
- `System.lineSeparator()` is taken to be `\n`. The log is the sequence of lines `readAllLines` gives back. A `\r\n` separator reads back the same way.
- JSON numbers are integers. Floating-point values are not modelled; like every non-text leaf they pass through unchanged.
- The rewritten Java is not re-parsed. A statement that an inserted line turns into a second statement of a brace-less `if` is not detected.
- ReturnRewrite.FirstPassReplaces: proved only when the occurrences of the value lie further apart than its wrap. The intervals are recorded at the occurrence's start with the wrap's length, so a closer occurrence falls inside one and is copied verbatim (`SecondOccurrenceSkipped`).
- HardcodedWords.LogCallSkipped: shows one `logger.` call indented with spaces. The guard in `Skipped` strips any white space and also tests `log.`.
- HardcodedWords.LoadAfterWrite: holds for entries without line breaks, without `=` in the key and without white space at the outer ends of the line. Other entries do not read back as written: Python's text mode cuts the file at `\n`, `\r` and `\r\n`.
- I18nUtil.WrittenLogAppendOnly: the line `key=original` is promised to be in the log afterwards only when neither text holds a line break. A text with a break is written as several lines.
- I18nUtil.WrittenLogIdempotent: holds only for texts without line breaks. A text with a break maps back to its first line only, so each call appends it again (`MultiLineTextRewritten`).
- I18nUtil.WriteLeavesRecordsAll: promised only for leaves without line breaks, for the same reason.

## Findings

| source | as written | input that shows it | evidently intended | confidence | as-written member | corrected member |
|---|---|---|---|---|---|---|
| processing_hardcoded_words.py:109 | the import is `"import " + package_path + "I18nAutoTextProcessorUtil;"`, and the package path at line 224 has no trailing dot | `package_path = "com.itla.imh.common.util"` gives `import com.itla.imh.common.utilI18nAutoTextProcessorUtil;` | `import com.itla.imh.common.util.I18nAutoTextProcessorUtil;` | high; not executed | HardcodedWords.ImportAsWrittenMissesClass | HardcodedWords.ImportLineImportsClass |
| I18nAutoTextProcessorUtil.java:119-124 | only keys ending in `.message` are looked up as they stand; a numbered key from `find_message_key` falls into the Chinese branch, which turns it into `extract(key) + ".message"` | the key `中.message1`, with the bundle holding it, is looked up as `中message1.message` and comes back untranslated | every key the extractor writes, `.message` followed by optional digits, is looked up as it stands; the other reading, numbering the fragment as `A1.message` as the extractor's docstring (processing_hardcoded_words.py:28) describes, would need the fix in the extractor instead | high; not executed | I18nUtil.NumberedKeyUnresolvedAsWritten | I18nUtil.AssignedKeyResolves |
