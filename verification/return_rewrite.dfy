/**
 * The return-value rewriter for controller sources (process_controllers.py).
 *
 * For every line holding `return `, the values between the first `(` after
 * `return` and its balancing `)` are split at top-level commas, filtered by
 * rule R, registered on lines of their own above the return
 * (`I18nAutoTextProcessorUtil.extractAndWrite(v);`) and wrapped in place
 * (`I18nAutoTextProcessorUtil.translate(v)`).
 */
module ReturnRewrite {
  import opened Text

  const TranslateCall := "I18nAutoTextProcessorUtil.translate("
  const RegisterCall := "I18nAutoTextProcessorUtil.extractAndWrite("

  /** The translation wrap put around an accepted value. */
  function Wrap(value: string): string
  {
    TranslateCall + value + ")"
  }

  /** The registration line inserted above a return line. */
  function Registration(indent: string, value: string): string
  {
    indent + RegisterCall + value + ");\n"
  }

  // ---------------------------------------------------------------------
  // Parenthesis depth
  // ---------------------------------------------------------------------

  function Delta(c: char): int
  {
    if c == '(' then 1 else if c == ')' then -1 else 0
  }

  /** Opening minus closing parentheses in `s`. */
  function Depth(s: string): int
  {
    if s == [] then 0 else Depth(s[..|s| - 1]) + Delta(s[|s| - 1])
  }

  lemma {:induction false} DepthAppend(a: string, b: string)
    ensures Depth(a + b) == Depth(a) + Depth(b)
  {
    if b != [] {
      assert (a + b)[..|a + b| - 1] == a + b[..|b| - 1];
      assert (a + b)[|a + b| - 1] == b[|b| - 1];
      DepthAppend(a, b[..|b| - 1]);
    } else {
      assert a + b == a;
    }
  }

  lemma DepthStep(s: string, lo: nat, i: nat)
    requires lo <= i < |s|
    ensures Depth(s[lo..i + 1]) == Depth(s[lo..i]) + Delta(s[i])
  {
    assert s[lo..i + 1][..i - lo] == s[lo..i];
  }

  // ---------------------------------------------------------------------
  // The pattern `return .*?\((.*?)\);` (process_controllers.py:124)
  // ---------------------------------------------------------------------

  /** A match of the pattern: `return ` at `start`, the `(` of the first
      `\(` at `open`, the `);` at `close`; group 1 is `line[open + 1..close]`. */
  datatype ReturnMatch = ReturnMatch(start: nat, open: nat, close: nat)

  /** No newline in `s[lo..hi]` (the regex `.` stops at a newline). */
  predicate NoNewline(s: string, lo: int, hi: int)
  {
    forall k :: lo <= k < hi ==> 0 <= k < |s| && s[k] != '\n'
  }

  /** `\((.*?)\);` can match with its `(` at `open` and its `);` at `close`. */
  ghost predicate GroupAt(line: string, open: int, close: int)
  {
    && OccursAt(line, ");", close)
    && 0 <= open < close
    && line[open] == '('
    && NoNewline(line, open + 1, close)
  }

  ghost predicate IsReturnMatch(line: string, m: ReturnMatch)
  {
    && OccursAt(line, "return ", m.start)
    && m.start + 7 <= m.open
    && GroupAt(line, m.open, m.close)
    && NoNewline(line, m.start + 7, m.open)
  }

  /** The order in which the regex engine tries matches: leftmost start, then
      the shortest first `.*?`, then the shortest group. */
  ghost predicate TriedFirst(a: ReturnMatch, b: ReturnMatch)
  {
    || a.start < b.start
    || (a.start == b.start && a.open < b.open)
    || (a.start == b.start && a.open == b.open && a.close <= b.close)
  }

  /** The lazy group: the first `);` at or after `i` not past a newline. */
  function CloseFrom(line: string, i: nat): (r: Option<nat>)
    ensures r.Some? ==> i <= r.value && OccursAt(line, ");", r.value) && NoNewline(line, i, r.value)
    ensures forall q :: i <= q && OccursAt(line, ");", q) && NoNewline(line, i, q) ==> r.Some? && r.value <= q
    decreases |line| - i
  {
    if i + 2 > |line| || line[i] == '\n' then None
    else if line[i..i + 2] == ");" then Some(i)
    else CloseFrom(line, i + 1)
  }

  /** Backtracking over the first `.*?`: the first `(` at or after `p`, not past
      a newline, after which the group can be closed, with its `);`. */
  function OpenFrom(line: string, p: nat): (r: Option<(nat, nat)>)
    ensures r.Some? ==> p <= r.value.0 && GroupAt(line, r.value.0, r.value.1) && NoNewline(line, p, r.value.0)
    ensures forall o, c :: GroupAt(line, o, c) && p <= o && NoNewline(line, p, o) ==>
      r.Some? && (r.value.0 < o || (r.value.0 == o && r.value.1 <= c))
    decreases |line| - p
  {
    if p >= |line| || line[p] == '\n' then None
    else if line[p] == '(' && CloseFrom(line, p + 1).Some? then Some((p, CloseFrom(line, p + 1).value))
    else OpenFrom(line, p + 1)
  }

  /** `re.search(r"return .*?\((.*?)\);", line)` searching from `s`: the match
      the regex engine returns, or None when the pattern does not match. */
  function SearchFrom(line: string, s: nat): (r: Option<ReturnMatch>)
    ensures r.Some? ==> s <= r.value.start && IsReturnMatch(line, r.value)
    ensures forall m: ReturnMatch :: s <= m.start && IsReturnMatch(line, m) ==> r.Some? && TriedFirst(r.value, m)
    decreases |line| - s
  {
    if s + 7 > |line| then None
    else if line[s..s + 7] == "return " && OpenFrom(line, s + 7).Some? then
      var g := OpenFrom(line, s + 7).value;
      Some(ReturnMatch(s, g.0, g.1))
    else SearchFrom(line, s + 1)
  }

  /** Where the anchors of `extract_values_from_return` land once the pattern
      matched: `find('return')` at or before the match, and the first `(` after
      it at or before the group's `(`. */
  lemma MatchAnchors(line: string, m: ReturnMatch)
    requires IsReturnMatch(line, m)
    ensures var r := Find(line, "return", 0);
      && 0 <= r <= m.start
      && var o := Find(line, "(", r + 6);
      && r + 6 <= o <= m.open && line[o] == '('
  {
    assert OccursAt(line, "return", m.start) by {
      assert line[m.start..m.start + 6] == line[m.start..m.start + 7][..6];
    }
    var r := Find(line, "return", 0);
    OccursAtChar(line, '(', m.open);
    FindChar(line, '(', r + 6);
  }

  // ---------------------------------------------------------------------
  // The balancing close parenthesis
  // ---------------------------------------------------------------------

  /** The first position in `[i, limit)` holding a `)` that brings the depth
      counted from `open` back to zero, or -1 when there is none. */
  function MatchingCloseFrom(line: string, open: nat, i: nat, limit: int): (r: int)
    requires open <= i && limit <= |line|
    ensures r == -1 || (i <= r < limit && line[r] == ')' && Depth(line[open..r + 1]) == 0)
    decreases limit - i
  {
    if i >= limit then -1
    else if line[i] == ')' && Depth(line[open..i + 1]) == 0 then i
    else MatchingCloseFrom(line, open, i + 1, limit)
  }

  /** No `)` before the one found brings the depth back to zero. */
  lemma {:induction false} MatchingCloseFirst(line: string, open: nat, i: nat, limit: int, j: nat)
    requires open <= i <= j < limit <= |line|
    requires var r := MatchingCloseFrom(line, open, i, limit); r == -1 || j < r
    ensures !(line[j] == ')' && Depth(line[open..j + 1]) == 0)
    decreases j - i
  {
    if i < j {
      MatchingCloseFirst(line, open, i + 1, limit, j);
    }
  }

  /** While the depth stays positive, no balancing `)` is found. */
  lemma {:induction false} NoMatchingClose(line: string, open: nat, i: nat, limit: int)
    requires open <= i && limit <= |line|
    requires forall j :: i < j <= limit ==> Level(line, open, j) > 0
    ensures MatchingCloseFrom(line, open, i, limit) == -1
    decreases limit - i
  {
    if i < limit {
      assert Level(line, open, i + 1) > 0;
      NoMatchingClose(line, open, i + 1, limit);
    }
  }

  function MatchingClose(line: string, open: nat, limit: int): int
    requires limit <= |line|
  {
    MatchingCloseFrom(line, open, open, limit)
  }

  /** The depth reached after reading `line[open..j]`. */
  function Level(line: string, open: nat, j: nat): int
    requires open <= j <= |line|
  {
    Depth(line[open..j])
  }

  /** Scanning from the `(` at `open`, the depth stays positive up to the
      balancing `)`. */
  lemma {:induction false} DepthPositive(line: string, open: nat, limit: int, j: nat)
    requires open < |line| && line[open] == '(' && limit <= |line|
    requires open < j <= limit
    requires var r := MatchingClose(line, open, limit); r == -1 || j <= r
    ensures Level(line, open, j) > 0
    decreases j - open
  {
    DepthStep(line, open, j - 1);
    if j - 1 == open {
      assert line[open..open] == [];
    } else {
      DepthPositive(line, open, limit, j - 1);
      MatchingCloseFirst(line, open, open, limit, j - 1);
    }
  }

  /** Past the opening `(`, the depth is one less. */
  lemma InnerDepth(line: string, open: nat, j: nat)
    requires open < j <= |line| && line[open] == '('
    ensures Depth(line[open + 1..j]) == Level(line, open, j) - 1
  {
    assert line[open..j] == [line[open]] + line[open + 1..j];
    DepthAppend([line[open]], line[open + 1..j]);
    assert Depth([line[open]]) == 1 by { assert [line[open]][..0] == []; }
  }

  /** The text strictly between the `(` at `open` and its balancing `)`
      balances to zero and never closes more than it opened. */
  lemma MatchingCloseSpan(line: string, open: nat, limit: int)
    requires open < |line| && line[open] == '(' && limit <= |line|
    ensures var r := MatchingClose(line, open, limit);
      && (forall j :: open < j <= limit && (r == -1 || j <= r) ==> Level(line, open, j) > 0)
      && (r != -1 ==> open < r && Depth(line[open + 1..r]) == 0)
      && (r != -1 ==> forall j :: open < j <= r ==> Level(line, open, j) - 1 >= 0)
  {
    var r := MatchingClose(line, open, limit);
    forall j | open < j <= limit && (r == -1 || j <= r)
      ensures Level(line, open, j) > 0
    {
      DepthPositive(line, open, limit, j);
    }
    if r != -1 {
      assert r != open;
      DepthStep(line, open, r);
      DepthPositive(line, open, limit, r);
      InnerDepth(line, open, r);
    }
  }

  // ---------------------------------------------------------------------
  // Splitting the group at top-level commas (process_controllers.py:153-172)
  // ---------------------------------------------------------------------

  /** The merging loop over `content.split(",")`: pieces are glued back
      together, with their comma, while the running depth is not zero; a
      trailing piece left open is dropped. */
  function Group(parts: seq<string>, depth: int, current: string): seq<string>
    decreases |parts|
  {
    if parts == [] then []
    else
      var d := depth + Depth(parts[0]);
      if d == 0 then [current + parts[0]] + Group(parts[1..], 0, [])
      else Group(parts[1..], d, current + parts[0] + ",")
  }

  /** `strip` applied to every value. */
  function StripAll(values: seq<string>): seq<string>
  {
    seq(|values|, i requires 0 <= i < |values| => Strip(values[i]))
  }

  /** The values of a group: top-level comma-separated pieces, stripped. */
  function SplitValues(content: string): seq<string>
  {
    StripAll(Group(SplitOn(content, ','), 0, []))
  }

  /** Every comma of `g` sits inside parentheses. */
  ghost predicate CommasNested(g: string)
  {
    forall j :: 0 <= j < |g| && g[j] == ',' ==> Depth(g[..j]) != 0
  }

  /** A piece with balanced parentheses, every comma of which sits inside
      parentheses. */
  ghost predicate TopLevelPiece(g: string)
  {
    Depth(g) == 0 && CommasNested(g)
  }

  lemma AppendCommaFree(c: string, p: string)
    requires CommasNested(c) && ',' !in p
    ensures CommasNested(c + p)
  {
    var g := c + p;
    forall j | 0 <= j < |g| && g[j] == ','
      ensures Depth(g[..j]) != 0
    {
      if j < |c| {
        assert g[..j] == c[..j];
      }
    }
  }

  lemma AppendComma(c: string)
    requires CommasNested(c) && Depth(c) != 0
    ensures CommasNested(c + ",")
  {
    var g := c + ",";
    forall j | 0 <= j < |g| && g[j] == ','
      ensures Depth(g[..j]) != 0
    {
      if j < |c| {
        assert g[..j] == c[..j];
      } else {
        assert g[..j] == c;
      }
    }
  }

  lemma JoinCons(x: string, rest: seq<string>)
    requires |rest| >= 1
    ensures JoinWith([x] + rest, ',') == x + [','] + JoinWith(rest, ',')
  {
    assert ([x] + rest)[1..] == rest;
  }

  lemma DepthOfJoinCons(p: string, rest: seq<string>)
    ensures Depth(p + [','] + JoinWith(rest, ',')) == Depth(p) + Depth(JoinWith(rest, ','))
  {
    DepthAppend(p + [','], JoinWith(rest, ','));
    DepthAppend(p, [',']);
    assert Depth([',']) == 0 by { assert [','][..0] == []; }
  }

  lemma {:induction false} GroupTopLevel(parts: seq<string>, depth: int, current: string)
    requires |parts| >= 1
    requires forall i :: 0 <= i < |parts| ==> ',' !in parts[i]
    requires Depth(current) == depth && CommasNested(current)
    requires depth + Depth(JoinWith(parts, ',')) == 0
    ensures var g := Group(parts, depth, current);
      && |g| >= 1
      && JoinWith(g, ',') == current + JoinWith(parts, ',')
      && forall i :: 0 <= i < |g| ==> TopLevelPiece(g[i])
    decreases |parts|, 1
  {
    var p := parts[0];
    assert Depth(current + p) == depth + Depth(p) && CommasNested(current + p) by {
      DepthAppend(current, p);
      AppendCommaFree(current, p);
    }
    if |parts| == 1 {
      assert JoinWith(parts, ',') == p;
      assert Group(parts, depth, current) == [current + p];
    } else {
      var rest := parts[1..];
      var tail := JoinWith(rest, ',');
      assert JoinWith(parts, ',') == p + [','] + tail by {
        assert parts == [p] + rest;
        JoinCons(p, rest);
      }
      assert Depth(JoinWith(parts, ',')) == Depth(p) + Depth(tail) by {
        DepthOfJoinCons(p, rest);
      }
      assert current + (p + [','] + tail) == current + p + [','] + tail;
      if depth + Depth(p) == 0 {
        GroupClosePiece(parts, depth, current);
      } else {
        GroupCarryPiece(parts, depth, current);
      }
    }
  }

  /** The first piece closes the running group. */
  lemma {:induction false} GroupClosePiece(parts: seq<string>, depth: int, current: string)
    requires |parts| >= 2
    requires forall i :: 0 <= i < |parts| ==> ',' !in parts[i]
    requires TopLevelPiece(current + parts[0]) && depth + Depth(parts[0]) == 0
    requires Depth(JoinWith(parts[1..], ',')) == 0
    ensures var g := Group(parts, depth, current);
      && |g| >= 1
      && JoinWith(g, ',') == current + parts[0] + [','] + JoinWith(parts[1..], ',')
      && forall i :: 0 <= i < |g| ==> TopLevelPiece(g[i])
    decreases |parts|, 0
  {
    var piece := current + parts[0];
    var rest := parts[1..];
    assert forall i :: 0 <= i < |rest| ==> ',' !in rest[i] by {
      forall i | 0 <= i < |rest| ensures ',' !in rest[i] { assert rest[i] == parts[i + 1]; }
    }
    assert Depth([]) == 0 && CommasNested([]);
    GroupTopLevel(rest, 0, []);
    var g' := Group(rest, 0, []);
    var g := [piece] + g';
    assert Group(parts, depth, current) == g;
    JoinCons(piece, g');
    assert [] + JoinWith(rest, ',') == JoinWith(rest, ',');
    forall i | 0 <= i < |g| ensures TopLevelPiece(g[i]) {
      if i > 0 { assert g[i] == g'[i - 1]; }
    }
  }

  /** The first piece leaves the running group open: it is carried on with
      its comma. */
  lemma {:induction false} GroupCarryPiece(parts: seq<string>, depth: int, current: string)
    requires |parts| >= 2
    requires forall i :: 0 <= i < |parts| ==> ',' !in parts[i]
    requires CommasNested(current + parts[0])
    requires Depth(current + parts[0]) == depth + Depth(parts[0]) != 0
    requires depth + Depth(parts[0]) + Depth(JoinWith(parts[1..], ',')) == 0
    ensures var g := Group(parts, depth, current);
      && |g| >= 1
      && JoinWith(g, ',') == current + parts[0] + [','] + JoinWith(parts[1..], ',')
      && forall i :: 0 <= i < |g| ==> TopLevelPiece(g[i])
    decreases |parts|, 0
  {
    var piece := current + parts[0];
    var rest := parts[1..];
    var d := depth + Depth(parts[0]);
    assert Group(parts, depth, current) == Group(rest, d, piece + ",");
    assert forall i :: 0 <= i < |rest| ==> ',' !in rest[i] by {
      forall i | 0 <= i < |rest| ensures ',' !in rest[i] { assert rest[i] == parts[i + 1]; }
    }
    assert Depth(piece + ",") == d && CommasNested(piece + ",") by {
      AppendComma(piece);
      DepthAppend(piece, ",");
      assert Depth(",") == 0 by { assert ","[..0] == []; }
    }
    GroupTopLevel(rest, d, piece + ",");
  }

  /** A balanced group splits into top-level pieces that join back into it. */
  lemma SplitBalanced(content: string)
    requires Depth(content) == 0
    ensures var g := Group(SplitOn(content, ','), 0, []);
      && |g| >= 1
      && JoinWith(g, ',') == content
      && (forall i :: 0 <= i < |g| ==> TopLevelPiece(g[i]))
      && SplitValues(content) == StripAll(g)
  {
    GroupTopLevel(SplitOn(content, ','), 0, []);
  }

  // ---------------------------------------------------------------------
  // extract_values_from_return (process_controllers.py:114-176)
  // ---------------------------------------------------------------------

  /** The group `extract_values_from_return` splits: the text between the
      first `(` after `return` and its balancing `)` found before the next
      `;`, or else the regex's own group. */
  function ReturnContent(line: string, m: ReturnMatch): string
    requires IsReturnMatch(line, m)
  {
    MatchAnchors(line, m);
    var startIndex := Find(line, "return", 0) + 6;
    var open := Find(line, "(", startIndex);
    var semi := Find(line, ";", startIndex);
    var close := if semi == -1 then -1 else MatchingClose(line, open, semi);
    if close != -1 then line[open + 1..close] else line[m.open + 1..m.close]
  }

  /** `extract_values_from_return(line)`. */
  function ExtractValues(line: string): seq<string>
  {
    match SearchFrom(line, 0)
    case None => []
    case Some(m) => SplitValues(ReturnContent(line, m))
  }

  /** Whenever the group is balanced, the extracted values are its top-level
      comma-separated pieces, stripped, and those pieces make up the group. */
  lemma ExtractValuesTopLevel(line: string)
    requires SearchFrom(line, 0).Some?
    requires Depth(ReturnContent(line, SearchFrom(line, 0).value)) == 0
    ensures exists g: seq<string> ::
      && |g| >= 1
      && JoinWith(g, ',') == ReturnContent(line, SearchFrom(line, 0).value)
      && (forall i :: 0 <= i < |g| ==> TopLevelPiece(g[i]))
      && ExtractValues(line) == StripAll(g)
  {
    var content := ReturnContent(line, SearchFrom(line, 0).value);
    SplitBalanced(content);
    var g := Group(SplitOn(content, ','), 0, []);
    assert ExtractValues(line) == StripAll(g);
  }

  /** The depth scan of `extract_values_from_return` over `line[open..limit]`,
      counting from zero at the `(` itself. */
  method ScanForClose(line: string, open: nat, limit: int) returns (lastCloseParen: int)
    requires open <= |line| && limit <= |line|
    ensures lastCloseParen == MatchingClose(line, open, limit)
  {
    lastCloseParen := -1;
    var openCount := 0;
    var i := open;
    while i < limit
      invariant open <= i <= |line|
      invariant openCount == Level(line, open, i)
      invariant MatchingCloseFrom(line, open, i, limit) == MatchingClose(line, open, limit)
      decreases limit - i
    {
      DepthStep(line, open, i);
      if line[i] == '(' {
        openCount := openCount + 1;
      } else if line[i] == ')' {
        openCount := openCount - 1;
        if openCount == 0 {
          lastCloseParen := i;
          break;
        }
      }
      i := i + 1;
    }
  }

  /** One step of the merge: the group built so far either closes with the
      next piece or carries it on. */
  lemma GroupStep(parts: seq<string>, k: nat, depth: int, current: string)
    requires k < |parts|
    ensures var d := depth + Depth(parts[k]);
      Group(parts[k..], depth, current)
      == if d == 0 then [current + parts[k]] + Group(parts[k + 1..], 0, [])
         else Group(parts[k + 1..], d, current + parts[k] + ",")
  {
    assert parts[k..][1..] == parts[k + 1..];
  }

  lemma StripAllSnoc(done: seq<string>, x: string)
    ensures StripAll(done + [x]) == StripAll(done) + [Strip(x)]
  {
    assert (done + [x])[|done|] == x;
  }

  /** The inner loop of the merge: one piece appended to the running value,
      with the depth updated. */
  method ScanPart(part: string, depth: int, current: string) returns (parenCount: int, currentValue: string)
    ensures parenCount == depth + Depth(part) && currentValue == current + part
  {
    parenCount, currentValue := depth, current;
    var j := 0;
    assert current + part[..0] == current;
    while j < |part|
      invariant 0 <= j <= |part|
      invariant parenCount == depth + Level(part, 0, j)
      invariant currentValue == current + part[..j]
    {
      DepthStep(part, 0, j);
      if part[j] == '(' {
        parenCount := parenCount + 1;
      } else if part[j] == ')' {
        parenCount := parenCount - 1;
      }
      currentValue := currentValue + [part[j]];
      assert part[..j + 1] == part[..j] + [part[j]];
      j := j + 1;
    }
    assert part[..j] == part && part[0..j] == part;
  }

  /** The merging loop over the `split(",")` pieces. */
  method MergeParts(parts: seq<string>) returns (values: seq<string>)
    ensures values == StripAll(Group(parts, 0, []))
  {
    values := [];
    var currentValue := "";
    var parenCount := 0;
    ghost var done: seq<string> := [];
    var k := 0;
    assert parts[0..] == parts;
    while k < |parts|
      invariant 0 <= k <= |parts|
      invariant values == StripAll(done)
      invariant done + Group(parts[k..], parenCount, currentValue) == Group(parts, 0, [])
    {
      var part := parts[k];
      GroupStep(parts, k, parenCount, currentValue);
      parenCount, currentValue := ScanPart(part, parenCount, currentValue);
      if parenCount == 0 {
        assert (done + [currentValue]) + Group(parts[k + 1..], 0, []) == Group(parts, 0, []) by {
          ghost var rest := Group(parts[k + 1..], 0, []);
          assert done + ([currentValue] + rest) == (done + [currentValue]) + rest;
        }
        StripAllSnoc(done, currentValue);
        values := values + [Strip(currentValue)];
        done := done + [currentValue];
        currentValue := "";
      } else {
        currentValue := currentValue + ",";
      }
      k := k + 1;
    }
    assert parts[k..] == [];
    assert done + [] == done;
  }

  /** `extract_values_from_return`: the regex search, the depth scan up to the
      next `;`, then the merge of the `split(",")` pieces. */
  method ExtractValuesFromReturn(line: string) returns (values: seq<string>)
    ensures values == ExtractValues(line)
  {
    var found := SearchFrom(line, 0);
    if found.None? {
      return [];
    }
    var m := found.value;
    MatchAnchors(line, m);
    var startIndex := Find(line, "return", 0) + 6;
    var firstOpenParen := Find(line, "(", startIndex);
    var lastCloseParen := -1;
    var nextSemicolon := Find(line, ";", startIndex);
    if nextSemicolon != -1 {
      lastCloseParen := ScanForClose(line, firstOpenParen, nextSemicolon);
    }
    var content;
    if lastCloseParen != -1 {
      content := line[firstOpenParen + 1..lastCloseParen];
    } else {
      content := line[m.open + 1..m.close];
    }
    assert content == ReturnContent(line, m);
    values := MergeParts(SplitOn(content, ','));
  }

  // ---------------------------------------------------------------------
  // Rule R (process_controllers.py:178-195)
  // ---------------------------------------------------------------------


  /** Rule R: after stripping, the value is nonempty, holds no double quote,
      and is not made of upper-case letters without any lower-case one. */
  predicate RuleR(value: string)
  {
    var v := Strip(value);
    && v != []
    && '"' !in v
    && (!HasUpper(v) || (HasUpper(v) && HasLower(v)))
  }

  /** What rule R accepts, stated on the raw value: it is not blank, has no
      double quote anywhere, and has a lower-case letter whenever it has an
      upper-case one. */
  lemma RuleRMeaning(value: string)
    ensures RuleR(value) <==>
      && (exists i :: 0 <= i < |value| && !IsSpace(value[i]))
      && '"' !in value
      && (HasUpper(value) ==> HasLower(value))
  {
    StripNonBlank(value);
    StripKeepsNonSpace(value, '"');
    StripKeepsLetters(value);
  }

  /** Rule R looks at the stripped value only. */
  lemma {:induction false} RuleRStripped(value: string)
    ensures RuleR(Strip(value)) == RuleR(value)
  {
    StripIdempotent(value);
  }

  /** Sample verdicts: a lower-case name passes ... */
  lemma RuleRAcceptsLowerCase()
    ensures RuleR("list")
  {
    StripPadded([], "list", []);
    assert [] + "list" + [] == "list";
    assert !HasUpper("list");
  }

  /** ... and so does a mixed-case name ... */
  lemma RuleRAcceptsMixedCase()
    ensures RuleR("xId")
  {
    StripPadded([], "xId", []);
    assert [] + "xId" + [] == "xId";
    assert IsLower("xId"[0]) && IsUpper("xId"[1]);
  }

  /** ... and so does a number. */
  lemma RuleRAcceptsNumber()
    ensures RuleR("123")
  {
    StripPadded([], "123", []);
    assert [] + "123" + [] == "123";
    assert !HasUpper("123");
  }

  /** Sample verdicts: an all-capitals constant, a string literal and a blank
      value are refused. */
  lemma RuleRRefusesSamples()
    ensures !RuleR("LIST") && !RuleR("\"a\"") && !RuleR("   ")
  {
    RuleRMeaning("LIST");
    RuleRMeaning("\"a\"");
    RuleRMeaning("   ");
    assert IsUpper("LIST"[0]);
    assert "\"a\""[0] == '"';
  }

  // ---------------------------------------------------------------------
  // The two buckets (process_controllers.py:72-79)
  // ---------------------------------------------------------------------

  /** Values that are registered and wrapped: accepted, without `->`. */
  function FullBucket(values: seq<string>): (r: seq<string>)
    ensures forall v :: v in r <==> v in values && RuleR(v) && !Contains(v, "->")
  {
    if values == [] then []
    else
      var last := values[|values| - 1];
      assert values == values[..|values| - 1] + [last];
      FullBucket(values[..|values| - 1]) + (if RuleR(last) && !Contains(last, "->") then [last] else [])
  }

  /** Values that are only wrapped: accepted lambdas, with `->`. */
  function LambdaBucket(values: seq<string>): (r: seq<string>)
    ensures forall v :: v in r <==> v in values && RuleR(v) && Contains(v, "->")
  {
    if values == [] then []
    else
      var last := values[|values| - 1];
      assert values == values[..|values| - 1] + [last];
      LambdaBucket(values[..|values| - 1]) + (if RuleR(last) && Contains(last, "->") then [last] else [])
  }

  lemma BucketsSnoc(values: seq<string>, k: nat)
    requires k < |values|
    ensures var v := values[k];
      && FullBucket(values[..k + 1]) == FullBucket(values[..k]) + (if RuleR(v) && !Contains(v, "->") then [v] else [])
      && LambdaBucket(values[..k + 1]) == LambdaBucket(values[..k]) + (if RuleR(v) && Contains(v, "->") then [v] else [])
  {
    assert values[..k + 1][..k] == values[..k];
  }

  /** Every value handed to the replacement is nonempty. */
  lemma BucketsNonEmpty(values: seq<string>)
    ensures forall i :: 0 <= i < |FullBucket(values) + LambdaBucket(values)| ==> (FullBucket(values) + LambdaBucket(values))[i] != []
  {
    var both := FullBucket(values) + LambdaBucket(values);
    forall i | 0 <= i < |both|
      ensures both[i] != []
    {
      assert both[i] in both;
      assert RuleR(both[i]);
    }
  }

  // ---------------------------------------------------------------------
  // Indentation (process_controllers.py:197-207)
  // ---------------------------------------------------------------------

  /** The leading white space of `line`: the longest prefix made of white
      space only. */
  function Indentation(line: string): (indent: string)
    ensures |indent| <= |line| && indent == line[..|indent|]
  {
    line[..|line| - |LStrip(line)|]
  }

  /** The indentation is white space, and the character after it is not. */
  lemma IndentationMeaning(line: string)
    ensures var indent := Indentation(line);
      && (forall i :: 0 <= i < |indent| ==> IsSpace(line[i]))
      && (|indent| == |line| || !IsSpace(line[|indent|]))
  {
  }

  // ---------------------------------------------------------------------
  // The replacement passes (process_controllers.py:249-279)
  // ---------------------------------------------------------------------

  /** A recorded `(start, end)` pair of the replacement history. */
  datatype Interval = Interval(lo: int, hi: int)

  /** An occurrence at `f` is skipped when `f` lies in a recorded interval,
      both ends included. */
  predicate Blocked(history: set<Interval>, f: int)
  {
    exists iv :: iv in history && iv.lo <= f <= iv.hi
  }

  /** One pass of the replacement loop for `value`, from `index` on, with
      `acc` the text built so far: the new text and the history afterwards. */
  function PassFrom(within: string, value: string, history: set<Interval>, index: nat, acc: string): (string, set<Interval>)
    requires value != [] && index <= |within|
    decreases |within| - index
  {
    if index == |within| then (acc, history)
    else
      var f := Find(within, value, index);
      if f == -1 then (acc + within[index..], history)
      else if !Blocked(history, f) then
        PassFrom(within, value, history + {Interval(f, f + |Wrap(value)|)}, f + |value|, acc + within[index..f] + Wrap(value))
      else
        PassFrom(within, value, history, f + |value|, acc + within[index..f + |value|])
  }

  /** The passes for all values in order, each over the text the previous one
      produced, sharing one history. */
  function ReplaceValues(within: string, values: seq<string>, history: set<Interval>): string
    requires forall i :: 0 <= i < |values| ==> values[i] != []
    decreases |values|
  {
    if values == [] then within
    else
      var r := PassFrom(within, values[0], history, 0, []);
      ReplaceValues(r.0, values[1..], r.1)
  }

  /** Python's `s.replace(value, w)` from `index` on: every occurrence, taken
      left to right without overlap. */
  function ReplaceEvery(s: string, value: string, w: string, index: nat): string
    requires value != [] && index <= |s|
    decreases |s| - index
  {
    var f := Find(s, value, index);
    if f == -1 then s[index..]
    else s[index..f] + w + ReplaceEvery(s, value, w, f + |value|)
  }

  /** Occurrences of `value` lie further apart than the length of its wrap. */
  ghost predicate Sparse(s: string, value: string)
  {
    forall i, j :: OccursAt(s, value, i) && OccursAt(s, value, j) && i < j ==> j - i > |Wrap(value)|
  }

  /** Each recorded interval starts at an occurrence before `index` and spans
      the wrap. */
  ghost predicate EarlierWraps(s: string, value: string, history: set<Interval>, index: int)
  {
    forall iv :: iv in history ==> OccursAt(s, value, iv.lo) && iv.lo < index && iv.hi == iv.lo + |Wrap(value)|
  }

  /** Under sparseness, an occurrence at or after `index` is never blocked,
      and recording it keeps the history made of earlier wraps. */
  lemma SparseStep(s: string, value: string, history: set<Interval>, index: nat, f: int)
    requires value != [] && index <= f && OccursAt(s, value, f)
    requires Sparse(s, value) && EarlierWraps(s, value, history, index)
    ensures !Blocked(history, f)
    ensures EarlierWraps(s, value, history + {Interval(f, f + |Wrap(value)|)}, f + |value|)
  {
    forall iv | iv in history
      ensures !(iv.lo <= f <= iv.hi)
    {
      assert OccursAt(s, value, iv.lo) && iv.lo < f;
    }
  }

  lemma ConcatAssoc(a: string, b: string, c: string, d: string)
    ensures a + (b + c + d) == a + b + c + d
  {
  }

  /** `replace` past an occurrence: the text before it, the replacement, and
      the rest replaced. */
  lemma ReplaceEveryStep(s: string, value: string, w: string, index: nat, acc: string)
    requires value != [] && index <= |s| && Find(s, value, index) != -1
    ensures var f := Find(s, value, index);
      f + |value| <= |s|
      && acc + ReplaceEvery(s, value, w, index) == acc + s[index..f] + w + ReplaceEvery(s, value, w, f + |value|)
  {
    var f := Find(s, value, index);
    assert ReplaceEvery(s, value, w, index) == s[index..f] + w + ReplaceEvery(s, value, w, f + |value|);
    ConcatAssoc(acc, s[index..f], w, ReplaceEvery(s, value, w, f + |value|));
  }

  /** One wrapped occurrence of the pass: if the rest of the pass agrees
      with `replace`, the pass from `index` is the text before the
      occurrence, its wrap, and the rest replaced. */
  lemma WrappedStep(s: string, value: string, history: set<Interval>, index: nat, acc: string)
    requires value != [] && index < |s| && Find(s, value, index) != -1
    requires !Blocked(history, Find(s, value, index))
    requires var f := Find(s, value, index);
      PassFrom(s, value, history + {Interval(f, f + |Wrap(value)|)}, f + |value|, acc + s[index..f] + Wrap(value)).0
      == acc + s[index..f] + Wrap(value) + ReplaceEvery(s, value, Wrap(value), f + |value|)
    ensures var f := Find(s, value, index);
      PassFrom(s, value, history, index, acc).0 == acc + s[index..f] + Wrap(value) + ReplaceEvery(s, value, Wrap(value), f + |value|)
  {
    PassWraps(s, value, history, index, acc, Find(s, value, index));
  }

  lemma {:induction false} SparsePass(s: string, value: string, history: set<Interval>, index: nat, acc: string)
    requires value != [] && index <= |s|
    requires Sparse(s, value) && EarlierWraps(s, value, history, index)
    ensures PassFrom(s, value, history, index, acc).0 == acc + ReplaceEvery(s, value, Wrap(value), index)
    decreases |s| - index, 1
  {
    if index == |s| {
      assert Find(s, value, index) == -1;
      assert acc + s[index..] == acc;
    } else if Find(s, value, index) != -1 {
      SparseWrap(s, value, history, index, acc);
    } else {
      AbsentValue(s, value, history, index, acc);
    }
  }

  lemma {:induction false} SparseWrap(s: string, value: string, history: set<Interval>, index: nat, acc: string)
    requires value != [] && index < |s| && Find(s, value, index) != -1
    requires Sparse(s, value) && EarlierWraps(s, value, history, index)
    ensures PassFrom(s, value, history, index, acc).0 == acc + ReplaceEvery(s, value, Wrap(value), index)
    decreases |s| - index, 0
  {
    var f := Find(s, value, index);
    SparseStep(s, value, history, index, f);
    SparsePass(s, value, history + {Interval(f, f + |Wrap(value)|)}, f + |value|, acc + s[index..f] + Wrap(value));
    WrappedStep(s, value, history, index, acc);
    ReplaceEveryStep(s, value, Wrap(value), index, acc);
  }

  /** The first value's pass, with nothing recorded yet, is Python's
      `replace` whenever its occurrences lie further apart than its wrap. */
  lemma FirstPassReplaces(s: string, value: string)
    requires value != [] && Sparse(s, value)
    ensures PassFrom(s, value, {}, 0, []).0 == ReplaceEvery(s, value, Wrap(value), 0)
  {
    SparsePass(s, value, {}, 0, []);
  }

  /** A value that does not occur leaves the text as it was. */
  lemma AbsentValue(s: string, value: string, history: set<Interval>, index: nat, acc: string)
    requires value != [] && index <= |s|
    requires forall i :: index <= i ==> !OccursAt(s, value, i)
    ensures PassFrom(s, value, history, index, acc) == (acc + s[index..], history)
  {
    if index < |s| {
      assert Find(s, value, index) == -1;
    } else {
      assert acc + s[index..] == acc;
    }
  }

  /** A pass only appends to the text built so far and only adds to the
      history. */
  lemma {:induction false} PassKeepsPrefix(within: string, value: string, history: set<Interval>, index: nat, acc: string)
    requires value != [] && index <= |within|
    ensures StartsWith(PassFrom(within, value, history, index, acc).0, acc)
    decreases |within| - index
  {
    if index < |within| && Find(within, value, index) != -1 {
      var acc', history', index' := PassStep(within, value, history, index, acc);
      PassKeepsPrefix(within, value, history', index', acc');
      PrefixOfPrefix(PassFrom(within, value, history', index', acc').0, acc', acc);
    } else if index < |within| {
      assert PassFrom(within, value, history, index, acc).0 == acc + within[index..];
    }
  }

  /** One round of the pass, at the next occurrence: the text built so far
      only grows. */
  lemma PassStep(within: string, value: string, history: set<Interval>, index: nat, acc: string)
    returns (acc': string, history': set<Interval>, index': nat)
    requires value != [] && index < |within| && Find(within, value, index) != -1
    ensures index < index' <= |within| && |acc| <= |acc'| && acc'[..|acc|] == acc
    ensures PassFrom(within, value, history, index, acc) == PassFrom(within, value, history', index', acc')
  {
    var f := Find(within, value, index);
    index' := f + |value|;
    assert f + |value| <= |within| by {
      assert OccursAt(within, value, f);
    }
    if Blocked(history, f) {
      acc', history' := acc + within[index..f + |value|], history;
      assert PassFrom(within, value, history, index, acc) == PassFrom(within, value, history', index', acc') by {
        PassSkips(within, value, history, index, acc, f);
      }
    } else {
      acc', history' := acc + within[index..f] + Wrap(value), history + {Interval(f, f + |Wrap(value)|)};
      assert PassFrom(within, value, history, index, acc) == PassFrom(within, value, history', index', acc') by {
        PassWraps(within, value, history, index, acc, f);
      }
    }
    assert acc'[..|acc|] == acc by {
      assert forall i :: 0 <= i < |acc| ==> acc'[i] == acc[i];
    }
  }

  lemma PrefixOfPrefix(r: string, b: string, a: string)
    requires StartsWith(r, b) && |a| <= |b| && b[..|a|] == a
    ensures StartsWith(r, a)
  {
    assert r[..|a|] == r[..|b|][..|a|];
  }

  /** An occurrence that starts inside a recorded interval, both ends
      included, is copied as it is: whatever the rest of the pass does, the
      text gains the occurrence and what precedes it unchanged, and the
      history is not extended for it. */
  lemma BlockedOccurrenceVerbatim(within: string, value: string, history: set<Interval>, index: nat, acc: string, f: int)
    requires value != [] && index < |within|
    requires f == Find(within, value, index) && f != -1 && Blocked(history, f)
    ensures f + |value| <= |within|
    ensures StartsWith(PassFrom(within, value, history, index, acc).0, acc + within[index..f + |value|])
  {
    PassSkips(within, value, history, index, acc, f);
    PassKeepsPrefix(within, value, history, f + |value|, acc + within[index..f + |value|]);
  }

  /** The closed-interval check at work: in `a, a` the second `a` starts at
      offset 3, inside the interval recorded for the first wrap, and is left
      as it was. */
  lemma SecondOccurrenceSkipped()
    ensures PassFrom("a, a", "a", {}, 0, []).0 == Wrap("a") + ", a"
  {
    var s := "a, a";
    OccursAtChar(s, 'a', 0);
    assert Find(s, "a", 0) == 0;
    var h := {Interval(0, |Wrap("a")|)};
    OccursAtChar(s, 'a', 1);
    OccursAtChar(s, 'a', 2);
    OccursAtChar(s, 'a', 3);
    assert Find(s, "a", 2) == 3;
    assert Find(s, "a", 1) == 3;
    assert Interval(0, |Wrap("a")|) in h;
    assert Blocked(h, 3);
    var acc := [] + s[0..0] + Wrap("a");
    assert PassFrom(s, "a", h, 4, acc + s[1..4]) == (acc + s[1..4], h);
    assert acc + s[1..4] == Wrap("a") + ", a";
  }

  // ---------------------------------------------------------------------
  // replace_with_translate (process_controllers.py:209-282)
  // ---------------------------------------------------------------------

  /** The frame of `replace_with_translate`: `passes` rewrites the text
      between the first `(` after `return` and its balancing `)`; the rest of
      the line is kept. */
  function SpliceGroup(line: string, passes: string -> string): string
  {
    var ret := Find(line, "return", 0);
    if ret == -1 then line
    else
      var open := Find(line, "(", ret);
      if open == -1 then line
      else
        var close := MatchingClose(line, open, |line|);
        if close == -1 then line
        else line[..open + 1] + passes(line[open + 1..close]) + line[close..]
  }

  /** The passes for `values`, as one rewriting of a text. */
  function Passes(values: seq<string>): string -> string
    requires forall i :: 0 <= i < |values| ==> values[i] != []
  {
    within => ReplaceValues(within, values, {})
  }

  /** `replace_with_translate(line, values)`. */
  function TranslateLine(line: string, values: seq<string>): string
    requires forall i :: 0 <= i < |values| ==> values[i] != []
  {
    SpliceGroup(line, Passes(values))
  }

  /** A `(` at `open` balanced by the `)` at `close`. */
  ghost predicate BalancedSpan(line: string, open: int, close: int)
  {
    && 0 <= open < close < |line|
    && line[open] == '('
    && line[close] == ')'
    && Depth(line[open + 1..close]) == 0
  }

  /** Rewriting touches nothing outside the parentheses after `return`: a
      line without `return`, without a `(` after it, or whose `(` is never
      balanced comes back as it is; otherwise the `(` and its `)` form a
      balanced pair, and the line keeps everything up to and including the
      `(` and everything from the `)` on. */
  lemma SpliceGroupFrame(line: string, passes: string -> string)
    ensures var r := SpliceGroup(line, passes);
      var ret := Find(line, "return", 0);
      var open := if ret == -1 then -1 else Find(line, "(", ret);
      var close := if open == -1 then -1 else MatchingClose(line, open, |line|);
      && (close == -1 ==> r == line)
      && (close != -1 ==> BalancedSpan(line, open, close) && StartsWith(r, line[..open + 1]) && EndsWith(r, line[close..]))
  {
    var ret := Find(line, "return", 0);
    if ret != -1 {
      var open := Find(line, "(", ret);
      if open != -1 {
        var close := MatchingClose(line, open, |line|);
        if close != -1 {
          assert BalancedSpan(line, open, close) by {
            OccursAtChar(line, '(', open);
            MatchingCloseSpan(line, open, |line|);
          }
          SpliceAround(line, open, close, passes(line[open + 1..close]));
          SpliceGroupAt(line, passes, ret, open, close);
        }
      }
    }
  }

  /** Putting `mid` between `line[..open + 1]` and `line[close..]` keeps
      both. */
  lemma SpliceAround(line: string, open: nat, close: nat, mid: string)
    requires open < close <= |line|
    ensures var r := line[..open + 1] + mid + line[close..];
      StartsWith(r, line[..open + 1]) && EndsWith(r, line[close..])
  {
    var r := line[..open + 1] + mid + line[close..];
    assert r[..open + 1] == line[..open + 1];
    assert r[|r| - |line[close..]|..] == line[close..];
  }

  /** `replace_with_translate` keeps the line outside the group after
      `return`, and the whole line when there is no balanced group. */
  lemma TranslateLineFrame(line: string, values: seq<string>)
    requires forall i :: 0 <= i < |values| ==> values[i] != []
    ensures var r := TranslateLine(line, values);
      var ret := Find(line, "return", 0);
      var open := if ret == -1 then -1 else Find(line, "(", ret);
      var close := if open == -1 then -1 else MatchingClose(line, open, |line|);
      && (close == -1 ==> r == line)
      && (close != -1 ==> BalancedSpan(line, open, close) && StartsWith(r, line[..open + 1]) && EndsWith(r, line[close..]))
  {
    SpliceGroupFrame(line, Passes(values));
  }

  /** A return line whose first `(` is never balanced is left as it is. */
  lemma TranslateLineUnbalanced(line: string, values: seq<string>, open: nat)
    requires forall i :: 0 <= i < |values| ==> values[i] != []
    requires Find(line, "return", 0) != -1 && open == Find(line, "(", Find(line, "return", 0))
    requires forall j :: open < j <= |line| ==> Level(line, open, j) > 0
    ensures TranslateLine(line, values) == line
  {
    NoMatchingClose(line, open, open, |line|);
  }

  lemma SliceThree(s: string, a: nat, b: nat)
    requires a <= b <= |s|
    ensures s[..a] + s[a..b] + s[b..] == s
  {
  }

  /** A rewriting that changes nothing leaves the line as it is. */
  lemma SpliceGroupIdentity(line: string, passes: string -> string)
    requires forall within :: passes(within) == within
    ensures SpliceGroup(line, passes) == line
  {
    var ret := Find(line, "return", 0);
    if ret != -1 {
      var open := Find(line, "(", ret);
      if open != -1 {
        var close := MatchingClose(line, open, |line|);
        if close != -1 {
          assert passes(line[open + 1..close]) == line[open + 1..close];
          SliceThree(line, open + 1, close);
        }
      }
    }
  }

  /** With no values to wrap the line is unchanged. */
  lemma TranslateLineNoValues(line: string)
    ensures TranslateLine(line, []) == line
  {
    SpliceGroupIdentity(line, Passes([]));
  }

  /** The scan over the history: may the occurrence at `f` be wrapped? */
  method CanReplace(history: set<Interval>, f: int) returns (canReplace: bool)
    ensures canReplace == !Blocked(history, f)
  {
    canReplace := true;
    var rest := history;
    while rest != {}
      invariant rest <= history
      invariant forall iv :: iv in history && iv !in rest ==> !(iv.lo <= f <= iv.hi)
      decreases |rest|
    {
      var iv :| iv in rest;
      if iv.lo <= f <= iv.hi {
        canReplace := false;
        break;
      }
      rest := rest - {iv};
    }
  }

  /** The `while index < len(within_paren)` loop for one value. */
  method TranslatePass(within: string, value: string, history: set<Interval>) returns (newWithin: string, newHistory: set<Interval>)
    requires value != []
    ensures (newWithin, newHistory) == PassFrom(within, value, history, 0, [])
  {
    newWithin := "";
    newHistory := history;
    var index := 0;
    while index < |within|
      invariant 0 <= index <= |within|
      invariant PassFrom(within, value, newHistory, index, newWithin) == PassFrom(within, value, history, 0, [])
      decreases |within| - index
    {
      var foundIndex := Find(within, value, index);
      if foundIndex == -1 {
        AbsentValue(within, value, newHistory, index, newWithin);
        newWithin := newWithin + within[index..];
        return;
      }
      newWithin, newHistory, index := PassRound(within, value, newHistory, index, newWithin, foundIndex);
    }
  }

  /** One round of the loop, at the occurrence `f` found from `index`: wrap it
      and record it, or copy it when the history covers it. */
  method PassRound(within: string, value: string, history: set<Interval>, index: nat, acc: string, f: int)
    returns (acc': string, history': set<Interval>, index': nat)
    requires value != [] && index < |within| && f == Find(within, value, index) && f != -1
    ensures index < index' <= |within|
    ensures PassFrom(within, value, history, index, acc) == PassFrom(within, value, history', index', acc')
  {
    var canReplace := CanReplace(history, f);
    if canReplace {
      PassWraps(within, value, history, index, acc, f);
      acc' := acc + within[index..f] + Wrap(value);
      history' := history + {Interval(f, f + |Wrap(value)|)};
    } else {
      PassSkips(within, value, history, index, acc, f);
      acc' := acc + within[index..f + |value|];
      history' := history;
    }
    index' := f + |value|;
  }

  /** The pass wraps and records an occurrence outside every interval ... */
  lemma PassWraps(within: string, value: string, history: set<Interval>, index: nat, acc: string, f: int)
    requires value != [] && index < |within| && f == Find(within, value, index) && f != -1 && !Blocked(history, f)
    ensures f + |value| <= |within|
    ensures PassFrom(within, value, history, index, acc)
      == PassFrom(within, value, history + {Interval(f, f + |Wrap(value)|)}, f + |value|, acc + within[index..f] + Wrap(value))
  {
  }

  /** ... and copies one inside a recorded interval. */
  lemma PassSkips(within: string, value: string, history: set<Interval>, index: nat, acc: string, f: int)
    requires value != [] && index < |within| && f == Find(within, value, index) && f != -1 && Blocked(history, f)
    ensures f + |value| <= |within|
    ensures PassFrom(within, value, history, index, acc) == PassFrom(within, value, history, f + |value|, acc + within[index..f + |value|])
  {
  }

  /** `replace_with_translate`. */
  method ReplaceWithTranslate(line: string, values: seq<string>) returns (result: string)
    requires forall i :: 0 <= i < |values| ==> values[i] != []
    ensures result == TranslateLine(line, values)
  {
    var returnIndex := Find(line, "return", 0);
    if returnIndex == -1 {
      return line;
    }
    var openParenIndex := Find(line, "(", returnIndex);
    if openParenIndex == -1 {
      return line;
    }
    OccursAtChar(line, '(', openParenIndex);
    var closeParenIndex := FindCloseParen(line, openParenIndex);
    if closeParenIndex == -1 {
      return line;
    }
    var withinParen := ReplaceAll(line[openParenIndex + 1..closeParenIndex], values);
    result := line[..openParenIndex + 1] + withinParen + line[closeParenIndex..];
    SpliceGroupAt(line, Passes(values), returnIndex, openParenIndex, closeParenIndex);
  }

  /** `SpliceGroup` once the `return`, its `(` and the balancing `)` are found. */
  lemma SpliceGroupAt(line: string, passes: string -> string, ret: int, open: nat, close: int)
    requires ret == Find(line, "return", 0) && ret != -1 && open == Find(line, "(", ret)
    requires open < close < |line| && close == MatchingClose(line, open, |line|)
    ensures SpliceGroup(line, passes) == line[..open + 1] + passes(line[open + 1..close]) + line[close..]
  {
  }

  /** The depth-counting scan of `replace_with_translate` for the `)` that
      balances the `(` at `open`. */
  method FindCloseParen(line: string, open: nat) returns (close: int)
    requires open < |line| && line[open] == '('
    ensures close == MatchingClose(line, open, |line|)
  {
    close := -1;
    var parenCount := 1;
    var i := open + 1;
    DepthStep(line, open, open);
    assert line[open..open] == [];
    while i < |line|
      invariant open < i <= |line|
      invariant parenCount == Level(line, open, i) && parenCount > 0
      invariant MatchingCloseFrom(line, open, i, |line|) == MatchingClose(line, open, |line|)
    {
      DepthStep(line, open, i);
      if line[i] == '(' {
        parenCount := parenCount + 1;
      } else if line[i] == ')' {
        parenCount := parenCount - 1;
      }
      if parenCount == 0 {
        close := i;
        return;
      }
      i := i + 1;
    }
  }

  /** The passes of `replace_with_translate`, one per value, sharing one
      replacement history. */
  method ReplaceAll(within: string, values: seq<string>) returns (result: string)
    requires forall i :: 0 <= i < |values| ==> values[i] != []
    ensures result == ReplaceValues(within, values, {})
  {
    result := within;
    var replaceHistory: set<Interval> := {};
    var k := 0;
    while k < |values|
      invariant 0 <= k <= |values|
      invariant ReplaceValues(result, values[k..], replaceHistory) == ReplaceValues(within, values, {})
    {
      assert values[k..][1..] == values[k + 1..];
      result, replaceHistory := TranslatePass(result, values[k], replaceHistory);
      k := k + 1;
    }
  }

  lemma IndentBefore(line: string, j: nat)
    requires j < |line| && !IsSpace(line[j])
    ensures |Indentation(line)| <= j
  {
    IndentationMeaning(line);
  }

  /** Splicing after position `b` keeps any prefix of `line[..b]`. */
  lemma SpliceKeepsPrefix(line: string, b: nat, mid: string, tail: string, p: string)
    requires |p| <= b <= |line| && p == line[..|p|]
    ensures StartsWith(line[..b] + mid + tail, p)
  {
    assert (line[..b] + mid + tail)[..|p|] == line[..b][..|p|];
  }

  /** The wrapped line keeps the indentation of the line it came from. */
  lemma SpliceGroupKeepsIndentation(line: string, passes: string -> string)
    ensures StartsWith(SpliceGroup(line, passes), Indentation(line))
  {
    var indent := Indentation(line);
    var ret := Find(line, "return", 0);
    if ret != -1 {
      var open := Find(line, "(", ret);
      if open != -1 {
        OccursAtChar(line, '(', open);
        var close := MatchingClose(line, open, |line|);
        if close != -1 {
          assert |indent| <= open by {
            IndentBefore(line, open);
          }
          SpliceKeepsPrefix(line, open + 1, passes(line[open + 1..close]), line[close..], indent);
        }
      }
    }
  }

  lemma TranslateLineKeepsIndentation(line: string, values: seq<string>)
    requires forall i :: 0 <= i < |values| ==> values[i] != []
    ensures StartsWith(TranslateLine(line, values), Indentation(line))
  {
    SpliceGroupKeepsIndentation(line, Passes(values));
  }

  // ---------------------------------------------------------------------
  // One file (process_controllers.py:43-112)
  // ---------------------------------------------------------------------

  /** A line whose stripped text starts with `//` is copied as it is. */
  predicate IsComment(line: string)
  {
    StartsWith(Strip(line), "//")
  }

  /** The first line naming a package (outside a comment) is copied as it is;
      the import it once announced is no longer written. */
  predicate IsFirstPackageLine(line: string, packageFound: bool)
  {
    !IsComment(line) && Contains(line, "package ") && !packageFound
  }

  /** A line the script rewrites: not a comment, not the first package line,
      holding `return `. */
  predicate IsReturnLine(line: string, packageFound: bool)
  {
    !IsComment(line) && !IsFirstPackageLine(line, packageFound) && Contains(line, "return ")
  }

  /** The `extractAndWrite` lines put above a return line, one per value. */
  function Registrations(indent: string, values: seq<string>): seq<string>
  {
    seq(|values|, i requires 0 <= i < |values| => Registration(indent, values[i]))
  }

  /** What one input line becomes in the output: the registrations of its
      accepted values, then the line with every accepted value wrapped. */
  function RewriteLine(line: string, packageFound: bool): (out: seq<string>)
    ensures |out| >= 1
    ensures !IsReturnLine(line, packageFound) ==> out == [line]
  {
    if IsReturnLine(line, packageFound) then
      var values := ExtractValues(line);
      var full := FullBucket(values);
      BucketsNonEmpty(values);
      Registrations(Indentation(line), full) + [TranslateLine(line, full + LambdaBucket(values))]
    else [line]
  }

  /** Whether the package line has been passed, after one more line. */
  function PackageSeen(line: string, packageFound: bool): bool
  {
    packageFound || IsFirstPackageLine(line, packageFound)
  }

  /** The output of the loop over the lines of a controller file. */
  function RewriteControllerLines(lines: seq<string>, packageFound: bool): seq<string>
  {
    if lines == [] then []
    else RewriteLine(lines[0], packageFound) + RewriteControllerLines(lines[1..], PackageSeen(lines[0], packageFound))
  }

  /** `process_java_file`, on the lines of the file: a file that never
      mentions `Controller` is left alone. */
  function ProcessControllerFile(lines: seq<string>): seq<string>
  {
    if exists i :: 0 <= i < |lines| && Contains(lines[i], "Controller") then RewriteControllerLines(lines, false)
    else lines
  }

  /** The registration lines list the accepted values without `->`, each
      once for every time it was extracted, and nothing else. */
  lemma RegistrationsOfBucket(indent: string, values: seq<string>)
    ensures var regs := Registrations(indent, FullBucket(values));
      && |regs| == |FullBucket(values)|
      && (forall i :: 0 <= i < |regs| ==>
            exists v :: v in values && RuleR(v) && !Contains(v, "->") && regs[i] == Registration(indent, v))
      && (forall v :: v in values && RuleR(v) && !Contains(v, "->") ==> Registration(indent, v) in regs)
  {
    var full := FullBucket(values);
    var regs := Registrations(indent, full);
    forall i | 0 <= i < |regs|
      ensures exists v :: v in values && RuleR(v) && !Contains(v, "->") && regs[i] == Registration(indent, v)
    {
      assert full[i] in full;
    }
    forall v | v in values && RuleR(v) && !Contains(v, "->")
      ensures Registration(indent, v) in regs
    {
      var i :| 0 <= i < |full| && full[i] == v;
      assert regs[i] == Registration(indent, v);
    }
  }

  lemma ReturnLineParts(line: string, packageFound: bool)
    requires IsReturnLine(line, packageFound)
    ensures var values := ExtractValues(line);
      var both := FullBucket(values) + LambdaBucket(values);
      && (forall i :: 0 <= i < |both| ==> both[i] != [])
      && RewriteLine(line, packageFound) == Registrations(Indentation(line), FullBucket(values)) + [TranslateLine(line, both)]
  {
    BucketsNonEmpty(ExtractValues(line));
  }

  /** The lines emitted for a return line: first the registration of each
      accepted value without `->`, in the order they were extracted, then
      the rewritten return line. */
  lemma ReturnLineOutput(line: string, packageFound: bool)
    requires IsReturnLine(line, packageFound)
    ensures var full := FullBucket(ExtractValues(line));
      var out := RewriteLine(line, packageFound);
      && |out| == |full| + 1
      && (forall i :: 0 <= i < |full| ==> out[i] == Registration(Indentation(line), full[i]))
  {
    var values := ExtractValues(line);
    var full := FullBucket(values);
    ReturnLineParts(line, packageFound);
    SnocParts(Registrations(Indentation(line), full), TranslateLine(line, full + LambdaBucket(values)));
  }

  lemma RegistrationsIndented(line: string, packageFound: bool)
    requires IsReturnLine(line, packageFound)
    ensures var out := RewriteLine(line, packageFound);
      forall i :: 0 <= i < |out| - 1 ==> StartsWith(out[i], Indentation(line))
  {
    var values := ExtractValues(line);
    ReturnLineParts(line, packageFound);
    RegistrationsStartWith(Indentation(line), FullBucket(values), TranslateLine(line, FullBucket(values) + LambdaBucket(values)));
  }

  /** Every registration line starts with the indentation it was given. */
  lemma RegistrationsStartWith(indent: string, values: seq<string>, last: string)
    ensures var out := Registrations(indent, values) + [last];
      forall i :: 0 <= i < |out| - 1 ==> StartsWith(out[i], indent)
  {
    var regs := Registrations(indent, values);
    SnocParts(regs, last);
    forall i | 0 <= i < |values|
      ensures StartsWith(regs[i], indent)
    {
      assert regs[i][..|indent|] == indent;
    }
  }

  lemma ReturnLineIndented(line: string, packageFound: bool)
    requires IsReturnLine(line, packageFound)
    ensures var out := RewriteLine(line, packageFound);
      StartsWith(out[|out| - 1], Indentation(line))
  {
    var values := ExtractValues(line);
    var full := FullBucket(values);
    var both := full + LambdaBucket(values);
    ReturnLineParts(line, packageFound);
    TranslateLineKeepsIndentation(line, both);
    SnocParts(Registrations(Indentation(line), full), TranslateLine(line, both));
  }

  /** Every line emitted for a return line has the indentation of the
      return line. */
  lemma ReturnLineIndentation(line: string, packageFound: bool)
    requires IsReturnLine(line, packageFound)
    ensures var out := RewriteLine(line, packageFound);
      forall i :: 0 <= i < |out| ==> StartsWith(out[i], Indentation(line))
  {
    RegistrationsIndented(line, packageFound);
    ReturnLineIndented(line, packageFound);
  }

  lemma SnocParts<T>(a: seq<T>, x: T)
    ensures |a + [x]| == |a| + 1 && (a + [x])[..|a|] == a && (a + [x])[|a|] == x
    ensures forall i :: 0 <= i < |a| ==> (a + [x])[i] == a[i]
  {
  }

  lemma LinesAssoc(a: seq<string>, b: seq<string>, c: seq<string>)
    ensures a + b + c == a + (b + c)
  {
  }

  lemma RewriteLinesUnfold(lines: seq<string>, packageFound: bool, k: nat)
    requires k < |lines|
    ensures RewriteControllerLines(lines[k..], packageFound)
      == RewriteLine(lines[k], packageFound) + RewriteControllerLines(lines[k + 1..], PackageSeen(lines[k], packageFound))
  {
    assert lines[k..][1..] == lines[k + 1..];
  }

  /** A file without a `return ` line comes out exactly as it went in. */
  lemma {:induction false} NoReturnNoChange(lines: seq<string>, packageFound: bool)
    requires forall i :: 0 <= i < |lines| ==> !Contains(lines[i], "return ")
    ensures RewriteControllerLines(lines, packageFound) == lines
  {
    if lines != [] {
      NoReturnNoChange(lines[1..], PackageSeen(lines[0], packageFound));
      assert [lines[0]] + lines[1..] == lines;
    }
  }

  /** Comment lines are copied one for one: the output never has fewer lines
      than the input. */
  lemma {:induction false} RewriteLinesGrows(lines: seq<string>, packageFound: bool)
    ensures |RewriteControllerLines(lines, packageFound)| >= |lines|
  {
    if lines != [] {
      RewriteLinesGrows(lines[1..], PackageSeen(lines[0], packageFound));
    }
  }

  /** `is_controller_file`. */
  method IsControllerFile(lines: seq<string>) returns (found: bool)
    ensures found <==> exists i :: 0 <= i < |lines| && Contains(lines[i], "Controller")
  {
    var k := 0;
    while k < |lines|
      invariant 0 <= k <= |lines|
      invariant forall i :: 0 <= i < k ==> !Contains(lines[i], "Controller")
    {
      if Contains(lines[k], "Controller") {
        return true;
      }
      k := k + 1;
    }
    return false;
  }

  /** The loop over the extracted values that fills the two buckets. */
  method SortValues(values: seq<string>) returns (filtered: seq<string>, translateOnly: seq<string>)
    ensures filtered == FullBucket(values) && translateOnly == LambdaBucket(values)
  {
    filtered, translateOnly := [], [];
    var k := 0;
    while k < |values|
      invariant 0 <= k <= |values|
      invariant filtered == FullBucket(values[..k]) && translateOnly == LambdaBucket(values[..k])
    {
      filtered, translateOnly := SortValue(values[k], filtered, translateOnly);
      BucketsSnoc(values, k);
      k := k + 1;
    }
    assert values[..k] == values;
  }

  /** One step of the sorting loop: an accepted value goes to the list for
      its kind, any other is dropped. */
  method SortValue(value: string, filtered: seq<string>, translateOnly: seq<string>)
    returns (filtered': seq<string>, translateOnly': seq<string>)
    ensures filtered' == filtered + (if RuleR(value) && !Contains(value, "->") then [value] else [])
    ensures translateOnly' == translateOnly + (if RuleR(value) && Contains(value, "->") then [value] else [])
  {
    filtered', translateOnly' := filtered, translateOnly;
    if RuleR(value) {
      if Contains(value, "->") {
        translateOnly' := translateOnly + [value];
      } else {
        filtered' := filtered + [value];
      }
    }
  }


  /** The body of the loop for a return line. */
  method RewriteReturnLine(line: string, packageFound: bool) returns (out: seq<string>)
    requires IsReturnLine(line, packageFound)
    ensures out == RewriteLine(line, packageFound)
  {
    var extracted := ExtractValuesFromReturn(line);
    var filtered, translateOnly := SortValues(extracted);
    out := [];
    if filtered != [] {
      var indent := Indentation(line);
      out := Registrations(indent, filtered);
    }
    BucketsNonEmpty(extracted);
    var modified := ReplaceWithTranslate(line, filtered + translateOnly);
    out := out + [modified];
  }

  /** `process_java_file` on the lines read from the file; the new lines are
      what it writes back. */
  method ProcessJavaFile(lines: seq<string>) returns (modified: seq<string>)
    ensures modified == ProcessControllerFile(lines)
  {
    var controller := IsControllerFile(lines);
    if !controller {
      return lines;
    }
    modified := [];
    var packageFound := false;
    var k := 0;
    while k < |lines|
      invariant 0 <= k <= |lines|
      invariant modified + RewriteControllerLines(lines[k..], packageFound) == RewriteControllerLines(lines, false)
    {
      RewriteLinesUnfold(lines, packageFound, k);
      var out, found := ProcessJavaLine(lines[k], packageFound);
      LinesAssoc(modified, out, RewriteControllerLines(lines[k + 1..], found));
      modified := modified + out;
      packageFound := found;
      k := k + 1;
    }
  }

  /** One round of the loop over the lines: what is written for `line`, and
      whether the package line has been passed. */
  method ProcessJavaLine(line: string, packageFound: bool) returns (out: seq<string>, found: bool)
    ensures out == RewriteLine(line, packageFound) && found == PackageSeen(line, packageFound)
  {
    found := packageFound;
    if IsComment(line) {
      out := [line];
    } else if Contains(line, "package ") && !packageFound {
      out := [line];
      found := true;
    } else if Contains(line, "return ") {
      out := RewriteReturnLine(line, packageFound);
    } else {
      out := [line];
    }
  }
}
