/** The rule parsers of app.py: the question and skip lists (`parse_qnos`,
    `parse_skip_images`), the numbering overrides (`parse_multi_numbering`)
    and the strip mapping built from three question lists
    (`get_strip_mapping`).

    Each parser is a method with the source's loops; its contract ties the
    result to a specification function written in the "remaining work"
    style, `F(acc, rest)`, and the lemmas at the end of each section say what
    that function means. */
module Parsers {
  import opened Base
  import opened PyText

  // ================================================================ question and skip lists

  /** The numbers one stripped token of a list stands for: `a-b` is the
      inclusive range, a bare integer is itself, a blank token is nothing,
      and anything else raises. */
  function TokenNumbers(part: string): Parsed<seq<int>>
  {
    if '-' in part then
      var ends := Split(part, '-');
      if |ends| == 2 && ParseInt(ends[0]).Some? && ParseInt(ends[1]).Some? then
        Success(Range(ParseInt(ends[0]).value, ParseInt(ends[1]).value))
      else Failure(BadToken(part))
    else if part == [] then Success([])
    else if ParseInt(part).Some? then Success([ParseInt(part).value])
    else Failure(BadToken(part))
  }

  /** The list `acc` becomes once the tokens `parts` are processed in order;
      the first bad token ends the parse. */
  function NumberListFrom(acc: seq<int>, parts: seq<string>): Parsed<seq<int>>
    decreases |parts|
  {
    if parts == [] then Success(acc)
    else match TokenNumbers(Strip(parts[0]))
      case Failure(e) => Failure(e)
      case Success(ns) => NumberListFrom(acc + ns, parts[1..])
  }

  /** What `parse_qnos` and `parse_skip_images` return or raise. */
  function NumberList(text: string): Parsed<seq<int>>
  {
    if text == [] then Success([]) else NumberListFrom([], Split(text, ','))
  }

  method ParseQnos(text: string) returns (r: Parsed<seq<int>>)
    ensures r == NumberList(text)
  {
    if text == [] {
      return Success([]);
    }
    var parts := Split(text, ',');
    var list := [];
    for i := 0 to |parts|
      invariant NumberListFrom(list, parts[i..]) == NumberList(text)
    {
      assert parts[i..][1..] == parts[i + 1..];
      var numbers := ParseToken(Strip(parts[i]));
      if numbers.Failure? {
        return Failure(numbers.error);
      }
      list := list + numbers.value;
    }
    assert parts[|parts|..] == [];
    r := Success(list);
  }

  /** The body of `parse_qnos`'s loop for one stripped token. */
  method ParseToken(part: string) returns (r: Parsed<seq<int>>)
    ensures r == TokenNumbers(part)
  {
    if '-' in part {
      var ends := Split(part, '-');
      if |ends| != 2 {
        return Failure(BadToken(part));
      }
      var start := ParseInt(ends[0]);
      var end := ParseInt(ends[1]);
      if start.None? || end.None? {
        return Failure(BadToken(part));
      }
      r := Success(Range(start.value, end.value));
    } else if part != [] {
      var n := ParseInt(part);
      if n.None? {
        return Failure(BadToken(part));
      }
      r := Success([n.value]);
    } else {
      r := Success([]);
    }
  }

  /** `parse_skip_images` is the same parser as `parse_qnos`. */
  method ParseSkipImages(text: string) returns (r: Parsed<seq<int>>)
    ensures r == NumberList(text)
  {
    r := ParseQnos(text);
  }

  /** A non-empty list fails to parse exactly when one of its tokens is
      malformed (the empty list is `Success([])` by definition). */
  lemma {:induction false} NumberListFails(text: string)
    requires text != []
    ensures NumberList(text).Failure? ==>
            exists i :: 0 <= i < |Split(text, ',')| && TokenNumbers(Strip(Split(text, ',')[i])).Failure?
    ensures (exists i :: 0 <= i < |Split(text, ',')| && TokenNumbers(Strip(Split(text, ',')[i])).Failure?) ==>
            NumberList(text).Failure?
  {
    var parts := Split(text, ',');
    NumberListFromFails([], parts);
    assert NumberList(text) == NumberListFrom([], parts);
  }

  lemma {:induction false} NumberListFromFails(acc: seq<int>, parts: seq<string>)
    ensures NumberListFrom(acc, parts).Failure? ==>
            exists i :: 0 <= i < |parts| && TokenNumbers(Strip(parts[i])).Failure?
    ensures (exists i :: 0 <= i < |parts| && TokenNumbers(Strip(parts[i])).Failure?) ==>
            NumberListFrom(acc, parts).Failure?
    decreases |parts|
  {
    if parts != [] {
      match TokenNumbers(Strip(parts[0]))
      case Failure(_) =>
      case Success(ns) =>
        NumberListFromFails(acc + ns, parts[1..]);
        if exists i :: 0 <= i < |parts| && TokenNumbers(Strip(parts[i])).Failure? {
          var i :| 0 <= i < |parts| && TokenNumbers(Strip(parts[i])).Failure?;
          assert parts[1..][i - 1] == parts[i];
        }
        if exists i :: 0 <= i < |parts[1..]| && TokenNumbers(Strip(parts[1..][i])).Failure? {
          var i :| 0 <= i < |parts[1..]| && TokenNumbers(Strip(parts[1..][i])).Failure?;
          assert parts[i + 1] == parts[1..][i];
        }
    }
  }

  /** A range rule as a user types it: a bare number or `lo-hi`. */
  datatype RangeRule = Single(n: nat) | Span(lo: nat, hi: nat)

  function RuleText(rule: RangeRule): string
  {
    match rule
    case Single(n) => NatToString(n)
    case Span(lo, hi) => NatToString(lo) + "-" + NatToString(hi)
  }

  function RuleTexts(rules: seq<RangeRule>): (ts: seq<string>)
    ensures |ts| == |rules|
    ensures forall i :: 0 <= i < |rules| ==> ts[i] == RuleText(rules[i])
  {
    if rules == [] then [] else [RuleText(rules[0])] + RuleTexts(rules[1..])
  }

  /** The rules written as a comma-separated list. */
  function RulesText(rules: seq<RangeRule>): string
  {
    Join(RuleTexts(rules), ',')
  }

  /** The numbers one rule stands for. */
  function RuleNumbers(rule: RangeRule): seq<int>
  {
    match rule
    case Single(n) => [n]
    case Span(lo, hi) => Range(lo, hi)
  }

  /** The numbers a sequence of rules stands for, in order. */
  function Expand(rules: seq<RangeRule>): seq<int>
  {
    if rules == [] then [] else RuleNumbers(rules[0]) + Expand(rules[1..])
  }

  lemma RuleTextNumbers(rule: RangeRule)
    ensures ',' !in RuleText(rule)
    ensures TokenNumbers(Strip(RuleText(rule))) == Success(RuleNumbers(rule))
  {
    match rule
    case Single(n) => SingleToken(n);
    case Span(lo, hi) => SpanToken(lo, hi);
  }

  lemma SingleToken(n: nat)
    ensures var a := NatToString(n);
            ',' !in a && Strip(a) == a && TokenNumbers(a) == Success([n])
  {
    var a := NatToString(n);
    DigitsText(a);
    StripNoSpace(a);
    ParseIntToString(n);
    assert ParseInt(a) == Some(n);
  }

  lemma SpanToken(lo: nat, hi: nat)
    ensures var t := NatToString(lo) + "-" + NatToString(hi);
            ',' !in t && Strip(t) == t && TokenNumbers(t) == Success(Range(lo, hi))
  {
    var a, b := NatToString(lo), NatToString(hi);
    SpanText(a, b);
    ParseIntToString(lo);
    ParseIntToString(hi);
    assert ParseInt(a) == Some(lo) && ParseInt(b) == Some(hi);
  }

  /** `a-b` for two decimal texts: it strips to itself, has no `,` and no
      `:`, and splits on `-` into `a` and `b`. */
  lemma SpanText(a: string, b: string)
    requires a != [] && b != [] && AllDigits(a) && AllDigits(b)
    ensures var t := a + "-" + b;
            NoSpace(t) && Strip(t) == t && '-' in t && ',' !in t && ':' !in t && Split(t, '-') == [a, b]
  {
    DigitsText(a);
    DigitsText(b);
    assert a + "-" + b == a + ['-'] + b;
    JoinedText(a, '-', b);
    var t := a + "-" + b;
    assert forall i :: 0 <= i < |t| ==> t[i] == '-' || t[i] in a || t[i] in b;
  }

  lemma {:induction false} NumberListFromRules(acc: seq<int>, rules: seq<RangeRule>)
    ensures NumberListFrom(acc, RuleTexts(rules)) == Success(acc + Expand(rules))
    decreases |rules|
  {
    if rules != [] {
      var ts := RuleTexts(rules);
      var acc' := acc + RuleNumbers(rules[0]);
      RuleTextNumbers(rules[0]);
      assert ts[1..] == RuleTexts(rules[1..]);
      NumberListFromRules(acc', rules[1..]);
      NumberListFromStep(acc, ts, RuleNumbers(rules[0]));
      assert acc' + Expand(rules[1..]) == acc + Expand(rules);
    } else {
      assert acc + Expand(rules) == acc;
    }
  }

  lemma NumberListFromStep(acc: seq<int>, parts: seq<string>, ns: seq<int>)
    requires parts != [] && TokenNumbers(Strip(parts[0])) == Success(ns)
    ensures NumberListFrom(acc, parts) == NumberListFrom(acc + ns, parts[1..])
  {
  }

  /** Parsing a written-out list of rules gives back the numbers the rules
      stand for: `a-b` expands to `[a..b]` (nothing when `a > b`), `n` to
      `[n]`, in the order of the rules; no text gives no numbers. */
  lemma {:induction false} NumberListRoundTrip(rules: seq<RangeRule>)
    ensures NumberList(RulesText(rules)) == Success(Expand(rules))
  {
    var ts := RuleTexts(rules);
    if rules == [] {
      assert RulesText(rules) == [];
    } else {
      forall i | 0 <= i < |ts| ensures ',' !in ts[i] {
        RuleTextNumbers(rules[i]);
      }
      SplitJoin(ts, ',');
      JoinNonEmpty(ts, ',');
      NumberListFromRules([], rules);
      assert [] + Expand(rules) == Expand(rules);
    }
  }

  // ================================================================ numbering overrides

  /** `start`, `start + 1`, ... for the positions `lo` to `hi`. */
  function Numbered(lo: int, hi: int, start: int): (m: map<int, int>)
    ensures forall k :: k in m <==> lo <= k <= hi
    ensures forall k :: k in m ==> m[k] == start + (k - lo)
  {
    RangeMembersAll(lo, hi);
    map k | k in Range(lo, hi) :: start + (k - lo)
  }

  lemma RangeMembersAll(lo: int, hi: int)
    ensures forall k :: k in Range(lo, hi) <==> lo <= k <= hi
  {
    forall k ensures k in Range(lo, hi) <==> lo <= k <= hi {
      RangeMembers(lo, hi, k);
    }
  }

  /** What one stripped token does to the override map: `Success(None)` when
      it has no `:` or its start number is not an integer (the token is left
      alone), `Success(Some(entries))` for the entries it writes, `Failure`
      when it raises (more than one `:`, or a malformed position range). */
  function OverrideToken(part: string): Parsed<Option<map<int, int>>>
  {
    if ':' !in part then Success(None)
    else
      var halves := Split(part, ':');
      if |halves| != 2 then Failure(BadToken(part))
      else if ParseInt(halves[1]).None? then Success(None)
      else match TargetEntries(halves[0], ParseInt(halves[1]).value)
        case None => Failure(BadToken(part))
        case Some(entries) => Success(Some(entries))
  }

  /** The entries the position part `target` of a token writes for the start
      number `start`: `lo-hi` numbers a range, a bare integer one position;
      `None` when it raises. */
  function TargetEntries(target: string, start: int): Option<map<int, int>>
  {
    if '-' in target then
      var ends := Split(target, '-');
      if |ends| == 2 && ParseInt(ends[0]).Some? && ParseInt(ends[1]).Some? then
        Some(Numbered(ParseInt(ends[0]).value, ParseInt(ends[1]).value, start))
      else None
    else if ParseInt(target).Some? then Some(map[ParseInt(target).value := start])
    else None
  }

  /** The override map after one stripped token. */
  function ApplyOverride(m: map<int, int>, part: string): Parsed<map<int, int>>
  {
    match OverrideToken(part)
    case Failure(e) => Failure(e)
    case Success(None) => Success(m)
    case Success(Some(entries)) => Success(m + entries)
  }

  function OverridesFrom(m: map<int, int>, parts: seq<string>): Parsed<map<int, int>>
    decreases |parts|
  {
    if parts == [] then Success(m)
    else match ApplyOverride(m, Strip(parts[0]))
      case Failure(e) => Failure(e)
      case Success(m') => OverridesFrom(m', parts[1..])
  }

  /** What `parse_multi_numbering` returns or raises. */
  function Overrides(text: string): Parsed<map<int, int>>
  {
    if text == [] then Success(map[]) else OverridesFrom(map[], Split(text, ','))
  }

  method ParseMultiNumbering(text: string) returns (r: Parsed<map<int, int>>)
    ensures r == Overrides(text)
  {
    if text == [] {
      return Success(map[]);
    }
    var parts := Split(text, ',');
    var m: map<int, int> := map[];
    for i := 0 to |parts|
      invariant OverridesFrom(m, parts[i..]) == Overrides(text)
    {
      assert parts[i..][1..] == parts[i + 1..];
      var next := ParseOverrideToken(m, Strip(parts[i]));
      if next.Failure? {
        return Failure(next.error);
      }
      m := next.value;
    }
    assert parts[|parts|..] == [];
    r := Success(m);
  }

  /** The body of `parse_multi_numbering`'s loop for one stripped token; a
      non-integer start number skips the token (the `continue`). */
  method ParseOverrideToken(m0: map<int, int>, part: string) returns (r: Parsed<map<int, int>>)
    ensures r == ApplyOverride(m0, part)
  {
    if ':' !in part {
      return Success(m0);
    }
    var halves := Split(part, ':');
    if |halves| != 2 {
      return Failure(BadToken(part));
    }
    var start := ParseInt(halves[1]);
    if start.None? {
      return Success(m0);
    }
    var m := WriteTarget(m0, halves[0], start.value);
    if m.None? {
      return Failure(BadToken(part));
    }
    r := Success(m.value);
  }

  /** The writes of one token's position part, or `None` when it raises. */
  method WriteTarget(m0: map<int, int>, target: string, start: int) returns (r: Option<map<int, int>>)
    ensures r == match TargetEntries(target, start) case None => None case Some(e) => Some(m0 + e)
  {
    if '-' in target {
      var ends := Split(target, '-');
      if |ends| != 2 {
        return None;
      }
      var lo := ParseInt(ends[0]);
      var hi := ParseInt(ends[1]);
      if lo.None? || hi.None? {
        return None;
      }
      var m := Renumber(m0, lo.value, hi.value, start);
      r := Some(m);
    } else {
      var pos := ParseInt(target);
      if pos.None? {
        return None;
      }
      assert m0 + map[pos.value := start] == m0[pos.value := start];
      r := Some(m0[pos.value := start]);
    }
  }

  /** The loop `for i, idx in enumerate(range(lo, hi + 1)): m[idx] = start + i`. */
  method Renumber(m0: map<int, int>, lo: int, hi: int, start: int) returns (m: map<int, int>)
    ensures m == m0 + Numbered(lo, hi, start)
  {
    m := m0;
    var idx := lo;
    while idx <= hi
      invariant lo <= idx <= hi + 1 || idx == lo
      invariant forall k :: k in m <==> k in m0 || lo <= k < idx
      invariant forall k :: k in m ==> m[k] == if lo <= k < idx then start + (k - lo) else m0[k]
    {
      m := m[idx := start + (idx - lo)];
      idx := idx + 1;
    }
    assert forall k :: k in m <==> k in m0 + Numbered(lo, hi, start);
  }

  /** A numbering rule as a user types it: `pos:start` or `lo-hi:start`. */
  datatype NumberingRule = At(pos: nat, start: int) | Over(lo: nat, hi: nat, start: int)

  /** The position part of a rule's text. */
  function PositionText(rule: NumberingRule): string
  {
    match rule
    case At(pos, _) => NatToString(pos)
    case Over(lo, hi, _) => NatToString(lo) + "-" + NatToString(hi)
  }

  function NumberingRuleText(rule: NumberingRule): string
  {
    PositionText(rule) + ":" + IntToString(rule.start)
  }

  function NumberingRuleTexts(rules: seq<NumberingRule>): (ts: seq<string>)
    ensures |ts| == |rules|
    ensures forall i :: 0 <= i < |rules| ==> ts[i] == NumberingRuleText(rules[i])
  {
    if rules == [] then [] else [NumberingRuleText(rules[0])] + NumberingRuleTexts(rules[1..])
  }

  function RuleEntries(rule: NumberingRule): map<int, int>
  {
    match rule
    case At(pos, start) => map[pos := start]
    case Over(lo, hi, start) => Numbered(lo, hi, start)
  }

  /** The override map the rules denote: applied in order, a later rule
      overwriting the positions of earlier ones. */
  function RulesMap(rules: seq<NumberingRule>): map<int, int>
  {
    if rules == [] then map[] else RulesMap(rules[..|rules| - 1]) + RuleEntries(rules[|rules| - 1])
  }

  lemma NumberingRuleToken(rule: NumberingRule)
    ensures ',' !in NumberingRuleText(rule)
    ensures OverrideToken(Strip(NumberingRuleText(rule))) == Success(Some(RuleEntries(rule)))
  {
    match rule
    case At(pos, start) => AtToken(pos, start);
    case Over(lo, hi, start) => OverToken(lo, hi, start);
  }

  lemma AtToken(pos: nat, start: int)
    ensures var t := NatToString(pos) + ":" + IntToString(start);
            ',' !in t && OverrideToken(Strip(t)) == Success(Some(map[pos := start]))
  {
    AtTarget(pos, start);
    DecimalText(start);
    OverrideTokenJoined(NatToString(pos), IntToString(start), start, map[pos := start]);
  }

  lemma OverToken(lo: nat, hi: nat, start: int)
    ensures var t := NatToString(lo) + "-" + NatToString(hi) + ":" + IntToString(start);
            ',' !in t && OverrideToken(Strip(t)) == Success(Some(Numbered(lo, hi, start)))
  {
    OverTarget(lo, hi, start);
    DecimalText(start);
    OverrideTokenJoined(NatToString(lo) + "-" + NatToString(hi), IntToString(start), start, Numbered(lo, hi, start));
  }

  lemma AtTarget(pos: nat, start: int)
    ensures var a := NatToString(pos);
            NoSpace(a) && ':' !in a && ',' !in a && TargetEntries(a, start) == Some(map[pos := start])
  {
    var a := NatToString(pos);
    DigitsText(a);
    StripNoSpace(a);
    ParseIntToString(pos);
    assert ParseInt(a) == Some(pos);
  }

  lemma OverTarget(lo: nat, hi: nat, start: int)
    ensures var t := NatToString(lo) + "-" + NatToString(hi);
            NoSpace(t) && ':' !in t && ',' !in t && TargetEntries(t, start) == Some(Numbered(lo, hi, start))
  {
    var a, b := NatToString(lo), NatToString(hi);
    SpanText(a, b);
    ParseIntToString(lo);
    ParseIntToString(hi);
    assert ParseInt(a) == Some(lo) && ParseInt(b) == Some(hi);
  }

  /** The text of a start number: no whitespace, no `:` and no `,`, and it
      reads back as the number. */
  lemma DecimalText(n: int)
    ensures var s := IntToString(n);
            NoSpace(s) && ':' !in s && ',' !in s && ParseInt(s) == Some(n)
  {
    ParseIntToString(n);
    IntToStringText(n);
  }

  /** A token `target:s` whose parts carry no whitespace and no `:`, with an
      integer `s` and a well-formed `target`, writes the target's entries. */
  lemma OverrideTokenJoined(target: string, s: string, start: int, entries: map<int, int>)
    requires NoSpace(target) && NoSpace(s) && ':' !in target && ':' !in s
    requires ',' !in target && ',' !in s
    requires ParseInt(s) == Some(start) && TargetEntries(target, start) == Some(entries)
    ensures ',' !in target + ":" + s
    ensures OverrideToken(Strip(target + ":" + s)) == Success(Some(entries))
  {
    var t := target + [':'] + s;
    assert target + ":" + s == t;
    JoinedText(target, ':', s);
    NotInJoined(target, ':', s, ',');
    assert Strip(t) == t && ':' in t && Split(t, ':') == [target, s];
  }

  lemma OverridesFromStep(m: map<int, int>, parts: seq<string>, entries: map<int, int>)
    requires parts != [] && OverrideToken(Strip(parts[0])) == Success(Some(entries))
    ensures OverridesFrom(m, parts) == OverridesFrom(m + entries, parts[1..])
  {
  }

  lemma {:induction false} OverridesFromRules(m: map<int, int>, rules: seq<NumberingRule>, done: seq<NumberingRule>)
    requires m == RulesMap(done)
    ensures OverridesFrom(m, NumberingRuleTexts(rules)) == Success(RulesMap(done + rules))
    decreases |rules|
  {
    var ts := NumberingRuleTexts(rules);
    if rules == [] {
      assert done + rules == done;
    } else {
      NumberingRuleToken(rules[0]);
      OverridesFromStep(m, ts, RuleEntries(rules[0]));
      assert ts[1..] == NumberingRuleTexts(rules[1..]);
      var done' := done + [rules[0]];
      assert done'[..|done'| - 1] == done;
      assert RulesMap(done') == m + RuleEntries(rules[0]);
      OverridesFromRules(m + RuleEntries(rules[0]), rules[1..], done');
      ShiftHead(done, rules);
    }
  }

  /** Parsing written-out numbering rules gives the map the rules denote. */
  lemma {:induction false} OverridesRoundTrip(rules: seq<NumberingRule>)
    ensures Overrides(Join(NumberingRuleTexts(rules), ',')) == Success(RulesMap(rules))
  {
    var ts := NumberingRuleTexts(rules);
    if rules == [] {
      assert Join(ts, ',') == [];
    } else {
      forall i | 0 <= i < |ts| ensures ',' !in ts[i] {
        NumberingRuleToken(rules[i]);
      }
      SplitJoin(ts, ',');
      assert ts[0] == NumberingRuleText(rules[0]) && ts[0] != [];
      JoinNonEmpty(ts, ',');
      OverridesFromRules(map[], rules, []);
      assert [] + rules == rules;
    }
  }

  /** Whether a rule numbers position `k`. */
  predicate RuleCovers(rule: NumberingRule, k: int)
  {
    match rule
    case At(pos, _) => k == pos
    case Over(lo, hi, _) => lo <= k <= hi
  }

  /** The number a rule gives a position it covers. */
  function RuleValue(rule: NumberingRule, k: int): int
  {
    match rule
    case At(_, start) => start
    case Over(lo, _, start) => start + (k - lo)
  }

  lemma RuleEntriesAt(rule: NumberingRule, k: int)
    ensures k in RuleEntries(rule) ==> RuleCovers(rule, k)
    ensures RuleCovers(rule, k) ==> k in RuleEntries(rule) && RuleEntries(rule)[k] == RuleValue(rule, k)
  {
  }

  /** The positions the rules' map numbers are the positions some rule
      covers. */
  lemma {:induction false} RulesMapKeys(rules: seq<NumberingRule>, k: int)
    ensures k in RulesMap(rules) ==> exists i :: 0 <= i < |rules| && RuleCovers(rules[i], k)
    ensures (exists i :: 0 <= i < |rules| && RuleCovers(rules[i], k)) ==> k in RulesMap(rules)
    decreases |rules|
  {
    if rules != [] {
      var n := |rules| - 1;
      var init, last := rules[..n], rules[n];
      assert RulesMap(rules) == RulesMap(init) + RuleEntries(last);
      RulesMapKeys(init, k);
      RuleEntriesAt(last, k);
      if k in RulesMap(init) {
        var i :| 0 <= i < n && RuleCovers(init[i], k);
        assert init[i] == rules[i];
      }
      if exists i :: 0 <= i < |rules| && RuleCovers(rules[i], k) {
        var i :| 0 <= i < |rules| && RuleCovers(rules[i], k);
        if i < n {
          assert init[i] == rules[i];
        }
      }
    }
  }

  /** The last rule covering `k` decides its number: a range rule `lo-hi:s`
      gives its positions `s`, `s + 1`, ..., a rule `p:s` gives `p` the
      number `s`. */
  lemma {:induction false} RulesMapLastWins(rules: seq<NumberingRule>, i: nat, k: int)
    requires i < |rules| && RuleCovers(rules[i], k)
    requires forall j :: i < j < |rules| ==> !RuleCovers(rules[j], k)
    ensures k in RulesMap(rules) && RulesMap(rules)[k] == RuleValue(rules[i], k)
    decreases |rules|
  {
    var n := |rules| - 1;
    var init, last := rules[..n], rules[n];
    assert RulesMap(rules) == RulesMap(init) + RuleEntries(last);
    RuleEntriesAt(last, k);
    if i < n {
      assert init[i] == rules[i];
      forall j | i < j < n
        ensures !RuleCovers(init[j], k)
      {
        assert init[j] == rules[j];
      }
      RulesMapLastWins(init, i, k);
    }
  }

  /** A token without `:` or with a non-integer start number is dropped on
      its own: removing it changes nothing. */
  lemma {:induction false} DroppedTokenIsInert(m: map<int, int>, before: seq<string>, t: string, after: seq<string>)
    requires OverrideToken(Strip(t)) == Success(None)
    ensures OverridesFrom(m, before + [t] + after) == OverridesFrom(m, before + after)
    decreases |before|
  {
    var s, s' := before + [t] + after, before + after;
    if before == [] {
      assert s == [t] + after && s[1..] == after && s' == after;
      OverridesFromHead(m, s);
    } else {
      assert s[0] == before[0] && s'[0] == before[0];
      assert s[1..] == before[1..] + [t] + after;
      assert s'[1..] == before[1..] + after;
      OverridesFromHead(m, s);
      OverridesFromHead(m, s');
      match ApplyOverride(m, Strip(before[0]))
      case Failure(_) =>
      case Success(m') => DroppedTokenIsInert(m', before[1..], t, after);
    }
  }

  lemma OverridesFromHead(m: map<int, int>, parts: seq<string>)
    requires parts != []
    ensures OverridesFrom(m, parts) == match ApplyOverride(m, Strip(parts[0]))
                                       case Failure(e) => Failure(e)
                                       case Success(m') => OverridesFrom(m', parts[1..])
  {
  }

  // ================================================================ strip mapping

  /** One of the sidebar's strip groups: a question list and its ratio. */
  datatype StripGroup = StripGroup(qnos: string, ratio: Ratio)

  function Assign(qs: seq<int>, ratio: Ratio): map<int, Ratio>
  {
    map q | q in qs :: ratio
  }

  /** The mapping after one group: a blank list leaves it alone, a list
      that fails to parse raises, and otherwise every listed question is
      (re)assigned the group's ratio. */
  function ApplyGroup(m: map<int, Ratio>, group: StripGroup): Parsed<map<int, Ratio>>
  {
    if group.qnos == [] then Success(m)
    else match NumberList(group.qnos)
      case Failure(e) => Failure(e)
      case Success(qs) => Success(m + Assign(qs, group.ratio))
  }

  function StripMappingFrom(m: map<int, Ratio>, groups: seq<StripGroup>): Parsed<map<int, Ratio>>
    decreases |groups|
  {
    if groups == [] then Success(m)
    else match ApplyGroup(m, groups[0])
      case Failure(e) => Failure(e)
      case Success(m') => StripMappingFrom(m', groups[1..])
  }

  /** What `get_strip_mapping` returns or raises, for the groups in order. */
  function StripMapping(groups: seq<StripGroup>): Parsed<map<int, Ratio>>
  {
    StripMappingFrom(map[], groups)
  }

  method GetStripMapping(groups: seq<StripGroup>) returns (r: Parsed<map<int, Ratio>>)
    ensures r == StripMapping(groups)
  {
    var mapping: map<int, Ratio> := map[];
    for g := 0 to |groups|
      invariant StripMappingFrom(mapping, groups[g..]) == StripMapping(groups)
    {
      assert groups[g..][1..] == groups[g + 1..];
      var next := ParseGroup(mapping, groups[g]);
      if next.Failure? {
        return Failure(next.error);
      }
      mapping := next.value;
    }
    assert groups[|groups|..] == [];
    r := Success(mapping);
  }

  /** One `if strip_q: for q in parse_qnos(strip_q): mapping[q] = ratio`. */
  method ParseGroup(m0: map<int, Ratio>, group: StripGroup) returns (r: Parsed<map<int, Ratio>>)
    ensures r == ApplyGroup(m0, group)
  {
    if group.qnos == [] {
      return Success(m0);
    }
    var qs := ParseQnos(group.qnos);
    if qs.Failure? {
      return Failure(qs.error);
    }
    var m := AssignAll(m0, qs.value, group.ratio);
    r := Success(m);
  }

  method AssignAll(m0: map<int, Ratio>, qs: seq<int>, ratio: Ratio) returns (m: map<int, Ratio>)
    ensures m == m0 + Assign(qs, ratio)
  {
    m := m0;
    for j := 0 to |qs|
      invariant m == m0 + Assign(qs[..j], ratio)
    {
      assert qs[..j + 1] == qs[..j] + [qs[j]];
      m := m[qs[j] := ratio];
    }
    assert qs[..|qs|] == qs;
  }

  /** A group whose list parses to `qs` assigns its ratio to `qs`. */
  lemma GroupStep(m: map<int, Ratio>, group: StripGroup, qs: seq<int>)
    requires NumberList(group.qnos) == Success(qs)
    ensures ApplyGroup(m, group) == Success(m + Assign(qs, group.ratio))
  {
    if group.qnos == [] {
      assert m + Assign(qs, group.ratio) == m;
    }
  }

  /** The mapping `m` becomes when each group's ratio is assigned to its
      already parsed list `lists[g]`, group by group. */
  function AssignLists(m: map<int, Ratio>, groups: seq<StripGroup>, lists: seq<seq<int>>): map<int, Ratio>
    requires |lists| == |groups|
    decreases |groups|
  {
    if groups == [] then m else AssignLists(m + Assign(lists[0], groups[0].ratio), groups[1..], lists[1..])
  }

  /** When each group's list parses, the fold over the groups is the fold
      over their parsed lists. */
  lemma {:induction false} StripMappingFromParsed(m: map<int, Ratio>, groups: seq<StripGroup>, lists: seq<seq<int>>)
    requires |lists| == |groups|
    requires forall g :: 0 <= g < |groups| ==> NumberList(groups[g].qnos) == Success(lists[g])
    ensures StripMappingFrom(m, groups) == Success(AssignLists(m, groups, lists))
    decreases |groups|
  {
    if groups != [] {
      var m' := m + Assign(lists[0], groups[0].ratio);
      GroupStep(m, groups[0], lists[0]);
      StripMappingFromHead(m, groups);
      var gs, ls := groups[1..], lists[1..];
      forall g | 0 <= g < |gs|
        ensures NumberList(gs[g].qnos) == Success(ls[g])
      {
        assert gs[g] == groups[g + 1] && ls[g] == lists[g + 1];
      }
      StripMappingFromParsed(m', gs, ls);
    }
  }

  /** The keys of the fold are those of `m` and those of every list, a
      question gets the ratio of the last group listing it, and the entries
      of `m` for questions in no list survive. */
  lemma {:induction false} AssignListsEntries(m: map<int, Ratio>, groups: seq<StripGroup>, lists: seq<seq<int>>)
    requires |lists| == |groups|
    ensures forall q :: q in AssignLists(m, groups, lists) ==>
                        q in m || exists g :: 0 <= g < |groups| && q in lists[g]
    ensures forall q :: q in m ==> q in AssignLists(m, groups, lists)
    ensures forall q, g :: 0 <= g < |groups| && q in lists[g] ==> q in AssignLists(m, groups, lists)
    ensures forall q, g :: 0 <= g < |groups| && q in lists[g] && (forall h :: g < h < |groups| ==> q !in lists[h])
                           ==> AssignLists(m, groups, lists)[q] == groups[g].ratio
    ensures forall q :: q in m && (forall g :: 0 <= g < |groups| ==> q !in lists[g])
                        ==> AssignLists(m, groups, lists)[q] == m[q]
    decreases |groups|
  {
    if groups != [] {
      var m' := m + Assign(lists[0], groups[0].ratio);
      var gs, ls := groups[1..], lists[1..];
      AssignListsEntries(m', gs, ls);
      var r := AssignLists(m', gs, ls);
      assert r == AssignLists(m, groups, lists);
      forall q | q in r
        ensures q in m || exists g :: 0 <= g < |groups| && q in lists[g]
      {
        if q !in m' {
          var g :| 0 <= g < |gs| && q in ls[g];
          assert q in lists[g + 1];
        }
      }
      forall q, g | 0 <= g < |groups| && q in lists[g]
        ensures q in r
      {
        if g > 0 {
          assert q in ls[g - 1];
        }
      }
      forall q, g | 0 <= g < |groups| && q in lists[g] && (forall h :: g < h < |groups| ==> q !in lists[h])
        ensures r[q] == groups[g].ratio
      {
        if g > 0 {
          assert q in ls[g - 1];
          forall h | g - 1 < h < |gs| ensures q !in ls[h] {
            assert ls[h] == lists[h + 1];
          }
        } else {
          forall h | 0 <= h < |gs| ensures q !in ls[h] {
            assert ls[h] == lists[h + 1];
          }
        }
      }
      forall q | q in m && (forall g :: 0 <= g < |groups| ==> q !in lists[g])
        ensures r[q] == m[q]
      {
        forall h | 0 <= h < |gs| ensures q !in ls[h] {
          assert ls[h] == lists[h + 1];
        }
      }
    }
  }

  /** With every list parsing, the mapping has exactly the listed questions,
      each with the ratio of the last group listing it. */
  lemma StripMappingLastGroupWins(groups: seq<StripGroup>, lists: seq<seq<int>>)
    requires |lists| == |groups|
    requires forall g :: 0 <= g < |groups| ==> NumberList(groups[g].qnos) == Success(lists[g])
    ensures StripMapping(groups).Success?
    ensures forall q :: q in StripMapping(groups).value ==> exists g :: 0 <= g < |groups| && q in lists[g]
    ensures forall q, g :: 0 <= g < |groups| && q in lists[g] ==> q in StripMapping(groups).value
    ensures forall q, g :: 0 <= g < |groups| && q in lists[g] && (forall h :: g < h < |groups| ==> q !in lists[h])
                           ==> StripMapping(groups).value[q] == groups[g].ratio
  {
    StripMappingFromParsed(map[], groups, lists);
    AssignListsEntries(map[], groups, lists);
  }

  lemma StripMappingFromHead(m: map<int, Ratio>, groups: seq<StripGroup>)
    requires groups != []
    ensures StripMappingFrom(m, groups) == match ApplyGroup(m, groups[0])
                                           case Failure(e) => Failure(e)
                                           case Success(m') => StripMappingFrom(m', groups[1..])
  {
  }

  /** The mapping fails exactly when some non-blank group's list fails, and
      then with the error of the first such group. */
  lemma {:induction false} StripMappingFromFails(m: map<int, Ratio>, groups: seq<StripGroup>, g: nat)
    requires g < |groups| && NumberList(groups[g].qnos).Failure?
    requires forall h :: 0 <= h < g ==> NumberList(groups[h].qnos).Success?
    ensures StripMappingFrom(m, groups) == Failure(NumberList(groups[g].qnos).error)
    decreases g
  {
    StripMappingFromHead(m, groups);
    if g == 0 {
      GroupFails(m, groups[0]);
    } else {
      var qs := NumberList(groups[0].qnos).value;
      GroupStep(m, groups[0], qs);
      var gs := groups[1..];
      assert gs[g - 1] == groups[g];
      forall h | 0 <= h < g - 1
        ensures NumberList(gs[h].qnos).Success?
      {
        assert gs[h] == groups[h + 1];
      }
      StripMappingFromFails(m + Assign(qs, groups[0].ratio), gs, g - 1);
    }
  }

  lemma GroupFails(m: map<int, Ratio>, group: StripGroup)
    requires NumberList(group.qnos).Failure?
    ensures ApplyGroup(m, group) == Failure(NumberList(group.qnos).error)
  {
  }
}
