/**
 * Parsing the hotstring rule document (`parseAhk`): every line matching
 * `^::(.+?)::(.*)$` assigns its replacement to its trigger in a fresh
 * store; other lines are ignored.
 */
module HotstringParser {
  import opened Wrappers
  import opened JsString
  import opened RuleStore

  /** The characters a regular-expression `.` does not match. */
  predicate IsLineTerminator(c: char) {
    c == '\n' || c == '\r' || c == '\U{2028}' || c == '\U{2029}'
  }

  predicate NoLineTerminator(s: string) {
    forall i :: 0 <= i < |s| ==> !IsLineTerminator(s[i])
  }

  /** `s[k..k+2] == "::"` */
  predicate ColonsAt(s: string, k: int) {
    0 <= k && k + 2 <= |s| && s[k] == ':' && s[k + 1] == ':'
  }

  /**
   * What a match of `^::(.+?)::(.*)$` against `line` with groups `t` and
   * `r` means: the line is `::t::r`, the trigger is not empty, no
   * character is a line terminator, and no shorter non-empty trigger is
   * followed by `::` (the lazy `+?` stops at the first chance).
   */
  ghost predicate RuleLine(line: string, t: string, r: string) {
    && |t| >= 1
    && line == "::" + t + "::" + r
    && NoLineTerminator(line)
    && forall j :: 3 <= j < 2 + |t| ==> !ColonsAt(line, j)
  }

  /** The first position at or after `k` holding `::`. */
  function ColonsFrom(line: string, k: nat): (r: Option<nat>)
    ensures r.Some? ==> k <= r.value && ColonsAt(line, r.value)
    ensures forall j :: k <= j && (r.None? || j < r.value) ==> !ColonsAt(line, j)
    decreases |line| - k
  {
    if k + 2 > |line| then None
    else if ColonsAt(line, k) then Some(k)
    else ColonsFrom(line, k + 1)
  }

  /** One line of the rule document: the rule it defines, if any. */
  function ParseLine(line: string): (r: Option<Rule>)
    ensures !StartsWith(line, "::") || EndsInCarriageReturn(line) ==> r.None?
    ensures r.Some? ==> |r.value.trigger| >= 1
  {
    if !StartsWith(line, "::") || !NoLineTerminator(line) then None
    else match ColonsFrom(line, 3)
      case None => None
      case Some(k) => Some(Rule(line[2..k], line[k + 2..]))
  }

  /** Every rule found is a match of the pattern, with its groups. */
  lemma ParseLineSound(line: string)
    ensures ParseLine(line).Some? ==>
              RuleLine(line, ParseLine(line).value.trigger, ParseLine(line).value.replacement)
  {
    if ParseLine(line).Some? {
      var k := ColonsFrom(line, 3).value;
      assert line == "::" + line[2..k] + "::" + line[k + 2..];
    }
  }

  /** Every match of the pattern is found, with the same groups. */
  lemma ParseLineComplete(line: string, t: string, r: string)
    requires RuleLine(line, t, r)
    ensures ParseLine(line) == Some(Rule(t, r))
  {
    assert ColonsAt(line, 2 + |t|);
    assert line[..2] == "::";
    assert line[2..2 + |t|] == t;
    assert line[2 + |t| + 2..] == r;
  }

  /** A line that is not parsed matches the pattern in no way at all. */
  lemma ParseLineNone(line: string)
    requires ParseLine(line).None?
    ensures forall t, r :: !RuleLine(line, t, r)
  {
    forall t, r | RuleLine(line, t, r)
      ensures false
    {
      ParseLineComplete(line, t, r);
    }
  }

  /**
   * A line that still ends in a carriage return (a document saved with
   * CRLF line ends, split at LF only) defines no rule.
   */
  lemma CarriageReturnLine(line: string)
    requires EndsInCarriageReturn(line)
    ensures ParseLine(line).None?
  {
  }

  /** `line.endsWith('\r')` */
  predicate EndsInCarriageReturn(line: string) {
    |line| >= 1 && line[|line| - 1] == '\r'
  }

  /** `line` defines a rule for trigger `t`. */
  predicate DefinesTrigger(line: string, t: string) {
    ParseLine(line).Some? && ParseLine(line).value.trigger == t
  }

  /** The rule store a store-building object holds after `lines` were parsed, in order. */
  function ParseLines(lines: seq<string>): (s: Store)
    ensures |s| <= |lines|
  {
    if |lines| == 0 then []
    else
      var s := ParseLines(lines[..|lines| - 1]);
      match ParseLine(lines[|lines| - 1])
      case None => s
      case Some(rule) => Put(s, rule.trigger, rule.replacement)
  }

  /** `parseAhk(content)`: a store built from scratch, one line at a time. */
  function Parse(content: string): (s: Store)
    ensures |s| <= |Split(content, '\n')|
    ensures content == "" ==> s == []
  {
    ParseLines(Split(content, '\n'))
  }

  /** A store `Parse` can produce: unique, non-empty keys, none of them `__proto__`. */
  ghost predicate WellFormed(s: Store) {
    && UniqueTriggers(s)
    && forall i :: 0 <= i < |s| ==> |s[i].trigger| >= 1 && s[i].trigger != ProtoKey
  }

  /** Every parsed store is well formed. */
  lemma {:induction false} ParseLinesWellFormed(lines: seq<string>)
    ensures WellFormed(ParseLines(lines))
  {
    if |lines| > 0 {
      var prev := lines[..|lines| - 1];
      var s := ParseLines(prev);
      ParseLinesWellFormed(prev);
      var parsed := ParseLine(lines[|lines| - 1]);
      if parsed.Some? && parsed.value.trigger != ProtoKey {
        assert ParseLines(lines) == Assign(s, parsed.value.trigger, parsed.value.replacement);
        AssignWellFormed(s, parsed.value.trigger, parsed.value.replacement);
      }
    }
  }

  /** Assigning a non-empty key other than `__proto__` keeps a store well formed. */
  lemma AssignWellFormed(s: Store, t: string, v: string)
    requires WellFormed(s) && |t| >= 1 && t != ProtoKey
    ensures WellFormed(Assign(s, t, v))
  {
    var s' := Assign(s, t, v);
    AssignKeepsUnique(s, t, v);
    AssignRules(s, t, v);
    forall i | 0 <= i < |s'|
      ensures |s'[i].trigger| >= 1 && s'[i].trigger != ProtoKey
    {
      assert s'[i] in s';
    }
  }

  /**
   * `t` is defined with replacement `r` on line `i`, and no later line
   * defines `t` again.
   */
  ghost predicate LastDefinition(lines: seq<string>, i: int, t: string, r: string) {
    && 0 <= i < |lines|
    && ParseLine(lines[i]) == Some(Rule(t, r))
    && forall j :: i < j < |lines| ==> !DefinesTrigger(lines[j], t)
  }

  /**
   * The replacement on the last line defining `t`, read backwards from the
   * end of the document; `None` for `__proto__` or when no line defines `t`.
   */
  function EntryOf(lines: seq<string>, t: string): Option<string>
  {
    if |lines| == 0 then None
    else if t != ProtoKey && DefinesTrigger(lines[|lines| - 1], t) then
      Some(ParseLine(lines[|lines| - 1]).value.replacement)
    else EntryOf(lines[..|lines| - 1], t)
  }

  /** A last line defining `t` gives `t` its replacement. */
  lemma ParseLinesRedefines(lines: seq<string>, t: string)
    requires |lines| > 0 && t != ProtoKey && DefinesTrigger(lines[|lines| - 1], t)
    ensures Lookup(ParseLines(lines), t) == Some(ParseLine(lines[|lines| - 1]).value.replacement)
  {
  }

  /** A line that does not define `t` leaves its entry as it was. */
  lemma ParseLinesKeeps(lines: seq<string>, t: string)
    requires |lines| > 0 && !(t != ProtoKey && DefinesTrigger(lines[|lines| - 1], t))
    ensures Lookup(ParseLines(lines), t) == Lookup(ParseLines(lines[..|lines| - 1]), t)
  {
  }

  /** The parsed store's entry for `t` is the one the last defining line gives. */
  lemma {:induction false} LookupIsEntryOf(lines: seq<string>, t: string)
    ensures Lookup(ParseLines(lines), t) == EntryOf(lines, t)
  {
    if |lines| > 0 {
      LookupIsEntryOf(lines[..|lines| - 1], t);
      if t != ProtoKey && DefinesTrigger(lines[|lines| - 1], t) {
        ParseLinesRedefines(lines, t);
      } else {
        ParseLinesKeeps(lines, t);
      }
    }
  }

  /**
   * After parsing, a trigger has no entry exactly when no line defines it
   * (or when it is `__proto__`). Nothing from any earlier store survives.
   */
  lemma ParseLinesMissing(lines: seq<string>, t: string)
    ensures Lookup(ParseLines(lines), t).None?
            <==> t == ProtoKey || forall i :: 0 <= i < |lines| ==> !DefinesTrigger(lines[i], t)
  {
    LookupIsEntryOf(lines, t);
    EntryOfMissing(lines, t);
  }

  lemma {:induction false} EntryOfMissing(lines: seq<string>, t: string)
    ensures EntryOf(lines, t).None?
            <==> t == ProtoKey || forall i :: 0 <= i < |lines| ==> !DefinesTrigger(lines[i], t)
  {
    if |lines| > 0 {
      var n := |lines| - 1;
      var prev := lines[..n];
      EntryOfMissing(prev, t);
      assert forall i :: 0 <= i < n ==> prev[i] == lines[i];
    }
  }

  /** The entry for a trigger comes from the last line defining it. */
  lemma {:induction false} EntryFromLastDefinition(lines: seq<string>, t: string, r: string) returns (i: int)
    requires EntryOf(lines, t) == Some(r)
    ensures t != ProtoKey && LastDefinition(lines, i, t, r)
  {
    var n := |lines| - 1;
    if t != ProtoKey && DefinesTrigger(lines[n], t) {
      i := n;
    } else {
      i := EntryFromLastDefinition(lines[..n], t, r);
      LastDefinitionExtends(lines, i, t, r);
    }
  }

  /** A last definition stays last when the next line does not define `t`. */
  lemma LastDefinitionExtends(lines: seq<string>, i: int, t: string, r: string)
    requires |lines| > 0 && LastDefinition(lines[..|lines| - 1], i, t, r)
    requires !DefinesTrigger(lines[|lines| - 1], t)
    ensures LastDefinition(lines, i, t, r)
  {
    var prev := lines[..|lines| - 1];
    assert prev[i] == lines[i];
    forall j | i < j < |lines| ensures !DefinesTrigger(lines[j], t) {
      if j < |prev| {
        assert prev[j] == lines[j];
      }
    }
  }

  /** The last line defining a trigger gives its entry. */
  lemma {:induction false} LastDefinitionGivesEntry(lines: seq<string>, i: int, t: string, r: string)
    requires t != ProtoKey && LastDefinition(lines, i, t, r)
    ensures EntryOf(lines, t) == Some(r)
  {
    var n := |lines| - 1;
    var prev := lines[..n];
    if i < n {
      assert !DefinesTrigger(lines[n], t);
      assert forall j :: 0 <= j < n ==> prev[j] == lines[j];
      assert LastDefinition(prev, i, t, r);
      LastDefinitionGivesEntry(prev, i, t, r);
    }
  }

  /**
   * After parsing, a trigger maps to the replacement on the LAST line that
   * defines it.
   */
  lemma ParseLinesLastWins(lines: seq<string>, t: string, r: string)
    ensures Lookup(ParseLines(lines), t) == Some(r)
            <==> t != ProtoKey && exists i :: LastDefinition(lines, i, t, r)
  {
    LookupIsEntryOf(lines, t);
    if EntryOf(lines, t) == Some(r) {
      var i := EntryFromLastDefinition(lines, t, r);
    }
    if t != ProtoKey && exists i :: LastDefinition(lines, i, t, r) {
      var i :| LastDefinition(lines, i, t, r);
      LastDefinitionGivesEntry(lines, i, t, r);
    }
  }

  /** The triggers the lines define, in line order, leaving out `__proto__`. */
  function DefinedTriggers(lines: seq<string>): seq<string>
  {
    if |lines| == 0 then []
    else
      var prev := DefinedTriggers(lines[..|lines| - 1]);
      var last := ParseLine(lines[|lines| - 1]);
      if last.Some? && last.value.trigger != ProtoKey then prev + [last.value.trigger] else prev
  }

  /** `ts` without repeats, each kept where it first occurs. */
  function FirstOccurrences(ts: seq<string>): seq<string>
  {
    if |ts| == 0 then []
    else
      var prev := FirstOccurrences(ts[..|ts| - 1]);
      if ts[|ts| - 1] in prev then prev else prev + [ts[|ts| - 1]]
  }

  /**
   * The keys of a parsed store are the defined triggers in the order of
   * their FIRST definition: a later line redefining a trigger changes its
   * replacement, not its place in the enumeration.
   */
  lemma {:induction false} ParseLinesKeyOrder(lines: seq<string>)
    ensures Triggers(ParseLines(lines)) == FirstOccurrences(DefinedTriggers(lines))
  {
    if |lines| > 0 {
      var prev := lines[..|lines| - 1];
      ParseLinesKeyOrder(prev);
      var last := ParseLine(lines[|lines| - 1]);
      if last.Some? && last.value.trigger != ProtoKey {
        var ts := DefinedTriggers(lines);
        assert ts[..|ts| - 1] == DefinedTriggers(prev);
        AssignTriggers(ParseLines(prev), last.value.trigger, last.value.replacement);
      }
    }
  }

  /**
   * A document with CRLF line ends: every line but the last keeps its
   * carriage return after the split at LF, so only the last line can
   * define a rule.
   */
  lemma CrlfDocument(lines: seq<string>)
    requires |lines| >= 1
    requires forall i :: 0 <= i < |lines| ==> '\n' !in lines[i]
    requires forall i :: 0 <= i < |lines| - 1 ==> EndsInCarriageReturn(lines[i])
    ensures Parse(Join(lines, '\n')) == ParseLines([lines[|lines| - 1]])
  {
    ParseJoinedLines(lines);
    CrlfLines(lines);
  }

  /** Only the last of a run of carriage-return-terminated lines can define a rule. */
  lemma CrlfLines(lines: seq<string>)
    requires |lines| >= 1
    requires forall i :: 0 <= i < |lines| - 1 ==> EndsInCarriageReturn(lines[i])
    ensures ParseLines(lines) == ParseLines([lines[|lines| - 1]])
  {
    CarriageReturnLines(lines[..|lines| - 1]);
    LastLineOnly(lines);
  }

  /** Lines that all end in a carriage return leave the store empty. */
  lemma {:induction false} CarriageReturnLines(lines: seq<string>)
    requires forall i :: 0 <= i < |lines| ==> EndsInCarriageReturn(lines[i])
    ensures ParseLines(lines) == []
  {
    if |lines| > 0 {
      CarriageReturnLines(lines[..|lines| - 1]);
      CarriageReturnLine(lines[|lines| - 1]);
    }
  }

  /** Parsing a document is parsing its lines one after another. */
  lemma ParseJoinedLines(lines: seq<string>)
    requires |lines| >= 1
    requires forall i :: 0 <= i < |lines| ==> '\n' !in lines[i]
    ensures Parse(Join(lines, '\n')) == ParseLines(lines)
  {
    SplitJoin(lines, '\n');
  }

  /** When the lines before the last build an empty store, only the last line counts. */
  lemma LastLineOnly(lines: seq<string>)
    requires |lines| >= 1
    requires ParseLines(lines[..|lines| - 1]) == []
    ensures ParseLines(lines) == ParseLines([lines[|lines| - 1]])
  {
    assert [lines[|lines| - 1]][..0] == [];
  }

  /** An empty document gives an empty store. */
  lemma EmptyDocument()
    ensures Parse("") == []
  {
    assert Split("", '\n') == [""];
    assert ParseLine("").None?;
  }

  /**
   * A document of rule lines with distinct triggers (none of them
   * `__proto__`) gives exactly its rules, one entry per line, in line
   * order, each replacement verbatim.
   */
  lemma {:induction false} DistinctRuleLines(lines: seq<string>, rules: seq<Rule>)
    requires |rules| == |lines|
    requires forall i :: 0 <= i < |lines| ==> RuleLine(lines[i], rules[i].trigger, rules[i].replacement)
    requires forall i :: 0 <= i < |rules| ==> rules[i].trigger != ProtoKey
    requires UniqueTriggers(rules)
    ensures ParseLines(lines) == rules
  {
    forall i | 0 <= i < |lines| ensures ParseLine(lines[i]) == Some(rules[i]) {
      ParseLineComplete(lines[i], rules[i].trigger, rules[i].replacement);
    }
    DistinctParsedLines(lines, rules);
  }

  /** Lines that parse to rules with distinct triggers give those rules, in order. */
  lemma {:induction false} DistinctParsedLines(lines: seq<string>, rules: seq<Rule>)
    requires |rules| == |lines|
    requires forall i :: 0 <= i < |lines| ==> ParseLine(lines[i]) == Some(rules[i])
    requires forall i :: 0 <= i < |rules| ==> rules[i].trigger != ProtoKey
    requires UniqueTriggers(rules)
    ensures ParseLines(lines) == rules
  {
    DistinctParsedPrefix(lines, rules, |lines|);
    assert lines[..|lines|] == lines && rules[..|rules|] == rules;
  }

  /** The first `n` such lines give the first `n` rules. */
  lemma {:induction false} DistinctParsedPrefix(lines: seq<string>, rules: seq<Rule>, n: nat)
    requires n <= |rules| == |lines|
    requires forall i {:trigger ParseLine(lines[i])} :: 0 <= i < |lines| ==> ParseLine(lines[i]) == Some(rules[i])
    requires forall i :: 0 <= i < |rules| ==> rules[i].trigger != ProtoKey
    requires UniqueTriggers(rules)
    ensures ParseLines(lines[..n]) == rules[..n]
  {
    if n > 0 {
      var m := n - 1;
      DistinctParsedPrefix(lines, rules, m);
      assert ParseLine(lines[m]) == Some(rules[m]);
      NewTrigger(rules, m);
      PrefixStep(lines, rules, m);
    }
  }

  /** One more line defining a new trigger appends its rule. */
  lemma PrefixStep(lines: seq<string>, rules: seq<Rule>, m: nat)
    requires m < |rules| == |lines|
    requires ParseLine(lines[m]) == Some(rules[m]) && rules[m].trigger != ProtoKey
    requires rules[m].trigger !in Triggers(rules[..m])
    requires ParseLines(lines[..m]) == rules[..m]
    ensures ParseLines(lines[..m + 1]) == rules[..m + 1]
  {
    var x := rules[m];
    ParseLinesAt(lines, m, x);
    AssignNew(rules[..m], x.trigger, x.replacement);
    PrefixSnoc(rules, m);
  }

  /** Line `m`, when it parses to a rule, assigns that rule to what the lines before it built. */
  lemma ParseLinesAt(lines: seq<string>, m: nat, x: Rule)
    requires m < |lines| && ParseLine(lines[m]) == Some(x) && x.trigger != ProtoKey
    ensures ParseLines(lines[..m + 1]) == Assign(ParseLines(lines[..m]), x.trigger, x.replacement)
  {
    var head := lines[..m + 1];
    assert head[..m] == lines[..m];
    assert head[m] == lines[m];
  }

  /** With unique keys, no key occurs before its own position. */
  lemma NewTrigger(rules: seq<Rule>, m: nat)
    requires m < |rules| && UniqueTriggers(rules)
    ensures rules[m].trigger !in Triggers(rules[..m])
  {
    forall k | 0 <= k < m ensures Triggers(rules[..m])[k] != rules[m].trigger {
      TriggerAt(rules[..m], k);
    }
  }
}
