/**
 * The live expansion step (`handleAhkExpansion`): on a space or newline
 * typed into a Markdown note, the first trigger, in `Object.entries`
 * order, that ends the text before the typed character is replaced by
 * its replacement, and the cursor is put after the replacement and the
 * typed character.
 */
module Expansion {
  import opened Wrappers
  import opened JsString
  import opened RuleStore
  import HotstringParser

  /** The fields of an `input` event the handler reads. */
  datatype InputEvent = InputEvent(inputType: string, data: Option<string>)

  /** What the handler does to the editor: nothing, or new content with a collapsed cursor. */
  datatype Edit = Unchanged | Rewrite(content: string, cursor: int)

  /** The only inserted texts that can end a trigger: one space or one newline. */
  predicate IsBoundary(data: Option<string>) {
    data == Some(" ") || data == Some("\n")
  }

  /**
   * The guard of the handler: a current file whose path ends in `.md`,
   * an `insertText` event, and a boundary character as its data.
   */
  predicate Fires(path: Option<string>, ev: InputEvent) {
    && path.Some? && EndsWith(path.value, ".md")
    && ev.inputType == "insertText"
    && IsBoundary(ev.data)
  }

  /**
   * `value.substring(0, cursor - 1)`: the text before the character just
   * typed. `substring` clamps the -1 at cursor 0 to 0.
   */
  function TextBeforeBoundary(value: string, cursor: nat): string
    requires cursor <= |value|
  {
    if cursor == 0 then "" else value[..cursor - 1]
  }

  /** `rules[i]` is the first rule whose trigger ends `text`. */
  ghost predicate FirstMatch(rules: seq<Rule>, text: string, i: int) {
    && 0 <= i < |rules|
    && EndsWith(text, rules[i].trigger)
    && forall j :: 0 <= j < i ==> !EndsWith(text, rules[j].trigger)
  }

  /** The loop over the entries: the first rule from `from` on whose trigger ends `text`. */
  function FindFirst(rules: seq<Rule>, text: string, from: nat): (r: Option<nat>)
    requires from <= |rules|
    requires forall j :: 0 <= j < from ==> !EndsWith(text, rules[j].trigger)
    ensures r.Some? ==> FirstMatch(rules, text, r.value)
    ensures r.None? ==> forall j :: 0 <= j < |rules| ==> !EndsWith(text, rules[j].trigger)
    decreases |rules| - from
  {
    if from == |rules| then None
    else if EndsWith(text, rules[from].trigger) then Some(from)
    else FindFirst(rules, text, from + 1)
  }

  /**
   * Committing `rule`: `before + replacement + data + after`, where
   * `before` is the text up to `start = cursor - 1 - |trigger|` (empty when
   * `start` is negative, as `substring` clamps it) and `after` the text
   * from the cursor on; the cursor goes to `start + |replacement| + 1`.
   */
  function Substitute(value: string, cursor: nat, rule: Rule, data: string): (e: Edit)
    requires cursor <= |value|
    ensures e.Rewrite?
    ensures e.cursor == cursor - |rule.trigger| + |rule.replacement|
    ensures cursor - 1 - |rule.trigger| >= 0 ==>
              e.content == value[..cursor - 1 - |rule.trigger|] + rule.replacement + data + value[cursor..]
    ensures cursor - 1 - |rule.trigger| < 0 ==> e.content == rule.replacement + data + value[cursor..]
  {
    var start := cursor - 1 - |rule.trigger|;
    var before := if start <= 0 then "" else value[..start];
    Rewrite(before + rule.replacement + data + value[cursor..], start + |rule.replacement| + 1)
  }

  /** The expansion over a given enumeration of rules. */
  function ExpandWith(rules: seq<Rule>, value: string, cursor: nat, data: string): (e: Edit)
    requires cursor <= |value|
    ensures e.Unchanged?
            <==> forall i :: 0 <= i < |rules| ==> !EndsWith(TextBeforeBoundary(value, cursor), rules[i].trigger)
    ensures e.Rewrite? ==> exists i :: FirstMatch(rules, TextBeforeBoundary(value, cursor), i)
                                       && e == Substitute(value, cursor, rules[i], data)
  {
    match FindFirst(rules, TextBeforeBoundary(value, cursor), 0)
    case None => Unchanged
    case Some(i) => Substitute(value, cursor, rules[i], data)
  }

  /**
   * `handleAhkExpansion(e)` against the editor's `value` and
   * `selectionStart`, with the store enumerated by `Object.entries`.
   */
  function Expand(store: Store, path: Option<string>, ev: InputEvent, value: string, cursor: nat): (e: Edit)
    requires cursor <= |value|
    ensures !Fires(path, ev) ==> e == Unchanged
    ensures Fires(path, ev) ==>
              (e.Unchanged? <==> forall i :: 0 <= i < |Entries(store)| ==>
                                   !EndsWith(TextBeforeBoundary(value, cursor), Entries(store)[i].trigger))
    ensures e.Rewrite? ==> exists i :: FirstMatch(Entries(store), TextBeforeBoundary(value, cursor), i)
                                       && e == Substitute(value, cursor, Entries(store)[i], ev.data.value)
  {
    if !Fires(path, ev) then Unchanged
    else ExpandWith(Entries(store), value, cursor, ev.data.value)
  }

  /**
   * `e` replaces the trigger `t`, which sits right before the typed
   * character, by `r`: the text before the trigger and from the cursor on
   * are kept, and the new cursor sits just after `r` and `data`.
   */
  ghost predicate ReplacesTrigger(value: string, cursor: int, t: string, r: string, data: string, e: Edit) {
    var start := cursor - 1 - |t|;
    && 0 <= start && cursor <= |value|
    && value[start..cursor - 1] == t
    && e.Rewrite?
    && e.content == value[..start] + r + data + value[cursor..]
    && e.cursor == |value[..start] + r + data|
    && e.content[..start] == value[..start]
    && e.content[e.cursor..] == value[cursor..]
  }

  /** Committing a non-empty trigger that ends the text replaces it in place. */
  lemma SubstituteReplaces(value: string, cursor: nat, rule: Rule, data: string)
    requires cursor <= |value|
    requires |rule.trigger| >= 1 && |data| == 1
    requires EndsWith(TextBeforeBoundary(value, cursor), rule.trigger)
    ensures ReplacesTrigger(value, cursor, rule.trigger, rule.replacement, data, Substitute(value, cursor, rule, data))
  {
    var t := rule.trigger;
    var text := TextBeforeBoundary(value, cursor);
    var start := cursor - 1 - |t|;
    assert text == value[..cursor - 1];
    assert value[start..cursor - 1] == text[|text| - |t|..];
    var e := Substitute(value, cursor, rule, data);
    assert e.content == value[..start] + rule.replacement + data + value[cursor..];
  }

  /** Every entry of a parsed store is one of its rules, with a non-empty trigger. */
  lemma EntryOfStore(store: Store, i: int)
    requires HotstringParser.WellFormed(store)
    requires 0 <= i < |Entries(store)|
    ensures |Entries(store)[i].trigger| >= 1
    ensures Lookup(store, Entries(store)[i].trigger) == Some(Entries(store)[i].replacement)
  {
    var es := Entries(store);
    EntriesOrder(store);
    assert es[i] in multiset(store);
    LookupMember(store, es[i]);
  }

  /**
   * Every rewrite of a parsed store replaces a trigger of the store, just
   * before the typed character, by that trigger's replacement.
   */
  lemma ExpansionReplacesTrigger(store: Store, path: Option<string>, ev: InputEvent, value: string, cursor: nat)
    returns (t: string, r: string)
    requires cursor <= |value|
    requires HotstringParser.WellFormed(store)
    requires Expand(store, path, ev, value, cursor).Rewrite?
    ensures Lookup(store, t) == Some(r)
    ensures ReplacesTrigger(value, cursor, t, r, ev.data.value, Expand(store, path, ev, value, cursor))
  {
    var es := Entries(store);
    var text := TextBeforeBoundary(value, cursor);
    var i :| FirstMatch(es, text, i) && Expand(store, path, ev, value, cursor) == Substitute(value, cursor, es[i], ev.data.value);
    EntryOfStore(store, i);
    SubstituteReplaces(value, cursor, es[i], ev.data.value);
    t, r := es[i].trigger, es[i].replacement;
  }

  /**
   * Typing a boundary character right after a trigger of the store, in a
   * Markdown note, replaces the trigger by its replacement when no other
   * trigger of the store ends the same text.
   */
  lemma TypedTriggerExpands(store: Store, path: Option<string>, data: string,
                            before: string, t: string, r: string, after: string)
    requires HotstringParser.WellFormed(store)
    requires Lookup(store, t) == Some(r)
    requires Fires(path, InputEvent("insertText", Some(data)))
    requires forall x :: x in store && x.trigger != t ==> !EndsWith(before + t, x.trigger)
    ensures Expand(store, path, InputEvent("insertText", Some(data)), before + t + data + after, |before + t + data|)
            == Rewrite(before + r + data + after, |before + r + data|)
  {
    var value := before + t + data + after;
    var cursor := |before + t + data|;
    var text := TextBeforeBoundary(value, cursor);
    assert |data| == 1;
    assert text == before + t by {
      assert value[..cursor - 1] == before + t;
    }
    var i := OnlyTriggerMatches(store, text, t, r);
    ExpandPicksFirst(Entries(store), value, cursor, data, i);
    SubstituteInPlace(before, t, r, data, after);
  }

  /** At most one index is the first match. */
  lemma FirstMatchUnique(rules: seq<Rule>, text: string, i: int, j: int)
    requires FirstMatch(rules, text, i) && FirstMatch(rules, text, j)
    ensures i == j
  {
  }

  /** The expansion commits the first matching rule. */
  lemma ExpandPicksFirst(rules: seq<Rule>, value: string, cursor: nat, data: string, i: int)
    requires cursor <= |value|
    requires FirstMatch(rules, TextBeforeBoundary(value, cursor), i)
    ensures ExpandWith(rules, value, cursor, data) == Substitute(value, cursor, rules[i], data)
  {
    var text := TextBeforeBoundary(value, cursor);
    var found := FindFirst(rules, text, 0);
    assert found.Some?;
    FirstMatchUnique(rules, text, i, found.value);
  }

  /** Committing `t` typed just before the boundary of `before + t + data + after`. */
  lemma SubstituteInPlace(before: string, t: string, r: string, data: string, after: string)
    requires |data| == 1
    ensures Substitute(before + t + data + after, |before + t + data|, Rule(t, r), data)
            == Rewrite(before + r + data + after, |before + r + data|)
  {
    var value := before + t + data + after;
    assert value[..|before|] == before;
    assert value[|before + t + data|..] == after;
  }

  /** When only `t` ends the text, the first matching entry is `t`'s rule. */
  lemma OnlyTriggerMatches(store: Store, text: string, t: string, r: string) returns (i: int)
    requires HotstringParser.WellFormed(store)
    requires Lookup(store, t) == Some(r)
    requires EndsWith(text, t)
    requires forall x :: x in store && x.trigger != t ==> !EndsWith(text, x.trigger)
    ensures FirstMatch(Entries(store), text, i) && Entries(store)[i] == Rule(t, r)
  {
    var es := Entries(store);
    EntriesPermutes(store);
    assert Rule(t, r) in multiset(es);
    var k :| 0 <= k < |es| && es[k] == Rule(t, r);
    var found := FindFirst(es, text, 0);
    i := found.value;
    assert es[i] in multiset(store);
    EntryOfStore(store, i);
  }

  /** A suffix of a text ending with a shorter suffix ends with it too. */
  lemma SuffixOfSuffix(text: string, a: string, b: string)
    requires EndsWith(text, a) && EndsWith(text, b) && |a| <= |b|
    ensures EndsWith(b, a)
  {
    assert b[|b| - |a|..] == text[|text| - |a|..];
  }

  /** No trigger ends another one. */
  ghost predicate SuffixFree(rules: seq<Rule>) {
    forall i, j :: 0 <= i < |rules| && 0 <= j < |rules| && i != j ==> !EndsWith(rules[i].trigger, rules[j].trigger)
  }

  /** Among suffix-free triggers, two that end the same text are one and the same. */
  lemma SuffixFreeMatch(a: seq<Rule>, text: string, i: int, k: int)
    requires 0 <= i < |a| && 0 <= k < |a| && SuffixFree(a)
    requires EndsWith(text, a[i].trigger) && EndsWith(text, a[k].trigger)
    ensures i == k
  {
    var ti := a[i].trigger;
    var tk := a[k].trigger;
    if |tk| <= |ti| {
      SuffixOfSuffix(text, tk, ti);
    } else {
      SuffixOfSuffix(text, ti, tk);
    }
  }

  /**
   * With suffix-free triggers at most one trigger can match, so the
   * enumeration order of the store does not matter: any rearrangement of
   * the rules expands alike.
   */
  lemma ExpandOrderIndependent(a: seq<Rule>, b: seq<Rule>, value: string, cursor: nat, data: string)
    requires cursor <= |value|
    requires multiset(a) == multiset(b)
    requires UniqueTriggers(a)
    requires SuffixFree(a)
    ensures ExpandWith(a, value, cursor, data) == ExpandWith(b, value, cursor, data)
  {
    var text := TextBeforeBoundary(value, cursor);
    var ea := ExpandWith(a, value, cursor, data);
    var eb := ExpandWith(b, value, cursor, data);
    if ea.Rewrite? {
      var i :| FirstMatch(a, text, i) && ea == Substitute(value, cursor, a[i], data);
      assert a[i] in multiset(b);
      assert eb.Rewrite?;
      var j :| FirstMatch(b, text, j) && eb == Substitute(value, cursor, b[j], data);
      assert b[j] in multiset(a);
      var k :| 0 <= k < |a| && a[k] == b[j];
      SuffixFreeMatch(a, text, i, k);
    } else {
      forall j | 0 <= j < |b|
        ensures !EndsWith(text, b[j].trigger)
      {
        assert b[j] in multiset(a);
      }
    }
  }

  /** The rule document itself (`MyHotkeys.ahk`) is never expanded into. */
  lemma RuleDocumentNeverExpands(store: Store, path: string, ev: InputEvent, value: string, cursor: nat)
    requires cursor <= |value|
    requires EndsWith(path, ".ahk")
    ensures Expand(store, Some(path), ev, value, cursor) == Unchanged
  {
    assert path[|path| - 1] == 'k';
  }

  /** A character other than space or newline never rewrites the buffer, even after a trigger. */
  lemma NonBoundaryNeverExpands(store: Store, path: Option<string>, data: string, value: string, cursor: nat)
    requires cursor <= |value|
    requires data != " " && data != "\n"
    ensures Expand(store, path, InputEvent("insertText", Some(data)), value, cursor) == Unchanged
  {
  }

  /** Typing a space after `btw` with the rule `btw` -> `by the way`. */
  lemma ExpandExample()
    ensures Expand([Rule("btw", "by the way")], Some("notes/a.md"), InputEvent("insertText", Some(" ")),
                   "I think btw ", 12)
            == Rewrite("I think by the way ", 19)
  {
    var store := [Rule("btw", "by the way")];
    ExampleStore();
    ExampleFires();
    ExampleText();
    ExpandPicksFirst(store, "I think btw ", 12, " ", 0);
    ExampleSubstitute();
  }

  lemma ExampleStore()
    ensures Entries([Rule("btw", "by the way")]) == [Rule("btw", "by the way")]
  {
    assert !IsDigit("btw"[2]);
    EntriesInCreationOrder([Rule("btw", "by the way")]);
  }

  lemma ExampleFires()
    ensures Fires(Some("notes/a.md"), InputEvent("insertText", Some(" ")))
  {
    assert "notes/a.md"[7..] == ".md";
  }

  lemma ExampleText()
    ensures FirstMatch([Rule("btw", "by the way")], TextBeforeBoundary("I think btw ", 12), 0)
  {
    assert TextBeforeBoundary("I think btw ", 12) == "I think btw";
    assert "I think btw"[8..] == "btw";
  }

  lemma ExampleSubstitute()
    ensures Substitute("I think btw ", 12, Rule("btw", "by the way"), " ") == Rewrite("I think by the way ", 19)
  {
    assert "I think btw "[..8] == "I think ";
    assert "I think btw "[12..] == "";
  }

  /** No trigger ends `hello wor`, so the buffer is left alone. */
  lemma NoMatchExample()
    ensures Expand([Rule("btw", "by the way")], Some("notes/a.md"), InputEvent("insertText", Some(" ")),
                   "hello wor ", 10)
            == Unchanged
  {
    var rules := [Rule("btw", "by the way")];
    ExampleStore();
    ExampleFires();
    NoMatchText();
    assert ExpandWith(rules, "hello wor ", 10, " ") == Unchanged;
  }

  lemma NoMatchText()
    ensures !EndsWith(TextBeforeBoundary("hello wor ", 10), "btw")
  {
    assert TextBeforeBoundary("hello wor ", 10) == "hello wor";
    assert "hello wor"[6..] == "wor";
  }
}
