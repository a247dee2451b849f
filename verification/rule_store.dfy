/**
 * The hotstring store: a plain JavaScript object used as a dictionary
 * from trigger to replacement.
 *
 * The object is modelled by its own properties in the order they were
 * created. `Put` is property assignment and `Entries` is
 * `Object.entries`, whose order is fixed by the language: keys that are
 * array indices come first in ascending numeric order, then every other
 * key in creation order. Assigning to an existing key keeps its place.
 */
module RuleStore {
  import opened Wrappers

  /** One own property: a trigger and its replacement text. */
  datatype Rule = Rule(trigger: string, replacement: string)

  /** The own properties of the object, in creation order. */
  type Store = seq<Rule>

  /** No two properties share a key, as for any JavaScript object. */
  predicate UniqueTriggers(s: seq<Rule>) {
    forall i, j :: 0 <= i < j < |s| ==> s[i].trigger != s[j].trigger
  }

  /** The keys, in the order the properties appear. */
  function Triggers(s: seq<Rule>): (ts: seq<string>)
    ensures |ts| == |s|
  {
    if |s| == 0 then [] else [s[0].trigger] + Triggers(s[1..])
  }

  /** `obj[t]` for an own property, `None` when there is none. */
  function Lookup(s: Store, t: string): (r: Option<string>)
    ensures r.None? <==> t !in Triggers(s)
    ensures r.Some? ==> Rule(t, r.value) in s
  {
    if |s| == 0 then None
    else if s[0].trigger == t then Some(s[0].replacement)
    else
      assert Triggers(s) == [s[0].trigger] + Triggers(s[1..]);
      Lookup(s[1..], t)
  }

  /**
   * The key whose assignment does not create a property: `__proto__` is
   * an accessor inherited from `Object.prototype`, and its setter ignores
   * a string value.
   */
  const ProtoKey: string := "__proto__"

  /**
   * Creating or overwriting an own data property: an existing key keeps
   * its place and takes the new value, a new key goes last.
   */
  function Assign(s: Store, t: string, v: string): (s': Store)
    ensures Lookup(s', t) == Some(v)
    ensures forall u :: u != t ==> Lookup(s', u) == Lookup(s, u)
  {
    if |s| == 0 then [Rule(t, v)]
    else if s[0].trigger == t then [Rule(t, v)] + s[1..]
    else
      var rest := Assign(s[1..], t, v);
      assert ([s[0]] + rest)[1..] == rest;
      [s[0]] + rest
  }

  /** Assignment adds the assigned rule and keeps or overwrites the others. */
  lemma {:induction false} AssignRules(s: Store, t: string, v: string)
    ensures forall x :: x in Assign(s, t, v) ==> x == Rule(t, v) || x in s
  {
    if |s| > 0 && s[0].trigger != t {
      AssignRules(s[1..], t, v);
    }
  }

  /** Assignment keeps the key order, appending a key that is new. */
  lemma {:induction false} AssignTriggers(s: Store, t: string, v: string)
    ensures t in Triggers(s) ==> Triggers(Assign(s, t, v)) == Triggers(s)
    ensures t !in Triggers(s) ==> Triggers(Assign(s, t, v)) == Triggers(s) + [t]
  {
    if |s| > 0 {
      assert Triggers(s) == [s[0].trigger] + Triggers(s[1..]);
      if s[0].trigger != t {
        AssignTriggers(s[1..], t, v);
        var rest := Assign(s[1..], t, v);
        assert Triggers([s[0]] + rest) == [s[0].trigger] + Triggers(rest) by {
          assert ([s[0]] + rest)[1..] == rest;
        }
      } else {
        assert Triggers(Assign(s, t, v)) == [t] + Triggers(s[1..]) by {
          assert ([Rule(t, v)] + s[1..])[1..] == s[1..];
        }
      }
    }
  }

  /** A new key is appended with its value. */
  lemma {:induction false} AssignNew(s: Store, t: string, v: string)
    requires t !in Triggers(s)
    ensures Assign(s, t, v) == s + [Rule(t, v)]
  {
    if |s| > 0 {
      assert Triggers(s) == [s[0].trigger] + Triggers(s[1..]);
      AssignNew(s[1..], t, v);
      assert Assign(s, t, v) == [s[0]] + Assign(s[1..], t, v);
      assert [s[0]] + (s[1..] + [Rule(t, v)]) == s + [Rule(t, v)];
    }
  }

  /** `obj[t] = v` on a plain object whose values are strings. */
  function Put(s: Store, t: string, v: string): (s': Store)
    ensures t == ProtoKey ==> s' == s
    ensures t != ProtoKey ==> Lookup(s', t) == Some(v)
    ensures forall u :: u != t ==> Lookup(s', u) == Lookup(s, u)
    ensures t != ProtoKey && t in Triggers(s) ==> Triggers(s') == Triggers(s)
    ensures t != ProtoKey && t !in Triggers(s) ==> Triggers(s') == Triggers(s) + [t]
  {
    if t == ProtoKey then s
    else
      AssignTriggers(s, t, v);
      Assign(s, t, v)
  }

  /** The `i`-th key is the key of the `i`-th property. */
  lemma {:induction false} TriggerAt(s: seq<Rule>, i: int)
    requires 0 <= i < |s|
    ensures Triggers(s)[i] == s[i].trigger
  {
    if i > 0 {
      TriggerAt(s[1..], i - 1);
    }
  }

  /** Assignment keeps the keys of an object unique. */
  lemma {:induction false} AssignKeepsUnique(s: Store, t: string, v: string)
    requires UniqueTriggers(s)
    ensures UniqueTriggers(Assign(s, t, v))
  {
    if |s| > 0 && s[0].trigger != t {
      var rest := Assign(s[1..], t, v);
      AssignKeepsUnique(s[1..], t, v);
      AssignTriggers(s[1..], t, v);
      var s' := [s[0]] + rest;
      assert s[0].trigger !in Triggers(s[1..]) by {
        forall m | 0 <= m < |s| - 1 ensures Triggers(s[1..])[m] != s[0].trigger {
          TriggerAt(s[1..], m);
        }
      }
      assert s[0].trigger !in Triggers(rest);
      forall j | 0 < j < |s'|
        ensures s'[0].trigger != s'[j].trigger
      {
        TriggerAt(rest, j - 1);
      }
    }
  }

  /** Assignment keeps the keys of an object unique. */
  lemma PutKeepsUnique(s: Store, t: string, v: string)
    requires UniqueTriggers(s)
    ensures UniqueTriggers(Put(s, t, v))
  {
    if t != ProtoKey {
      AssignKeepsUnique(s, t, v);
    }
  }

  /** In an object a property's value is what a lookup of its key returns. */
  lemma {:induction false} LookupMember(s: Store, x: Rule)
    requires UniqueTriggers(s)
    requires x in s
    ensures Lookup(s, x.trigger) == Some(x.replacement)
  {
    if s[0] != x {
      assert x in s[1..];
      var k :| 0 <= k < |s| - 1 && s[1..][k] == x;
      assert s[0].trigger != s[k + 1].trigger;
      LookupMember(s[1..], x);
    }
  }

  // ---------------------------------------------------------------------
  // Array-index keys

  predicate IsDigit(c: char) {
    '0' <= c <= '9'
  }

  /** The number a string of decimal digits denotes; `None` if a character is not a digit. */
  function NumeralValue(k: string): Option<nat>
  {
    if |k| == 0 then Some(0)
    else if !IsDigit(k[|k| - 1]) then None
    else match NumeralValue(k[..|k| - 1])
      case None => None
      case Some(n) => Some(n * 10 + (k[|k| - 1] as int - '0' as int))
  }

  /** 2^32 - 2, the largest array index. */
  const MaxArrayIndex: nat := 0x1_0000_0000 - 2

  /**
   * A canonical decimal numeral: digits only, and no leading zero unless
   * the numeral is "0".
   */
  predicate IsCanonicalNumeral(k: string) {
    && |k| >= 1
    && NumeralValue(k).Some?
    && (k[0] != '0' || |k| == 1)
  }

  /**
   * An array index: the canonical numeral of an integer from 0 to
   * 2^32 - 2. Such keys are enumerated before all others.
   */
  predicate IsArrayIndex(k: string) {
    IsCanonicalNumeral(k) && NumeralValue(k).value <= MaxArrayIndex
  }

  /** The number an array-index key denotes (0 for any other key). */
  function IndexValue(k: string): nat {
    if IsArrayIndex(k) then NumeralValue(k).value else 0
  }

  function DigitChar(d: nat): char
    requires d < 10
  {
    ('0' as int + d) as char
  }

  /** The canonical numeral of `n`. */
  function ToNumeral(n: nat): (k: string)
    ensures IsCanonicalNumeral(k)
    ensures NumeralValue(k) == Some(n)
  {
    if n < 10 then
      assert NumeralValue([DigitChar(n)]) == Some(n) by {
        assert [DigitChar(n)][..0] == [];
      }
      [DigitChar(n)]
    else
      var p := ToNumeral(n / 10);
      var k := p + [DigitChar(n % 10)];
      assert k[..|k| - 1] == p;
      k
  }

  /** A numeral whose first digit is not zero denotes at least 1. */
  lemma {:induction false} LeadingDigitPositive(k: string)
    requires |k| >= 1 && NumeralValue(k).Some? && k[0] != '0'
    ensures NumeralValue(k).value >= 1
  {
    if |k| > 1 {
      LeadingDigitPositive(k[..|k| - 1]);
    } else {
      assert k[..0] == [];
    }
  }

  /** The last decimal digit of `m * 10 + d` is `d`, and the rest `m`. */
  lemma DigitsOfNumber(m: nat, d: nat)
    requires d < 10
    ensures (m * 10 + d) / 10 == m && (m * 10 + d) % 10 == d
  {
  }

  /** Every canonical numeral is the numeral of the number it denotes. */
  lemma {:induction false} NumeralRoundTrip(k: string)
    requires IsCanonicalNumeral(k)
    ensures ToNumeral(NumeralValue(k).value) == k
  {
    if |k| > 1 {
      var p := k[..|k| - 1];
      var d := k[|k| - 1] as int - '0' as int;
      var m := NumeralValue(p).value;
      assert NumeralValue(k).value == m * 10 + d;
      LeadingDigitPositive(p);
      NumeralRoundTrip(p);
      DigitsOfNumber(m, d);
      assert DigitChar(d) == k[|k| - 1];
      assert k == p + [k[|k| - 1]];
    } else {
      assert k[..0] == [];
    }
  }

  /** Distinct array-index keys denote distinct numbers. */
  lemma IndexValueInjective(a: string, b: string)
    requires IsArrayIndex(a) && IsArrayIndex(b)
    requires IndexValue(a) == IndexValue(b)
    ensures a == b
  {
    NumeralRoundTrip(a);
    NumeralRoundTrip(b);
  }

  // ---------------------------------------------------------------------
  // Enumeration order

  /** The properties whose key is (`index`) or is not (`!index`) an array index, in order. */
  function KeyedAs(s: seq<Rule>, index: bool): seq<Rule>
  {
    if |s| == 0 then []
    else (if IsArrayIndex(s[0].trigger) == index then [s[0]] else []) + KeyedAs(s[1..], index)
  }

  /** Every property a selection keeps has the selected kind of key. */
  lemma {:induction false} KeyedAsKind(s: seq<Rule>, index: bool)
    ensures forall i :: 0 <= i < |KeyedAs(s, index)| ==> IsArrayIndex(KeyedAs(s, index)[i].trigger) == index
  {
    if |s| > 0 {
      KeyedAsKind(s[1..], index);
    }
  }

  /** The two selections share out the properties between them. */
  lemma {:induction false} KeyedAsSplit(s: seq<Rule>)
    ensures multiset(KeyedAs(s, true)) + multiset(KeyedAs(s, false)) == multiset(s)
  {
    if |s| > 0 {
      assert s == [s[0]] + s[1..];
      KeyedAsSplit(s[1..]);
    }
  }

  /** Keeping one kind of key commutes with concatenation. */
  lemma {:induction false} KeyedAsConcat(a: seq<Rule>, b: seq<Rule>, index: bool)
    ensures KeyedAs(a + b, index) == KeyedAs(a, index) + KeyedAs(b, index)
  {
    if |a| > 0 {
      assert (a + b)[1..] == a[1..] + b;
      KeyedAsConcat(a[1..], b, index);
    } else {
      assert a + b == b;
    }
  }

  /** A sequence all of whose keys are of one kind is its own selection. */
  lemma {:induction false} KeyedAsAll(s: seq<Rule>, index: bool)
    requires forall i :: 0 <= i < |s| ==> IsArrayIndex(s[i].trigger) == index
    ensures KeyedAs(s, index) == s
    ensures KeyedAs(s, !index) == []
  {
    if |s| > 0 {
      KeyedAsAll(s[1..], index);
      assert s == [s[0]] + s[1..];
    }
  }

  /** The properties in non-decreasing order of `key`. */
  ghost predicate Ascending(key: Rule -> nat, s: seq<Rule>) {
    forall i, j :: 0 <= i < j < |s| ==> key(s[i]) <= key(s[j])
  }

  /** Inserts `x` before the first property whose key is not smaller. */
  function InsertByKey(key: Rule -> nat, x: Rule, s: seq<Rule>): (r: seq<Rule>)
    requires Ascending(key, s)
    ensures |r| == |s| + 1
    ensures Ascending(key, r)
    ensures r[0] == x || (|s| > 0 && r[0] == s[0])
  {
    if |s| == 0 || key(x) <= key(s[0]) then [x] + s
    else
      var rest := InsertByKey(key, x, s[1..]);
      assert key(s[0]) <= key(rest[0]);
      [s[0]] + rest
  }

  /** Insertion adds `x` and keeps every property. */
  lemma {:induction false} InsertByKeyPermutes(key: Rule -> nat, x: Rule, s: seq<Rule>)
    requires Ascending(key, s)
    ensures multiset(InsertByKey(key, x, s)) == multiset(s) + multiset{x}
  {
    if |s| > 0 && key(s[0]) < key(x) {
      InsertByKeyPermutes(key, x, s[1..]);
      assert s == [s[0]] + s[1..];
    }
  }

  lemma MultisetOfCons(s: seq<Rule>)
    requires |s| > 0
    ensures multiset(s) == multiset(s[1..]) + multiset{s[0]}
  {
    assert s == [s[0]] + s[1..];
  }

  /** Sorts properties by `key`, keeping all of them. */
  function SortByKey(key: Rule -> nat, s: seq<Rule>): (r: seq<Rule>)
    ensures multiset(r) == multiset(s)
    ensures Ascending(key, r)
  {
    if |s| == 0 then []
    else
      var sorted := SortByKey(key, s[1..]);
      InsertByKeyPermutes(key, s[0], sorted);
      MultisetOfCons(s);
      InsertByKey(key, s[0], sorted)
  }

  /** The number a property's key denotes as an array index. */
  function IndexKey(r: Rule): nat {
    IndexValue(r.trigger)
  }

  /**
   * `Object.entries(obj)`: the array-index keys in ascending numeric
   * order, then the remaining keys in creation order.
   */
  function Entries(s: Store): (r: seq<Rule>)
    ensures multiset(r) == multiset(s)
  {
    KeyedAsSplit(s);
    SortByKey(IndexKey, KeyedAs(s, true)) + KeyedAs(s, false)
  }

  /** With unique keys no rule occurs twice. */
  lemma {:induction false} UniqueCountsOnce(b: seq<Rule>, x: Rule)
    requires UniqueTriggers(b)
    ensures multiset(b)[x] <= 1
  {
    if |b| > 0 {
      assert b == [b[0]] + b[1..];
      UniqueCountsOnce(b[1..], x);
      if b[0] == x {
        assert x !in b[1..] by {
          forall m | 1 <= m < |b| ensures b[m] != x { assert b[0].trigger != b[m].trigger; }
        }
      }
    }
  }

  /** A rule at two positions is counted twice. */
  lemma CountsTwice(a: seq<Rule>, i: int, j: int)
    requires 0 <= i < j < |a| && a[i] == a[j]
    ensures multiset(a)[a[i]] >= 2
  {
    assert a == a[..j] + a[j..];
    assert a[i] == a[..j][i];
    assert a[j] == a[j..][0];
  }

  /** A rearrangement of a sequence with unique keys has unique keys. */
  lemma PermutationKeepsUnique(a: seq<Rule>, b: seq<Rule>)
    requires multiset(a) == multiset(b)
    requires UniqueTriggers(b)
    ensures UniqueTriggers(a)
  {
    forall i, j | 0 <= i < j < |a|
      ensures a[i].trigger != a[j].trigger
    {
      if a[i] == a[j] {
        CountsTwice(a, i, j);
        UniqueCountsOnce(b, a[i]);
      } else {
        assert a[i] in multiset(b) && a[j] in multiset(b);
        var p :| 0 <= p < |b| && b[p] == a[i];
        var q :| 0 <= q < |b| && b[q] == a[j];
        assert p != q;
      }
    }
  }

  /**
   * `Object.entries` lists every own property exactly once; array-index
   * keys come first, strictly ascending by value; the other keys follow
   * in creation order.
   */
  lemma EntriesOrder(s: Store)
    requires UniqueTriggers(s)
    ensures multiset(Entries(s)) == multiset(s)
    ensures UniqueTriggers(Entries(s))
    ensures forall i, j :: 0 <= i < j < |Entries(s)| && IsArrayIndex(Entries(s)[j].trigger)
              ==> IsArrayIndex(Entries(s)[i].trigger)
    ensures forall i, j :: 0 <= i < j < |Entries(s)| && IsArrayIndex(Entries(s)[j].trigger)
              ==> IndexValue(Entries(s)[i].trigger) < IndexValue(Entries(s)[j].trigger)
    ensures KeyedAs(Entries(s), false) == KeyedAs(s, false)
  {
    var sorted := SortByKey(IndexKey, KeyedAs(s, true));
    var named := KeyedAs(s, false);
    assert Entries(s) == sorted + named;
    EntriesPermutes(s);
    PermutationKeepsUnique(Entries(s), s);
    IndexKeysFirst(s);
    KeyedAsConcat(sorted, named, false);
    SortedAreIndices(s);
    KeyedAsAll(sorted, true);
    KeyedAsKind(s, false);
    KeyedAsAll(named, false);
  }

  /** In `Object.entries`, array-index keys come first, in strictly ascending order. */
  lemma IndexKeysFirst(s: Store)
    requires UniqueTriggers(s)
    ensures forall i, j :: 0 <= i < j < |Entries(s)| && IsArrayIndex(Entries(s)[j].trigger)
              ==> IsArrayIndex(Entries(s)[i].trigger)
                  && IndexValue(Entries(s)[i].trigger) < IndexValue(Entries(s)[j].trigger)
  {
    var sorted := SortByKey(IndexKey, KeyedAs(s, true));
    var named := KeyedAs(s, false);
    var e := Entries(s);
    assert e == sorted + named;
    SortedAreIndices(s);
    KeyedAsKind(s, false);
    assert Ascending(IndexKey, sorted);
    EntriesPermutes(s);
    PermutationKeepsUnique(e, s);
    forall k | |sorted| <= k < |e| ensures !IsArrayIndex(e[k].trigger) {
      assert e[k] == named[k - |sorted|];
    }
    forall i, j | 0 <= i < j < |e| && IsArrayIndex(e[j].trigger)
      ensures IsArrayIndex(e[i].trigger) && IndexValue(e[i].trigger) < IndexValue(e[j].trigger)
    {
      assert e[i] == sorted[i] && e[j] == sorted[j];
      assert IndexKey(sorted[i]) <= IndexKey(sorted[j]);
      if IndexValue(e[i].trigger) == IndexValue(e[j].trigger) {
        IndexValueInjective(e[i].trigger, e[j].trigger);
      }
    }
  }

  /** `Object.entries` rearranges the properties. */
  lemma EntriesPermutes(s: Store)
    ensures multiset(Entries(s)) == multiset(s)
  {
    KeyedAsSplit(s);
  }

  /** The sorted part of `Object.entries` holds only array-index keys. */
  lemma SortedAreIndices(s: Store)
    ensures forall i :: 0 <= i < |SortByKey(IndexKey, KeyedAs(s, true))|
              ==> IsArrayIndex(SortByKey(IndexKey, KeyedAs(s, true))[i].trigger)
  {
    var sorted := SortByKey(IndexKey, KeyedAs(s, true));
    KeyedAsKind(s, true);
    forall i | 0 <= i < |sorted| ensures IsArrayIndex(sorted[i].trigger) {
      assert sorted[i] in multiset(KeyedAs(s, true));
    }
  }

  /** Without array-index keys, `Object.entries` is plain creation order. */
  lemma EntriesInCreationOrder(s: Store)
    requires forall i :: 0 <= i < |s| ==> !IsArrayIndex(s[i].trigger)
    ensures Entries(s) == s
  {
    KeyedAsAll(s, false);
  }

  /** A numeral key created after a word key is still enumerated first. */
  lemma EntriesExample()
    ensures Entries([Rule("btw", "by the way"), Rule("42", "answer")])
            == [Rule("42", "answer"), Rule("btw", "by the way")]
  {
    var s := [Rule("btw", "by the way"), Rule("42", "answer")];
    ExampleKeys();
    assert s[1..] == [Rule("42", "answer")];
    assert s[1..][1..] == [];
    assert KeyedAs(s, true) == [Rule("42", "answer")];
    assert KeyedAs(s, false) == [Rule("btw", "by the way")];
  }

  /** "42" is an array index and "btw" is not. */
  lemma ExampleKeys()
    ensures IsArrayIndex("42") && !IsArrayIndex("btw")
  {
    assert NumeralValue("btw") == None by {
      assert !IsDigit("btw"[2]);
    }
    assert "42"[..1] == "4";
    assert ""[..0] == "" && "4"[..0] == "";
    assert NumeralValue("42") == Some(42);
  }
}
