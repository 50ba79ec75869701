/** detectPlanConflicts: which conflict rules the items of a plan trigger, found through a bucket index. */
module PlanConflicts {
  import opened Wrappers
  import opened Text

  datatype Severity = Block | Warn
  datatype Rule = Rule(id: string, keys: seq<string>, severity: Severity)
  datatype Item = Item(id: string, capabilityKey: Option<string>)
  datatype Detected = Detected(rule: Rule, itemIds: seq<string>, idsByKey: map<string, seq<string>>)

  // ----- the reference: no index -----

  /** The item's trimmed key; an item without one is skipped. */
  function KeyOf(item: Item): string {
    if item.capabilityKey.None? then "" else Trim(item.capabilityKey.value)
  }

  /** The ids of the items with this key, in order. */
  function IdsOf(items: seq<Item>, key: string): seq<string> {
    if items == [] then []
    else
      var last := items[|items| - 1];
      IdsOf(items[..|items| - 1], key) + if key != "" && KeyOf(last) == key then [last.id] else []
  }

  function Present(keys: seq<string>, items: seq<Item>): seq<string> {
    if keys == [] then []
    else
      var before := Present(keys[..|keys| - 1], items);
      if IdsOf(items, keys[|keys| - 1]) != [] then before + [keys[|keys| - 1]] else before
  }

  /** The elements of s that are new, appended to ids one after the other. */
  function AddNew(ids: seq<string>, s: seq<string>): seq<string> {
    if s == [] then ids
    else
      var before := AddNew(ids, s[..|s| - 1]);
      if s[|s| - 1] in before then before else before + [s[|s| - 1]]
  }

  function Participants(keys: seq<string>, items: seq<Item>): seq<string> {
    if keys == [] then [] else AddNew(Participants(keys[..|keys| - 1], items), IdsOf(items, keys[|keys| - 1]))
  }

  function ByKey(keys: seq<string>, items: seq<Item>): map<string, seq<string>> {
    map k | k in keys :: IdsOf(items, k)
  }

  function Conflicts(rules: seq<Rule>, items: seq<Item>): seq<Detected> {
    if rules == [] then []
    else
      var before := Conflicts(rules[..|rules| - 1], items);
      var rule := rules[|rules| - 1];
      if |Present(rule.keys, items)| < 2 then before else before + [Finding(rule, items)]
  }

  function Finding(rule: Rule, items: seq<Item>): Detected {
    var keys := Present(rule.keys, items);
    Detected(rule, Participants(keys, items), ByKey(keys, items))
  }

  // ----- the method -----

  type Index = map<string, seq<string>>

  ghost predicate Indexes(byKey: Index, items: seq<Item>) {
    forall k :: (k in byKey <==> IdsOf(items, k) != []) && (k in byKey ==> byKey[k] == IdsOf(items, k))
  }

  method DetectPlanConflicts(rules: seq<Rule>, items: seq<Item>) returns (detected: seq<Detected>)
    ensures detected == Conflicts(rules, items)
  {
    var byKey: Index := map[];
    for i := 0 to |items|
      invariant Indexes(byKey, items[..i])
    {
      assert items[..i + 1][..i] == items[..i];
      var key := KeyOf(items[i]);
      if key == "" {
        continue;
      }
      var list := if key in byKey then byKey[key] else [];
      byKey := byKey[key := list + [items[i].id]];
    }
    assert items[..|items|] == items;
    detected := [];
    for i := 0 to |rules|
      invariant detected == Conflicts(rules[..i], items)
    {
      assert rules[..i + 1][..i] == rules[..i];
      var rule := rules[i];
      var matching := MatchingKeys(rule.keys, byKey, items);
      if |matching| < 2 {
        continue;
      }
      var ids, idsByKey := Gather(matching, byKey, items);
      detected := detected + [Detected(rule, ids, idsByKey)];
    }
    assert rules[..|rules|] == rules;
  }

  method MatchingKeys(keys: seq<string>, byKey: Index, ghost items: seq<Item>) returns (matching: seq<string>)
    requires Indexes(byKey, items)
    ensures matching == Present(keys, items)
  {
    matching := [];
    for i := 0 to |keys|
      invariant matching == Present(keys[..i], items)
    {
      assert keys[..i + 1][..i] == keys[..i];
      if keys[i] in byKey {
        matching := matching + [keys[i]];
      }
    }
    assert keys[..|keys|] == keys;
  }

  method Gather(keys: seq<string>, byKey: Index, ghost items: seq<Item>)
    returns (ids: seq<string>, idsByKey: map<string, seq<string>>)
    requires Indexes(byKey, items)
    ensures ids == Participants(keys, items) && idsByKey == ByKey(keys, items)
  {
    hide IdsOf, AddNew, ByKey;
    ids, idsByKey := [], map[];
    NoKeys(items);
    for i := 0 to |keys|
      invariant ids == Participants(keys[..i], items)
      invariant idsByKey == ByKey(keys[..i], items)
    {
      assert keys[..i + 1][..i] == keys[..i];
      var list := if keys[i] in byKey then byKey[keys[i]] else [];
      idsByKey := idsByKey[keys[i] := list];
      ids := AddEach(ids, list);
      ByKeyStep(keys, i, items);
    }
    assert keys[..|keys|] == keys;
  }

  lemma NoKeys(items: seq<Item>)
    ensures ByKey([], items) == map[]
  {
  }

  lemma ByKeyStep(keys: seq<string>, i: nat, items: seq<Item>)
    requires i < |keys|
    ensures ByKey(keys[..i + 1], items) == ByKey(keys[..i], items)[keys[i] := IdsOf(items, keys[i])]
  {
    hide IdsOf;
    assert keys[..i + 1] == keys[..i] + [keys[i]];
  }

  method AddEach(before: seq<string>, list: seq<string>) returns (ids: seq<string>)
    ensures ids == AddNew(before, list)
  {
    ids := before;
    for j := 0 to |list|
      invariant ids == AddNew(before, list[..j])
    {
      assert list[..j + 1][..j] == list[..j];
      if list[j] !in ids {
        ids := ids + [list[j]];
      }
    }
    assert list[..|list|] == list;
  }

  // ----- what is detected -----

  predicate Has(items: seq<Item>, key: string) {
    exists i :: 0 <= i < |items| && KeyOf(items[i]) == key
  }

  lemma {:induction false} IdsAre(items: seq<Item>, key: string)
    ensures IdsOf(items, key) != [] <==> key != "" && Has(items, key)
    ensures forall id :: id in IdsOf(items, key) <==>
      key != "" && exists i :: 0 <= i < |items| && KeyOf(items[i]) == key && items[i].id == id
  {
    hide KeyOf;
    if items == [] {
    } else {
      var n := |items| - 1;
      IdsAre(items[..n], key);
      assert items == items[..n] + [items[n]];
      assert forall i :: 0 <= i < n ==> items[..n][i] == items[i];
      if key != "" && Has(items[..n], key) {
        var i :| 0 <= i < n && KeyOf(items[..n][i]) == key;
        assert KeyOf(items[i]) == key;
      }
      forall id
        ensures id in IdsOf(items, key) <==>
          key != "" && exists i :: 0 <= i < |items| && KeyOf(items[i]) == key && items[i].id == id
      {
        if key != "" && exists i :: 0 <= i < n && KeyOf(items[..n][i]) == key && items[..n][i].id == id {
          var i :| 0 <= i < n && KeyOf(items[..n][i]) == key && items[..n][i].id == id;
          assert KeyOf(items[i]) == key && items[i].id == id;
        }
      }
    }
  }

  lemma {:induction false} PresentAre(keys: seq<string>, items: seq<Item>)
    ensures forall k :: k in Present(keys, items) <==> k in keys && k != "" && Has(items, k)
    ensures (forall i, j :: 0 <= i < j < |keys| ==> keys[i] != keys[j]) ==>
      forall i, j :: 0 <= i < j < |Present(keys, items)| ==> Present(keys, items)[i] != Present(keys, items)[j]
  {
    hide KeyOf, Has;
    if keys == [] {
    } else {
      var n := |keys| - 1;
      PresentAre(keys[..n], items);
      IdsAre(items, keys[n]);
      assert keys == keys[..n] + [keys[n]];
    }
  }

  predicate DistinctKeys(rule: Rule) {
    forall i, j :: 0 <= i < j < |rule.keys| ==> rule.keys[i] != rule.keys[j]
  }

  /** Two items of the plan have two different keys of the rule. */
  predicate Clashes(rule: Rule, items: seq<Item>) {
    exists i, j :: 0 <= i < |items| && 0 <= j < |items| && KeyOf(items[i]) != KeyOf(items[j])
      && KeyOf(items[i]) != "" && KeyOf(items[j]) != "" && KeyOf(items[i]) in rule.keys && KeyOf(items[j]) in rule.keys
  }

  lemma TwoPresent(rule: Rule, items: seq<Item>)
    requires DistinctKeys(rule)
    ensures |Present(rule.keys, items)| >= 2 <==> Clashes(rule, items)
  {
    hide KeyOf, Present;
    PresentAre(rule.keys, items);
    var p := Present(rule.keys, items);
    if |p| >= 2 {
      assert p[0] in p && p[1] in p;
      var i :| 0 <= i < |items| && KeyOf(items[i]) == p[0];
      var j :| 0 <= j < |items| && KeyOf(items[j]) == p[1];
      assert KeyOf(items[i]) != KeyOf(items[j]);
    }
    if Clashes(rule, items) {
      ClashIsPresent(rule, items, p);
    }
  }

  lemma ClashIsPresent(rule: Rule, items: seq<Item>, p: seq<string>)
    requires Clashes(rule, items) && forall k :: k in p <==> k in rule.keys && k != "" && Has(items, k)
    ensures |p| >= 2
  {
    hide KeyOf;
    var i, j :| 0 <= i < |items| && 0 <= j < |items| && KeyOf(items[i]) != KeyOf(items[j])
      && KeyOf(items[i]) != "" && KeyOf(items[j]) != "" && KeyOf(items[i]) in rule.keys && KeyOf(items[j]) in rule.keys;
    assert Has(items, KeyOf(items[i])) && Has(items, KeyOf(items[j]));
    assert KeyOf(items[i]) in p && KeyOf(items[j]) in p;
  }

  /** A rule is detected iff it clashes; each at most as often as it is listed, in the order of the rules. */
  lemma {:induction false} DetectedIffClashes(rules: seq<Rule>, items: seq<Item>)
    requires forall r :: r in rules ==> DistinctKeys(r)
    ensures forall r :: (exists d :: d in Conflicts(rules, items) && d.rule == r) <==> r in rules && Clashes(r, items)
    ensures |Conflicts(rules, items)| <= |rules|
  {
    hide Clashes, DistinctKeys, Present, Participants;
    if rules == [] {
    } else {
      var n := |rules| - 1;
      assert rules == rules[..n] + [rules[n]];
      DetectedIffClashes(rules[..n], items);
      assert rules[n] in rules;
      TwoPresent(rules[n], items);
      var before, after := Conflicts(rules[..n], items), Conflicts(rules, items);
      forall r
        ensures (exists d :: d in after && d.rule == r) <==> r in rules && Clashes(r, items)
      {
        if exists d :: d in before && d.rule == r {
          var d :| d in before && d.rule == r;
          assert d in after;
        }
        if r == rules[n] && Clashes(r, items) {
          assert after[|after| - 1] in after;
        }
      }
    }
  }

  /** The participants of a detected rule are exactly the items with one of its keys. */
  lemma {:induction false} ParticipantsAre(keys: seq<string>, items: seq<Item>)
    ensures forall id :: id in Participants(keys, items) <==> Participates(id, keys, items)
  {
    hide KeyOf;
    if keys == [] {
    } else {
      var n := |keys| - 1;
      assert keys == keys[..n] + [keys[n]];
      ParticipantsAre(keys[..n], items);
      IdsAre(items, keys[n]);
      AddNewHas(Participants(keys[..n], items), IdsOf(items, keys[n]));
    }
  }

  predicate Participates(id: string, keys: seq<string>, items: seq<Item>) {
    exists i :: 0 <= i < |items| && items[i].id == id && KeyOf(items[i]) != "" && KeyOf(items[i]) in keys
  }

  lemma {:induction false} AddNewHas(ids: seq<string>, s: seq<string>)
    ensures forall x :: x in AddNew(ids, s) <==> x in ids || x in s
  {
    if s == [] {
    } else {
      AddNewHas(ids, s[..|s| - 1]);
      assert s == s[..|s| - 1] + [s[|s| - 1]];
    }
  }

  /** An item with this id has this key. */
  predicate Owns(items: seq<Item>, key: string, id: string) {
    key != "" && exists i :: 0 <= i < |items| && KeyOf(items[i]) == key && items[i].id == id
  }

  /** What is reported of a rule, told without the index: participants, keys in use, and the ids of each. */
  lemma FindingIs(rule: Rule, items: seq<Item>)
    ensures var d := Finding(rule, items);
      && d.rule == rule
      && (forall id :: id in d.itemIds <==> Participates(id, rule.keys, items))
      && (forall k :: k in d.idsByKey <==> k in rule.keys && k != "" && Has(items, k))
      && (forall k, id :: k in d.idsByKey ==> (id in d.idsByKey[k] <==> Owns(items, k, id)))
  {
    hide KeyOf, IdsOf, Present, Participants;
    var keys := Present(rule.keys, items);
    PresentAre(rule.keys, items);
    ParticipantsAre(keys, items);
    forall k, id | k in keys
      ensures id in IdsOf(items, k) <==> Owns(items, k, id)
    {
      IdsAre(items, k);
    }
    forall id
      ensures Participates(id, keys, items) <==> Participates(id, rule.keys, items)
    {
      if Participates(id, rule.keys, items) {
        var i :| 0 <= i < |items| && items[i].id == id && KeyOf(items[i]) != "" && KeyOf(items[i]) in rule.keys;
        assert Has(items, KeyOf(items[i]));
      }
    }
  }

  /** The same rule, and everything of the one is in the other. */
  predicate Within(d: Detected, e: Detected) {
    && d.rule == e.rule
    && (forall id :: id in d.itemIds ==> id in e.itemIds)
    && (forall k :: k in d.idsByKey ==> k in e.idsByKey && forall id :: id in d.idsByKey[k] ==> id in e.idsByKey[k])
  }

  lemma MoreIsFound(rule: Rule, items: seq<Item>, more: seq<Item>)
    requires DistinctKeys(rule) && |Present(rule.keys, items)| >= 2 && forall x :: x in items ==> x in more
    ensures |Present(rule.keys, more)| >= 2 && Within(Finding(rule, items), Finding(rule, more))
  {
    hide KeyOf, Present, Finding, DistinctKeys;
    TwoPresent(rule, items);
    TwoPresent(rule, more);
    MoreOfEach(rule, items, more);
    FindingIs(rule, items);
    FindingIs(rule, more);
  }

  lemma MoreOfEach(rule: Rule, items: seq<Item>, more: seq<Item>)
    requires forall x :: x in items ==> x in more
    ensures Clashes(rule, items) ==> Clashes(rule, more)
    ensures forall id :: Participates(id, rule.keys, items) ==> Participates(id, rule.keys, more)
    ensures forall k :: Has(items, k) ==> Has(more, k)
    ensures forall k, id :: Owns(items, k, id) ==> Owns(more, k, id)
  {
    hide KeyOf;
    assert forall i :: 0 <= i < |items| ==> items[i] in more;
    if Clashes(rule, items) {
      var i, j :| 0 <= i < |items| && 0 <= j < |items| && KeyOf(items[i]) != KeyOf(items[j])
        && KeyOf(items[i]) != "" && KeyOf(items[j]) != ""
        && KeyOf(items[i]) in rule.keys && KeyOf(items[j]) in rule.keys;
      var k :| 0 <= k < |more| && more[k] == items[i];
      var l :| 0 <= l < |more| && more[l] == items[j];
      assert KeyOf(more[k]) != KeyOf(more[l]);
    }
    forall id | Participates(id, rule.keys, items)
      ensures Participates(id, rule.keys, more)
    {
      var i :| 0 <= i < |items| && items[i].id == id && KeyOf(items[i]) != "" && KeyOf(items[i]) in rule.keys;
      assert items[i] in more;
    }
  }

  /** More items never lose a conflict, a participant, a key or an id of a key. */
  lemma {:induction false} MoreItems(rules: seq<Rule>, items: seq<Item>, more: seq<Item>)
    requires (forall r :: r in rules ==> DistinctKeys(r)) && forall x :: x in items ==> x in more
    ensures forall d :: d in Conflicts(rules, items) ==> exists e :: e in Conflicts(rules, more) && Within(d, e)
  {
    hide DistinctKeys, Present, Finding, Within;
    if rules == [] {
    } else {
      var n := |rules| - 1;
      MoreItems(rules[..n], items, more);
      assert rules[n] in rules;
      if |Present(rules[n].keys, items)| >= 2 {
        MoreIsFound(rules[n], items, more);
      }
      forall d | d in Conflicts(rules, items)
        ensures exists e :: e in Conflicts(rules, more) && Within(d, e)
      {
        if d in Conflicts(rules[..n], items) {
          var e :| e in Conflicts(rules[..n], more) && Within(d, e);
          assert e in Conflicts(rules, more);
        } else {
          assert Finding(rules[n], more) in Conflicts(rules, more);
        }
      }
    }
  }

  /** The order of the plan's items changes neither which rules are reported, in which order, nor what of them. */
  lemma {:induction false} OrderDoesNotMatter(rules: seq<Rule>, items: seq<Item>, shuffled: seq<Item>)
    requires (forall r :: r in rules ==> DistinctKeys(r)) && multiset(items) == multiset(shuffled)
    ensures var a, b := Conflicts(rules, items), Conflicts(rules, shuffled);
      |a| == |b| && forall i :: 0 <= i < |a| ==> Within(a[i], b[i]) && Within(b[i], a[i])
  {
    hide DistinctKeys, Present, Finding, Within;
    if rules == [] {
    } else {
      var rule := rules[|rules| - 1];
      OrderDoesNotMatter(rules[..|rules| - 1], items, shuffled);
      SameItems(items, shuffled);
      if |Present(rule.keys, items)| >= 2 {
        MoreIsFound(rule, items, shuffled);
      }
      if |Present(rule.keys, shuffled)| >= 2 {
        MoreIsFound(rule, shuffled, items);
      }
    }
  }

  lemma SameItems(items: seq<Item>, shuffled: seq<Item>)
    requires multiset(items) == multiset(shuffled)
    ensures forall x :: x in items <==> x in shuffled
  {
    assert forall x :: x in items <==> x in multiset(items);
    assert forall x :: x in shuffled <==> x in multiset(shuffled);
  }

  // ----- the apply gate -----

  /** blockingConflicts */
  function Blocking(detected: seq<Detected>): seq<Detected> {
    if detected == [] then []
    else
      var before := Blocking(detected[..|detected| - 1]);
      if detected[|detected| - 1].rule.severity.Block? then before + [detected[|detected| - 1]] else before
  }

  lemma {:induction false} BlockingAre(detected: seq<Detected>)
    ensures forall d :: d in Blocking(detected) <==> d in detected && d.rule.severity.Block?
  {
    if detected == [] {
    } else {
      BlockingAre(detected[..|detected| - 1]);
      assert detected == detected[..|detected| - 1] + [detected[|detected| - 1]];
    }
  }

  /** Nothing blocks a plan iff, of every blocking rule, all its items agree on at most one key. */
  lemma NothingBlocksIff(rules: seq<Rule>, items: seq<Item>)
    requires forall r :: r in rules ==> DistinctKeys(r)
    ensures Blocking(Conflicts(rules, items)) == []
      <==> forall r :: r in rules && r.severity.Block? ==> !Clashes(r, items)
  {
    hide Clashes, DistinctKeys;
    DetectedIffClashes(rules, items);
    var detected := Conflicts(rules, items);
    BlockingAre(detected);
    var b := Blocking(detected);
    if b != [] {
      assert b[0] in b;
      assert b[0] in detected && b[0].rule in rules && Clashes(b[0].rule, items);
    } else {
      forall r | r in rules && r.severity.Block?
        ensures !Clashes(r, items)
      {
        assert forall d :: d in detected && d.rule == r ==> d in b;
      }
    }
  }

  // ----- what a key is -----

  /** White space around a key does not count, and an item without a key has the empty one, as one of white space. */
  lemma KeyIs(id: string, before: string, key: string, after: string)
    requires IsSpaces(before) && IsSpaces(after)
    requires key != "" ==> !IsSpace(key[0]) && !IsSpace(key[|key| - 1])
    ensures KeyOf(Item(id, Some(before + (key + after)))) == key
    ensures KeyOf(Item(id, None)) == ""
  {
    if key == "" {
      assert before + ("" + after) == before + after;
      NothingLeft(before + after);
    } else {
      DropGap(before, key + after);
      DropGapAtEnd(key, after);
    }
  }

  lemma {:induction false} NothingLeft(gap: string)
    requires IsSpaces(gap)
    ensures Trim(gap) == ""
  {
    if gap == "" {
    } else {
      NothingLeft(gap[1..]);
    }
  }

  /** Items without a key are as good as not there. */
  lemma {:induction false} KeylessIgnored(items: seq<Item>, key: string)
    ensures IdsOf(items, key) == IdsOf(Keyed(items), key)
  {
    hide Trim;
    if items == [] {
    } else {
      var before, last := items[..|items| - 1], items[|items| - 1];
      KeylessIgnored(before, key);
      assert (Keyed(before) + [last])[..|Keyed(before)|] == Keyed(before);
      assert Keyed(before) + [] == Keyed(before) && IdsOf(before, key) + [] == IdsOf(before, key);
    }
  }

  function Keyed(items: seq<Item>): seq<Item> {
    if items == [] then []
    else
      var last := items[|items| - 1];
      Keyed(items[..|items| - 1])
      + if last.capabilityKey.Some? && Trim(last.capabilityKey.value) != "" then [last] else []
  }
}
