/** The per-key aggregation the interface runs over the loaded matches
    (`ui/components/detail-panel.js`, `chart-opponents.js`,
    `season-stats.js`): one pass over the matches in order, a group created
    the first time its key is met, then its counters bumped. The key and the
    title a group is created with are computed by each component; here they
    are inputs. */
module Tally {
  import opened Wrappers
  import opened Sorting

  /** One match as an aggregation sees it: its group key, the title a group
      created for it takes, and its result (`m.result`). */
  datatype Item = Item(key: string, title: Option<string>, result: Option<string>)

  /** `{ name/season, total, wins, losses }` */
  datatype Group = Group(key: string, title: Option<string>, total: nat, wins: nat, losses: nat)

  // ---------------------------------------------------------------------------
  // Reference counts
  // ---------------------------------------------------------------------------

  /** How many items have key `k`. */
  function Count(items: seq<Item>, k: string): nat
  {
    if |items| == 0 then 0
    else Count(items[..|items| - 1], k) + (if items[|items| - 1].key == k then 1 else 0)
  }

  /** How many items have key `k` and result `x`. */
  function CountResult(items: seq<Item>, k: string, x: string): (n: nat)
    ensures n <= Count(items, k)
  {
    if |items| == 0 then 0
    else
      var last := items[|items| - 1];
      CountResult(items[..|items| - 1], k, x) + (if last.key == k && last.result == Some(x) then 1 else 0)
  }

  /** The title of the first item with key `k`. */
  function FirstTitle(items: seq<Item>, k: string): Option<string>
  {
    if |items| == 0 then None
    else
      var init := items[..|items| - 1];
      if Count(init, k) > 0 then FirstTitle(init, k) else items[|items| - 1].title
  }

  /** What the group of key `k` must hold after all of `items`. */
  function GroupOf(items: seq<Item>, k: string): Group
  {
    Group(k, FirstTitle(items, k), Count(items, k), CountResult(items, k, "W"), CountResult(items, k, "L"))
  }

  // ---------------------------------------------------------------------------
  // The incremental pass
  // ---------------------------------------------------------------------------

  /** `map[k]`: the position of the group with key `k`, if any. */
  function Find(groups: seq<Group>, k: string): (r: Option<nat>)
    ensures r.None? <==> forall i :: 0 <= i < |groups| ==> groups[i].key != k
    ensures r.Some? ==> r.value < |groups| && groups[r.value].key == k
  {
    if |groups| == 0 then None
    else if groups[0].key == k then Some(0)
    else
      match Find(groups[1..], k)
      case None => None
      case Some(i) => Some(i + 1)
  }

  /** `total++`, then `wins++` on a win and `losses++` on a loss. */
  function Bump(g: Group, result: Option<string>): Group
  {
    g.(total := g.total + 1,
       wins := g.wins + (if result == Some("W") then 1 else 0),
       losses := g.losses + (if result == Some("L") then 1 else 0))
  }

  /** One step of `forEach`: create the group if its key is new, then bump it. */
  function Add(groups: seq<Group>, it: Item): seq<Group>
  {
    match Find(groups, it.key)
    case Some(i) => groups[i := Bump(groups[i], it.result)]
    case None => groups + [Bump(Group(it.key, it.title, 0, 0, 0), it.result)]
  }

  /** The whole pass, groups in the order their keys were first met. */
  function GroupBy(items: seq<Item>): seq<Group>
  {
    if |items| == 0 then []
    else Add(GroupBy(items[..|items| - 1]), items[|items| - 1])
  }

  ghost predicate KeysDistinct(groups: seq<Group>)
  {
    forall i, j :: 0 <= i < j < |groups| ==> groups[i].key != groups[j].key
  }

  /** `groups` is exactly the aggregation of `items`: one group per key that
      occurs, none for any other key, each holding its reference counts. */
  ghost predicate Describes(groups: seq<Group>, items: seq<Item>)
  {
    && KeysDistinct(groups)
    && (forall k :: Find(groups, k).Some? <==> Count(items, k) > 0)
    && (forall i :: 0 <= i < |groups| ==> groups[i] == GroupOf(items, groups[i].key))
  }

  lemma {:induction false} CountsOfAppend(items: seq<Item>, it: Item, k: string)
    ensures var next := items + [it];
      && Count(next, k) == Count(items, k) + (if it.key == k then 1 else 0)
      && CountResult(next, k, "W") == CountResult(items, k, "W") + (if it.key == k && it.result == Some("W") then 1 else 0)
      && CountResult(next, k, "L") == CountResult(items, k, "L") + (if it.key == k && it.result == Some("L") then 1 else 0)
      && FirstTitle(next, k) == if Count(items, k) > 0 then FirstTitle(items, k) else it.title
  {
    assert (items + [it])[..|items|] == items;
  }

  /** A step on a key that already has a group keeps the description exact. */
  lemma {:induction false} AddExistingKeepsDescribes(groups: seq<Group>, items: seq<Item>, it: Item)
    requires Describes(groups, items)
    requires Find(groups, it.key).Some?
    ensures Describes(Add(groups, it), items + [it])
  {
    var next := items + [it];
    var p := Find(groups, it.key).value;
    var r := Add(groups, it);
    assert r == groups[p := Bump(groups[p], it.result)];
    assert |r| == |groups| && forall i :: 0 <= i < |r| ==> r[i].key == groups[i].key;
    assert KeysDistinct(r);
    assert forall k :: Find(r, k).Some? <==> Count(next, k) > 0 by {
      forall k ensures Find(r, k).Some? <==> Count(next, k) > 0 {
        CountsOfAppend(items, it, k);
        SameKeysSameFind(r, groups, k);
      }
    }
    assert forall i :: 0 <= i < |r| ==> r[i] == GroupOf(next, r[i].key) by {
      forall i | 0 <= i < |r| ensures r[i] == GroupOf(next, r[i].key) {
        if i == p {
          BumpMatches(items, it, groups[p]);
        } else {
          OtherKeyUnchanged(items, it, groups[i]);
        }
      }
    }
  }

  /** Bumping the group of the step's key gives its group after the step. */
  lemma {:induction false} BumpMatches(items: seq<Item>, it: Item, g: Group)
    requires Count(items, it.key) > 0 && g == GroupOf(items, it.key)
    ensures Bump(g, it.result) == GroupOf(items + [it], it.key)
  {
    CountsOfAppend(items, it, it.key);
  }

  /** The group of any other key is unchanged by the step. */
  lemma {:induction false} OtherKeyUnchanged(items: seq<Item>, it: Item, g: Group)
    requires g.key != it.key && Count(items, g.key) > 0 && g == GroupOf(items, g.key)
    ensures g == GroupOf(items + [it], g.key)
  {
    CountsOfAppend(items, it, g.key);
  }

  /** Two group lists with the same key at every position have a group for
      the same keys. */
  lemma {:induction false} SameKeysSameFind(a: seq<Group>, b: seq<Group>, k: string)
    requires |a| == |b| && forall i :: 0 <= i < |a| ==> a[i].key == b[i].key
    ensures Find(a, k).Some? <==> Find(b, k).Some?
  {
    if Find(a, k).Some? {
      assert b[Find(a, k).value].key == k;
    }
    if Find(b, k).Some? {
      assert a[Find(b, k).value].key == k;
    }
  }

  /** A step on a new key appends its group and keeps the description exact. */
  lemma {:induction false} AddNewKeepsDescribes(groups: seq<Group>, items: seq<Item>, it: Item)
    requires Describes(groups, items)
    requires Find(groups, it.key).None?
    ensures Describes(Add(groups, it), items + [it])
  {
    var next := items + [it];
    var r := Add(groups, it);
    assert r == groups + [Bump(Group(it.key, it.title, 0, 0, 0), it.result)];
    assert Count(items, it.key) == 0;
    assert r[|groups|].key == it.key;
    assert KeysDistinct(r) by {
      forall i, j | 0 <= i < j < |r| ensures r[i].key != r[j].key {
        if j == |groups| {
          assert r[i] == groups[i];
        }
      }
    }
    assert forall i :: 0 <= i < |r| ==> r[i] == GroupOf(next, r[i].key) by {
      forall i | 0 <= i < |r| ensures r[i] == GroupOf(next, r[i].key) {
        if i < |groups| {
          assert r[i] == groups[i];
          OtherKeyUnchanged(items, it, groups[i]);
        } else {
          CountsOfAppend(items, it, it.key);
        }
      }
    }
    assert forall k :: Find(r, k).Some? <==> Count(next, k) > 0 by {
      forall k ensures Find(r, k).Some? <==> Count(next, k) > 0 {
        CountsOfAppend(items, it, k);
        if k == it.key {
          assert Find(r, k).Some?;
        } else {
          if Find(r, k).Some? {
            var q := Find(r, k).value;
            assert q < |groups| && groups[q].key == k;
          }
          if Find(groups, k).Some? {
            var q := Find(groups, k).value;
            assert r[q].key == k;
          }
        }
      }
    }
  }

  /** One step keeps the description exact. */
  lemma {:induction false} AddKeepsDescribes(groups: seq<Group>, items: seq<Item>, it: Item)
    requires Describes(groups, items)
    ensures Describes(Add(groups, it), items + [it])
  {
    if Find(groups, it.key).Some? {
      AddExistingKeepsDescribes(groups, items, it);
    } else {
      AddNewKeepsDescribes(groups, items, it);
    }
  }

  /** The pass describes its input exactly. */
  lemma {:induction false} GroupByDescribes(items: seq<Item>)
    ensures Describes(GroupBy(items), items)
  {
    if |items| > 0 {
      var init := items[..|items| - 1];
      GroupByDescribes(init);
      assert init + [items[|items| - 1]] == items;
      AddKeepsDescribes(GroupBy(init), init, items[|items| - 1]);
    }
  }

  /** Every group holds the reference counts of its key, keys are distinct,
      and exactly the keys that occur have a group. */
  lemma {:induction false} GroupByIsExact(items: seq<Item>, k: string)
    ensures var groups := GroupBy(items);
      && KeysDistinct(groups)
      && ((exists i :: 0 <= i < |groups| && groups[i].key == k) <==> Count(items, k) > 0)
      && (forall i :: 0 <= i < |groups| && groups[i].key == k ==> groups[i] == GroupOf(items, k))
  {
    GroupByDescribes(items);
    var groups := GroupBy(items);
    if Count(items, k) > 0 {
      var p := Find(groups, k).value;
      assert groups[p].key == k;
    }
  }

  // ---------------------------------------------------------------------------
  // Totals
  // ---------------------------------------------------------------------------

  function SumTotals(groups: seq<Group>): nat
  {
    if |groups| == 0 then 0 else groups[0].total + SumTotals(groups[1..])
  }

  lemma {:induction false} SumTotalsAppend(groups: seq<Group>, g: Group)
    ensures SumTotals(groups + [g]) == SumTotals(groups) + g.total
  {
    if |groups| > 0 {
      assert (groups + [g])[1..] == groups[1..] + [g];
      SumTotalsAppend(groups[1..], g);
    }
  }

  lemma {:induction false} SumTotalsUpdate(groups: seq<Group>, i: nat, g: Group)
    requires i < |groups|
    ensures SumTotals(groups[i := g]) == SumTotals(groups) - groups[i].total + g.total
  {
    if i == 0 {
      assert groups[i := g][1..] == groups[1..];
    } else {
      assert groups[i := g][1..] == groups[1..][i - 1 := g];
      SumTotalsUpdate(groups[1..], i - 1, g);
    }
  }

  /** Every match lands in exactly one group: the totals add up to the number
      of matches. */
  lemma {:induction false} TotalsAddUp(items: seq<Item>)
    ensures SumTotals(GroupBy(items)) == |items|
  {
    if |items| > 0 {
      var init := items[..|items| - 1];
      var it := items[|items| - 1];
      TotalsAddUp(init);
      var groups := GroupBy(init);
      match Find(groups, it.key)
      case Some(p) =>
        SumTotalsUpdate(groups, p, Bump(groups[p], it.result));
      case None =>
        SumTotalsAppend(groups, Bump(Group(it.key, it.title, 0, 0, 0), it.result));
    }
  }

  lemma {:induction false} SumTotalsConcat(a: seq<Group>, b: seq<Group>)
    ensures SumTotals(a + b) == SumTotals(a) + SumTotals(b)
  {
    if |a| == 0 {
      assert a + b == b;
    } else {
      assert (a + b)[1..] == a[1..] + b;
      SumTotalsConcat(a[1..], b);
    }
  }

  /** Reordering the groups does not change the sum of their totals. */
  lemma {:induction false} SumTotalsPermutation(xs: seq<Group>, ys: seq<Group>)
    requires multiset(xs) == multiset(ys)
    ensures SumTotals(xs) == SumTotals(ys)
    decreases |xs|
  {
    if |xs| > 0 {
      var x := xs[0];
      assert x in multiset(ys);
      var k :| 0 <= k < |ys| && ys[k] == x;
      var rest := ys[..k] + ys[k + 1..];
      SumTotalsRemove(ys, k);
      assert xs == [x] + xs[1..];
      assert multiset(xs[1..]) == multiset(xs) - multiset{x};
      SumTotalsPermutation(xs[1..], rest);
    }
  }

  /** Taking one group out of a list removes its total from the sum. */
  lemma {:induction false} SumTotalsRemove(ys: seq<Group>, k: nat)
    requires k < |ys|
    ensures var rest := ys[..k] + ys[k + 1..];
      && SumTotals(ys) == ys[k].total + SumTotals(rest)
      && multiset(rest) == multiset(ys) - multiset{ys[k]}
  {
    var x := ys[k];
    assert ys == ys[..k] + [x] + ys[k + 1..];
    SumTotalsConcat(ys[..k] + [x], ys[k + 1..]);
    SumTotalsConcat(ys[..k], [x]);
    SumTotalsConcat(ys[..k], ys[k + 1..]);
    assert SumTotals([x]) == x.total by {
      assert [x][1..] == [];
    }
    assert multiset(ys) == multiset(ys[..k]) + multiset{x} + multiset(ys[k + 1..]);
  }

  /** Reordering keeps keys distinct. */
  lemma {:induction false} PermutationKeepsKeysDistinct(xs: seq<Group>, ys: seq<Group>)
    requires KeysDistinct(xs) && multiset(xs) == multiset(ys)
    ensures KeysDistinct(ys)
  {
    forall i, j | 0 <= i < j < |ys| ensures ys[i].key != ys[j].key {
      if ys[i].key == ys[j].key {
        assert ys[i] in multiset(xs) && ys[j] in multiset(xs);
        var a :| 0 <= a < |xs| && xs[a] == ys[i];
        var b :| 0 <= b < |xs| && xs[b] == ys[j];
        if a == b {
          RepeatCountsTwice(ys, i, j);
          TwiceCountedRepeats(xs, ys[i]);
        }
      }
    }
  }

  /** The groups of `items` in any order: still one group per key that occurs
      and none for other keys, each with its reference counts, and totals
      adding up to the number of items. */
  lemma {:induction false} RearrangedIsExact(items: seq<Item>, r: seq<Group>, k: string)
    requires multiset(r) == multiset(GroupBy(items))
    ensures KeysDistinct(r)
    ensures (exists i :: 0 <= i < |r| && r[i].key == k) <==> Count(items, k) > 0
    ensures forall i :: 0 <= i < |r| && r[i].key == k ==> r[i] == GroupOf(items, k)
    ensures SumTotals(r) == |items|
  {
    var groups := GroupBy(items);
    GroupByDescribes(items);
    TotalsAddUp(items);
    SumTotalsPermutation(r, groups);
    PermutationKeepsKeysDistinct(groups, r);
    forall i | 0 <= i < |r| ensures r[i] == GroupOf(items, r[i].key) {
      assert r[i] in multiset(groups);
      var j :| 0 <= j < |groups| && groups[j] == r[i];
    }
    if Count(items, k) > 0 {
      var p := Find(groups, k).value;
      assert groups[p] in multiset(r);
      var q :| 0 <= q < |r| && r[q] == groups[p];
    }
    if exists i :: 0 <= i < |r| && r[i].key == k {
      var i :| 0 <= i < |r| && r[i].key == k;
      assert r[i] in multiset(groups);
      var j :| 0 <= j < |groups| && groups[j] == r[i];
      assert Find(groups, k).Some?;
    }
  }

  /** A key that occurs has a group wherever the groups were moved. */
  lemma {:induction false} RearrangedHasKey(items: seq<Item>, r: seq<Group>, k: string)
    requires multiset(r) == multiset(GroupBy(items))
    requires Count(items, k) > 0
    ensures exists i :: 0 <= i < |r| && r[i].key == k
  {
    RearrangedIsExact(items, r, k);
  }

  /** Every item's key is counted. */
  lemma {:induction false} CountPositive(items: seq<Item>, i: nat)
    requires i < |items|
    ensures Count(items, items[i].key) > 0
  {
    if i < |items| - 1 {
      var init := items[..|items| - 1];
      assert init[i] == items[i];
      CountPositive(init, i);
    }
  }

  /** Two items under different keys make at least two groups, in any
      order. */
  lemma {:induction false} TwoKeysTwoGroups(items: seq<Item>, r: seq<Group>, a: nat, b: nat)
    requires multiset(r) == multiset(GroupBy(items))
    requires a < |items| && b < |items| && items[a].key != items[b].key
    ensures |r| >= 2
  {
    var ka, kb := items[a].key, items[b].key;
    assert exists i :: 0 <= i < |r| && r[i].key == ka by {
      CountPositive(items, a);
      RearrangedHasKey(items, r, ka);
    }
    assert exists j :: 0 <= j < |r| && r[j].key == kb by {
      CountPositive(items, b);
      RearrangedHasKey(items, r, kb);
    }
    var i :| 0 <= i < |r| && r[i].key == ka;
    var j :| 0 <= j < |r| && r[j].key == kb;
    assert i != j;
  }

  /** Wins and losses never exceed the group's total. */
  lemma {:induction false} DecidedWithinTotal(items: seq<Item>, k: string)
    ensures CountResult(items, k, "W") + CountResult(items, k, "L") <= Count(items, k)
    decreases |items|
  {
    if |items| > 0 {
      DecidedWithinTotal(items[..|items| - 1], k);
    }
  }

  // ---------------------------------------------------------------------------
  // The plain-object map as written
  // ---------------------------------------------------------------------------

  /** The names a plain JavaScript object `{}` inherits from
      `Object.prototype`. Looking one of them up finds an inherited function
      (or, for `__proto__`, the prototype object), which is truthy. */
  const ObjectPrototypeKeys: set<string> := {
    "constructor", "hasOwnProperty", "isPrototypeOf", "propertyIsEnumerable",
    "toLocaleString", "toString", "valueOf", "__proto__",
    "__defineGetter__", "__defineSetter__", "__lookupGetter__", "__lookupSetter__"}

  /** One step of `forEach` on a plain-object map: for an inherited key,
      `!map[k]` is false, so no group is created, and the counters are bumped
      on the inherited value, which `Object.values` / `Object.keys` never
      list. */
  function JsAdd(groups: seq<Group>, it: Item): seq<Group>
  {
    if it.key in ObjectPrototypeKeys then groups else Add(groups, it)
  }

  function JsGroupBy(items: seq<Item>): seq<Group>
  {
    if |items| == 0 then []
    else JsAdd(JsGroupBy(items[..|items| - 1]), items[|items| - 1])
  }

  /** The plain-object pass agrees with the intended one as long as no key is
      an inherited name. */
  lemma {:induction false} JsGroupByAgreesWithoutInheritedKeys(items: seq<Item>)
    requires forall i :: 0 <= i < |items| ==> items[i].key !in ObjectPrototypeKeys
    ensures JsGroupBy(items) == GroupBy(items)
  {
    if |items| > 0 {
      JsGroupByAgreesWithoutInheritedKeys(items[..|items| - 1]);
    }
  }

  /** A single match against an opponent called `constructor` disappears:
      no group, and totals that add up to 0 instead of 1. */
  lemma {:induction false} InheritedKeyLosesMatch(result: Option<string>)
    ensures var items := [Item("constructor", Some("constructor"), result)];
      && JsGroupBy(items) == []
      && SumTotals(JsGroupBy(items)) == 0
      && SumTotals(GroupBy(items)) == |items| == 1
  {
    var items := [Item("constructor", Some("constructor"), result)];
    assert items[..0] == [];
    TotalsAddUp(items);
  }
}
