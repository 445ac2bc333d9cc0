/** The per-season comparison table of `ui/components/season-stats.js`:
    matches grouped by season, seasons newest-named first, the matches
    without a season last, and the table hidden unless there are at least two
    groups. */
module SeasonStats {
  import opened Wrappers
  import opened JsValues
  import opened StringOrder
  import opened Sorting
  import opened Tally
  import Models

  /** The key of the matches without a season. */
  const NoSeasonKey: string := "__none__"

  /** `m.season || '__none__'` */
  function SeasonKey(m: Models.Match): string
  {
    Or(m.season, NoSeasonKey)
  }

  /** `m.season || null`: the season a group created for `m` shows. */
  function SeasonTitle(m: Models.Match): Option<string>
  {
    if Truthy(m.season) then m.season else None
  }

  function Items(matches: seq<Models.Match>): (r: seq<Item>)
    ensures |r| == |matches|
    ensures forall i :: 0 <= i < |matches| ==> r[i] == Item(SeasonKey(matches[i]), SeasonTitle(matches[i]), matches[i].result)
  {
    seq(|matches|, i requires 0 <= i < |matches| => Item(SeasonKey(matches[i]), SeasonTitle(matches[i]), matches[i].result))
  }

  /** The season of a group as a sort key (only consulted for groups that
      have one). */
  function SeasonOf(g: Group): string
  {
    g.title.GetOr("")
  }

  /** The groups that have a season, in order. */
  function Seasoned(groups: seq<Group>): (r: seq<Group>)
    ensures forall i :: 0 <= i < |r| ==> r[i].title.Some?
  {
    if |groups| == 0 then []
    else (if groups[0].title.Some? then [groups[0]] else []) + Seasoned(groups[1..])
  }

  /** The groups without a season, in order. */
  function Unseasoned(groups: seq<Group>): (r: seq<Group>)
    ensures forall i :: 0 <= i < |r| ==> r[i].title.None?
  {
    if |groups| == 0 then []
    else (if groups[0].title.None? then [groups[0]] else []) + Unseasoned(groups[1..])
  }

  /** Together the two parts hold every group once. */
  lemma {:induction false} PartsMakeTheWhole(groups: seq<Group>)
    ensures multiset(Seasoned(groups)) + multiset(Unseasoned(groups)) == multiset(groups)
  {
    if |groups| > 0 {
      PartsMakeTheWhole(groups[1..]);
      assert groups == [groups[0]] + groups[1..];
    }
  }

  /** The groups with a season, descending by season. */
  function SortedSeasons(groups: seq<Group>): (r: seq<Group>)
    ensures Descending(r, SeasonOf)
    ensures multiset(r) == multiset(Seasoned(groups))
    ensures forall i :: 0 <= i < |r| ==> r[i].title.Some?
  {
    var part := Seasoned(groups);
    var r := SortByDescending(part, SeasonOf);
    forall i | 0 <= i < |r| ensures r[i].title.Some? {
      assert r[i] in multiset(part);
    }
    r
  }

  /** The rows as the comparator orders them: groups with a season,
      descending by season, then the group without one. */
  function Rows(matches: seq<Models.Match>): (r: seq<Group>)
    ensures multiset(r) == multiset(GroupBy(Items(matches)))
  {
    var groups := GroupBy(Items(matches));
    PartsMakeTheWhole(groups);
    SortedSeasons(groups) + Unseasoned(groups)
  }

  /** `rows.length < 2` hides the table. */
  predicate Visible(matches: seq<Models.Match>)
  {
    |Rows(matches)| >= 2
  }

  // ---------------------------------------------------------------------------
  // Properties
  // ---------------------------------------------------------------------------

  /** A group's season is the season of the first match filed under it. */
  lemma {:induction false} FirstTitleIsAnItemTitle(items: seq<Item>, k: string)
    requires Count(items, k) > 0
    ensures exists i :: 0 <= i < |items| && items[i].key == k && items[i].title == FirstTitle(items, k)
  {
    var init := items[..|items| - 1];
    if Count(init, k) > 0 {
      FirstTitleIsAnItemTitle(init, k);
      var i :| 0 <= i < |init| && init[i].key == k && init[i].title == FirstTitle(init, k);
      assert items[i] == init[i];
    } else {
      assert items[|items| - 1].key == k;
    }
  }

  /** Every group's season, when it has one, is its key; a group without one
      is the `'__none__'` group. */
  lemma {:induction false} TitleMatchesKey(matches: seq<Models.Match>, g: Group)
    requires g in multiset(GroupBy(Items(matches)))
    ensures g.title.Some? ==> g.title.value == g.key
    ensures g.title.None? ==> g.key == NoSeasonKey
  {
    var items := Items(matches);
    var groups := GroupBy(items);
    GroupByDescribes(items);
    var p :| 0 <= p < |groups| && groups[p] == g;
    assert Find(groups, g.key).Some?;
    FirstTitleIsAnItemTitle(items, g.key);
  }

  /** Groups with a season come strictly newest-named first (no two share a
      season), and only the last row may lack a season. */
  lemma {:induction false} RowsAreOrdered(matches: seq<Models.Match>)
    ensures var r := Rows(matches);
      && (forall i, j :: 0 <= i < j < |r| && r[j].title.Some? ==> Less(r[j].title.value, r[i].title.value))
      && (forall i :: 0 <= i < |r| && r[i].title.None? ==> i == |r| - 1)
  {
    var r := Rows(matches);
    forall i, j | 0 <= i < j < |r| && r[j].title.Some? ensures Less(r[j].title.value, r[i].title.value) {
      SeasonsDescend(matches, i, j);
    }
    forall i | 0 <= i < |r| && r[i].title.None? ensures i == |r| - 1 {
      NoSeasonIsLast(matches, i);
    }
  }

  lemma {:induction false} SeasonsDescend(matches: seq<Models.Match>, i: nat, j: nat)
    requires i < j < |Rows(matches)| && Rows(matches)[j].title.Some?
    ensures Less(Rows(matches)[j].title.value, Rows(matches)[i].title.value)
  {
    var r := Rows(matches);
    var groups := GroupBy(Items(matches));
    var s := SortedSeasons(groups);
    assert r == s + Unseasoned(groups);
    assert j < |s|;
    assert r[i] == s[i] && r[j] == s[j];
    assert r[i] in multiset(r) && r[j] in multiset(r);
    TitleMatchesKey(matches, r[i]);
    TitleMatchesKey(matches, r[j]);
    DistinctRows(matches, i, j);
    assert LessEq(SeasonOf(s[j]), SeasonOf(s[i]));
  }

  lemma {:induction false} NoSeasonIsLast(matches: seq<Models.Match>, i: nat)
    requires i < |Rows(matches)| && Rows(matches)[i].title.None?
    ensures i == |Rows(matches)| - 1
  {
    var r := Rows(matches);
    var groups := GroupBy(Items(matches));
    var s := SortedSeasons(groups);
    assert r == s + Unseasoned(groups);
    if i < |r| - 1 {
      assert i >= |s|;
      assert r[i] in multiset(r) && r[|r| - 1] in multiset(r);
      TitleMatchesKey(matches, r[i]);
      TitleMatchesKey(matches, r[|r| - 1]);
      DistinctRows(matches, i, |r| - 1);
    }
  }

  lemma {:induction false} DistinctRows(matches: seq<Models.Match>, i: nat, j: nat)
    requires i < j < |Rows(matches)|
    ensures Rows(matches)[i].key != Rows(matches)[j].key
  {
    RearrangedIsExact(Items(matches), Rows(matches), "");
  }

  /** Every match is in exactly one row: the totals add up to the number of
      matches, and each row counts its season's matches, wins and losses. */
  lemma {:induction false} RowsAreExact(matches: seq<Models.Match>, k: string)
    ensures var r := Rows(matches);
      && SumTotals(r) == |matches|
      && ((exists i :: 0 <= i < |r| && r[i].key == k) <==> Count(Items(matches), k) > 0)
      && (forall i :: 0 <= i < |r| && r[i].key == k ==>
            r[i].total == Count(Items(matches), k)
            && r[i].wins == CountResult(Items(matches), k, "W")
            && r[i].losses == CountResult(Items(matches), k, "L"))
  {
    RearrangedIsExact(Items(matches), Rows(matches), k);
  }

  /** Two matches filed under different seasons show the table. */
  lemma {:induction false} TwoSeasonsAreVisible(matches: seq<Models.Match>, a: nat, b: nat)
    requires a < |matches| && b < |matches| && SeasonKey(matches[a]) != SeasonKey(matches[b])
    ensures Visible(matches)
  {
    var items := Items(matches);
    assert items[a].key != items[b].key;
    TwoKeysTwoGroups(items, Rows(matches), a, b);
  }

  /** All matches in one season (or none): the table stays hidden. */
  lemma {:induction false} OneSeasonIsHidden(matches: seq<Models.Match>, k: string)
    requires forall i :: 0 <= i < |matches| ==> SeasonKey(matches[i]) == k
    ensures !Visible(matches)
  {
    var items := Items(matches);
    var r := Rows(matches);
    if |r| >= 2 {
      RearrangedIsExact(items, r, r[0].key);
      RearrangedIsExact(items, r, r[1].key);
      OnlyKey(items, k, r[0].key);
      OnlyKey(items, k, r[1].key);
    }
  }

  lemma {:induction false} OnlyKey(items: seq<Item>, k: string, other: string)
    requires forall i :: 0 <= i < |items| ==> items[i].key == k
    requires Count(items, other) > 0
    ensures other == k
  {
    var init := items[..|items| - 1];
    if Count(init, other) > 0 {
      OnlyKey(init, k, other);
    }
  }
}
