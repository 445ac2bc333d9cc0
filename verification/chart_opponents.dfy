/** The opponents bar chart of `ui/components/chart-opponents.js`: wins and
    losses per opponent, the ten opponents with the most decided matches. The
    drawing itself is left out; what is modelled is the list of bars. */
module ChartOpponents {
  import opened Wrappers
  import opened Strings
  import opened JsValues
  import opened Sorting
  import opened Tally
  import Models

  /** How many bars the chart shows at most. */
  const TopLimit: nat := 10

  /** `(m.opponent || '?').trim()` */
  function OpponentKey(m: Models.Match): string
  {
    Strip(Or(m.opponent, "?"), JavaScript)
  }

  function Items(matches: seq<Models.Match>): (r: seq<Item>)
    ensures |r| == |matches|
    ensures forall i :: 0 <= i < |matches| ==>
      r[i] == Item(OpponentKey(matches[i]), Some(OpponentKey(matches[i])), matches[i].result)
  {
    seq(|matches|, i requires 0 <= i < |matches| =>
      Item(OpponentKey(matches[i]), Some(OpponentKey(matches[i])), matches[i].result))
  }

  /** One bar: `{ name, wins, losses, total: wins + losses }`. */
  datatype Entry = Entry(name: string, wins: nat, losses: nat, total: nat)

  /** The bar of an aggregated opponent; its total counts decided matches
      only. */
  function EntryOf(g: Group): Entry
  {
    Entry(g.key, g.wins, g.losses, g.wins + g.losses)
  }

  function Decided(g: Group): nat
  {
    g.wins + g.losses
  }

  /** All opponents, most decided matches first. */
  function Ranked(matches: seq<Models.Match>): (r: seq<Group>)
    ensures DescendingBy(r, Decided)
    ensures multiset(r) == multiset(GroupBy(Items(matches)))
  {
    SortByDescendingNumber(GroupBy(Items(matches)), Decided)
  }

  /** The first `TopLimit` groups of a ranking, as bars. */
  function Top(ranked: seq<Group>): (r: seq<Entry>)
    ensures |r| == if |ranked| < TopLimit then |ranked| else TopLimit
    ensures forall i :: 0 <= i < |r| ==> r[i] == EntryOf(ranked[i])
    ensures DescendingBy(ranked, Decided) ==>
      && (forall i, j :: 0 <= i < j < |r| ==> r[j].total <= r[i].total)
      && (forall i, j :: 0 <= i < |r| <= j < |ranked| ==> Decided(ranked[j]) <= r[i].total)
  {
    var n := if |ranked| < TopLimit then |ranked| else TopLimit;
    seq(n, i requires 0 <= i < n => EntryOf(ranked[i]))
  }

  /** The bars `_update` draws: the first `TopLimit` ranked opponents. Bars
      come in non-increasing order of total, and no opponent left off the
      chart has a larger total than one on it. */
  function Chart(matches: seq<Models.Match>): (r: seq<Entry>)
    ensures |r| <= TopLimit
    ensures |r| == if |Ranked(matches)| < TopLimit then |Ranked(matches)| else TopLimit
    ensures forall i :: 0 <= i < |r| ==> r[i] == EntryOf(Ranked(matches)[i])
    ensures forall i, j :: 0 <= i < j < |r| ==> r[j].total <= r[i].total
    ensures forall i, j :: 0 <= i < |r| <= j < |Ranked(matches)| ==> Decided(Ranked(matches)[j]) <= r[i].total
  {
    Top(Ranked(matches))
  }

  /** Each bar is exact: its wins and losses are the counts of `W` and `L`
      among the matches against that opponent, its total their sum, and no
      opponent has two bars. */
  lemma {:induction false} BarsAreExact(matches: seq<Models.Match>, k: string)
    ensures var r := Chart(matches);
      && (forall i, j :: 0 <= i < j < |r| ==> r[i].name != r[j].name)
      && (forall i :: 0 <= i < |r| && r[i].name == k ==>
            && r[i].wins == CountResult(Items(matches), k, "W")
            && r[i].losses == CountResult(Items(matches), k, "L")
            && r[i].total == r[i].wins + r[i].losses
            && Count(Items(matches), k) > 0)
  {
    var items := Items(matches);
    var ranked := Ranked(matches);
    var r := Chart(matches);
    assert KeysDistinct(ranked) && forall i :: 0 <= i < |ranked| && ranked[i].key == k ==> ranked[i] == GroupOf(items, k) && Count(items, k) > 0 by {
      RearrangedIsExact(items, ranked, k);
    }
    forall i | 0 <= i < |r| ensures r[i] == EntryOf(ranked[i]) && r[i].name == ranked[i].key {
    }
  }

  /** With at most `TopLimit` opponents every opponent that was played has a
      bar. */
  lemma {:induction false} FewOpponentsAreAllShown(matches: seq<Models.Match>, k: string)
    requires |Ranked(matches)| <= TopLimit
    requires Count(Items(matches), k) > 0
    ensures exists i :: 0 <= i < |Chart(matches)| && Chart(matches)[i].name == k
  {
    var ranked := Ranked(matches);
    RearrangedHasKey(Items(matches), ranked, k);
    var i :| 0 <= i < |ranked| && ranked[i].key == k;
    var c := Chart(matches);
    assert c[i] == EntryOf(ranked[i]);
  }

  /** No matches, no bars (the empty-state message); any match gives at least
      one bar. */
  lemma {:induction false} EmptyChartIffNoMatches(matches: seq<Models.Match>)
    ensures |Chart(matches)| == 0 <==> |matches| == 0
  {
    if |matches| > 0 {
      var k := OpponentKey(matches[0]);
      CountPositive(Items(matches), 0);
      RearrangedIsExact(Items(matches), Ranked(matches), k);
    } else {
      RearrangedIsExact(Items(matches), Ranked(matches), "?");
    }
  }
}
