/** The per-opponent tab and the matchup drill-down of
    `ui/components/detail-panel.js`, over the match rows the bridge hands the
    interface. */
module DetailPanel {
  import opened Wrappers
  import opened JsValues
  import opened Sorting
  import opened Tally
  import Models

  /** The group key `_computeOpponents` files a match under: the opponent
      when it is truthy and not `'?'`, `'?'` otherwise. */
  function OpponentKey(m: Models.Match): string
  {
    if Truthy(m.opponent) && m.opponent.value != "?" then m.opponent.value else "?"
  }

  /** The key is `m.opponent || '?'` under another spelling, and a missing or
      empty opponent is filed under `'?'`. */
  lemma {:induction false} OpponentKeyIsOpponentOrUnknown(m: Models.Match)
    ensures OpponentKey(m) == Or(m.opponent, "?")
    ensures !Truthy(m.opponent) ==> OpponentKey(m) == "?"
  {
  }

  /** The matches as the aggregation sees them. */
  function Items(matches: seq<Models.Match>): (r: seq<Item>)
    ensures |r| == |matches|
    ensures forall i :: 0 <= i < |matches| ==>
      r[i] == Item(OpponentKey(matches[i]), Some(OpponentKey(matches[i])), matches[i].result)
  {
    seq(|matches|, i requires 0 <= i < |matches| =>
      Item(OpponentKey(matches[i]), Some(OpponentKey(matches[i])), matches[i].result))
  }

  function Total(g: Group): nat
  {
    g.total
  }

  /** `_computeOpponents`: one row per opponent key, sorted by the number of
      matches, most played first. */
  function ComputeOpponents(matches: seq<Models.Match>): (r: seq<Group>)
    ensures DescendingBy(r, Total)
    ensures multiset(r) == multiset(GroupBy(Items(matches)))
  {
    SortByDescendingNumber(GroupBy(Items(matches)), Total)
  }

  // ---------------------------------------------------------------------------
  // Matchup view
  // ---------------------------------------------------------------------------

  /** `matches.filter(m => (m.opponent || '?') === opp)` */
  function Against(matches: seq<Models.Match>, opp: string): (r: seq<Models.Match>)
    ensures forall m :: multiset(r)[m] == if Or(m.opponent, "?") == opp then multiset(matches)[m] else 0
  {
    if |matches| == 0 then []
    else
      var init := matches[..|matches| - 1];
      var last := matches[|matches| - 1];
      assert matches == init + [last];
      Against(init, opp) + (if Or(last.opponent, "?") == opp then [last] else [])
  }

  /** `matches.filter(m => m.result === x)` */
  function WithResult(matches: seq<Models.Match>, x: string): (r: seq<Models.Match>)
    ensures forall m :: multiset(r)[m] == if m.result == Some(x) then multiset(matches)[m] else 0
  {
    if |matches| == 0 then []
    else
      var init := matches[..|matches| - 1];
      var last := matches[|matches| - 1];
      assert matches == init + [last];
      WithResult(init, x) + (if last.result == Some(x) then [last] else [])
  }

  datatype Matchup = Matchup(opponent: string, matches: seq<Models.Match>, wins: nat, losses: nat)

  /** The numbers `_matchupHTML` shows for the selected opponent
      (`_matchupOpponent || '?'`). */
  function MatchupOf(matches: seq<Models.Match>, selected: Option<string>): (r: Matchup)
    ensures r.opponent == Or(selected, "?")
    ensures r.wins == |WithResult(r.matches, "W")| && r.losses == |WithResult(r.matches, "L")|
    ensures r.wins + r.losses <= |r.matches|
    ensures multiset(r.matches) == multiset(Against(matches, r.opponent))
    ensures forall m :: m in r.matches <==> m in matches && Or(m.opponent, "?") == r.opponent
  {
    var opp := Or(selected, "?");
    var mine := Against(matches, opp);
    WinsAndLossesFit(mine);
    forall m ensures m in mine <==> m in matches && Or(m.opponent, "?") == opp {
      assert m in mine <==> multiset(mine)[m] > 0;
      assert m in matches <==> multiset(matches)[m] > 0;
    }
    Matchup(opp, mine, |WithResult(mine, "W")|, |WithResult(mine, "L")|)
  }

  lemma {:induction false} WinsAndLossesFit(matches: seq<Models.Match>)
    ensures |WithResult(matches, "W")| + |WithResult(matches, "L")| <= |matches|
  {
    if |matches| > 0 {
      WinsAndLossesFit(matches[..|matches| - 1]);
    }
  }

  lemma {:induction false} AgainstStep(matches: seq<Models.Match>, k: string)
    requires |matches| > 0
    ensures var last := matches[|matches| - 1];
      Against(matches, k) == Against(matches[..|matches| - 1], k) + (if Or(last.opponent, "?") == k then [last] else [])
  {
  }

  lemma {:induction false} WithResultStep(a: seq<Models.Match>, m: Models.Match, x: string)
    ensures WithResult(a + [m], x) == WithResult(a, x) + (if m.result == Some(x) then [m] else [])
  {
    assert (a + [m])[..|a|] == a;
  }

  lemma {:induction false} ItemsStep(matches: seq<Models.Match>)
    requires |matches| > 0
    ensures Items(matches)[..|matches| - 1] == Items(matches[..|matches| - 1])
  {
  }

  /** The aggregation's counts of key `k` are the sizes of the matchup
      filters for `k`. */
  lemma {:induction false} CountsAreFilterSizes(matches: seq<Models.Match>, k: string)
    ensures Count(Items(matches), k) == |Against(matches, k)|
    ensures CountResult(Items(matches), k, "W") == |WithResult(Against(matches, k), "W")|
    ensures CountResult(Items(matches), k, "L") == |WithResult(Against(matches, k), "L")|
  {
    if |matches| > 0 {
      var init := matches[..|matches| - 1];
      var last := matches[|matches| - 1];
      CountsAreFilterSizes(init, k);
      ItemsStep(matches);
      OpponentKeyIsOpponentOrUnknown(last);
      AgainstStep(matches, k);
      var a := Against(init, k);
      if Or(last.opponent, "?") == k {
        WithResultStep(a, last, "W");
        WithResultStep(a, last, "L");
      } else {
        assert Against(matches, k) == a;
      }
    }
  }

  /** Opening the matchup of a row of the opponents tab shows that row's
      numbers: as many matches as its total, and the same wins and losses. */
  lemma {:induction false} MatchupAgreesWithOpponentRow(matches: seq<Models.Match>, i: nat)
    requires i < |ComputeOpponents(matches)|
    ensures var g := ComputeOpponents(matches)[i];
      var v := MatchupOf(matches, Some(g.key));
      |v.matches| == g.total && v.wins == g.wins && v.losses == g.losses
  {
    var r := ComputeOpponents(matches);
    var g := r[i];
    RearrangedIsExact(Items(matches), r, g.key);
    CountsAreFilterSizes(matches, g.key);
    if g.key == "" {
      // Keys are never empty: an empty opponent is filed under '?'.
      assert Count(Items(matches), "") > 0;
      NoEmptyKey(matches);
    }
  }

  lemma {:induction false} NoEmptyKey(matches: seq<Models.Match>)
    ensures Count(Items(matches), "") == 0
  {
    if |matches| > 0 {
      var init := matches[..|matches| - 1];
      assert Items(matches)[..|matches| - 1] == Items(init);
      NoEmptyKey(init);
    }
  }

  /** The opponents tab in full: a row for an opponent key exactly when some
      match is filed under it, each key once, each row holding the number of
      its matches and its wins and losses, wins and losses within the total,
      and every match counted once overall. */
  lemma {:induction false} OpponentRowsAreExact(matches: seq<Models.Match>, k: string)
    ensures var r := ComputeOpponents(matches);
      && KeysDistinct(r)
      && ((exists i :: 0 <= i < |r| && r[i].key == k) <==> exists j :: 0 <= j < |matches| && OpponentKey(matches[j]) == k)
      && (forall i :: 0 <= i < |r| && r[i].key == k ==>
            && r[i].total == |Against(matches, k)|
            && r[i].wins == |WithResult(Against(matches, k), "W")|
            && r[i].losses == |WithResult(Against(matches, k), "L")|
            && r[i].wins + r[i].losses <= r[i].total)
      && SumTotals(r) == |matches|
  {
    var r := ComputeOpponents(matches);
    RearrangedIsExact(Items(matches), r, k);
    CountsAreFilterSizes(matches, k);
    DecidedWithinTotal(Items(matches), k);
    CountIsOccurrence(matches, k);
  }

  lemma {:induction false} CountIsOccurrence(matches: seq<Models.Match>, k: string)
    ensures Count(Items(matches), k) > 0 <==> exists j :: 0 <= j < |matches| && OpponentKey(matches[j]) == k
  {
    if |matches| > 0 {
      var init := matches[..|matches| - 1];
      assert Items(matches)[..|matches| - 1] == Items(init);
      CountIsOccurrence(init, k);
      if exists j :: 0 <= j < |matches| && OpponentKey(matches[j]) == k {
        var j :| 0 <= j < |matches| && OpponentKey(matches[j]) == k;
        if j < |init| {
          assert init[j] == matches[j];
        }
      }
      if exists j :: 0 <= j < |init| && OpponentKey(init[j]) == k {
        var j :| 0 <= j < |init| && OpponentKey(init[j]) == k;
        assert matches[j] == init[j];
      }
    }
  }
}
