/** The history table of `ui/components/match-table.js`: the result and deck
    filters of `_render`, the empty-list row, and the cells `_rowHTML` and
    `_resultBadge` fill in. Colours come from the page's style sheet and are
    an input; the date cell is left out. */
module MatchTable {
  import opened Wrappers
  import opened Strings
  import opened JsValues
  import Html
  import Models
  import Api
  import Tally

  // ---------------------------------------------------------------------------
  // Filters
  // ---------------------------------------------------------------------------

  /** The filter callback of `_render`: a result filter other than `'all'`
      rejects a different result, and a deck filter other than `''` rejects a
      match whose `String(m.deck_id)` differs. */
  predicate Passes(m: Models.Match, filterResult: string, filterDeck: string)
  {
    && !(filterResult != "all" && m.result != Some(filterResult))
    && !(filterDeck != "" && NumberText(m.deckId) != filterDeck)
  }

  /** `matches.filter(...)` with the callback above, in order. */
  function Filter(matches: seq<Models.Match>, filterResult: string, filterDeck: string): (r: seq<Models.Match>)
    ensures |r| <= |matches|
    ensures forall i :: 0 <= i < |r| ==> Passes(r[i], filterResult, filterDeck)
  {
    if |matches| == 0 then []
    else
      var init := matches[..|matches| - 1];
      var last := matches[|matches| - 1];
      Filter(init, filterResult, filterDeck) + (if Passes(last, filterResult, filterDeck) then [last] else [])
  }

  /** Every passing match is kept as often as it occurs, every other one
      dropped. */
  lemma {:induction false} FilterKeepsExactlyThePassing(matches: seq<Models.Match>, filterResult: string, filterDeck: string)
    ensures forall m :: multiset(Filter(matches, filterResult, filterDeck))[m] ==
                       if Passes(m, filterResult, filterDeck) then multiset(matches)[m] else 0
  {
    if |matches| > 0 {
      var init := matches[..|matches| - 1];
      var last := matches[|matches| - 1];
      assert matches == init + [last];
      FilterKeepsExactlyThePassing(init, filterResult, filterDeck);
    }
  }

  lemma {:induction false} FilterStep(matches: seq<Models.Match>, filterResult: string, filterDeck: string)
    requires |matches| > 0
    ensures var last := matches[|matches| - 1];
      Filter(matches, filterResult, filterDeck) ==
        Filter(matches[..|matches| - 1], filterResult, filterDeck) + (if Passes(last, filterResult, filterDeck) then [last] else [])
  {
  }

  /** Filtering distributes over concatenation, so it keeps the matches'
      order: the output is a subsequence of the input. */
  lemma {:induction false} FilterConcat(a: seq<Models.Match>, b: seq<Models.Match>, filterResult: string, filterDeck: string)
    ensures Filter(a + b, filterResult, filterDeck) == Filter(a, filterResult, filterDeck) + Filter(b, filterResult, filterDeck)
    decreases |b|
  {
    if |b| == 0 {
      assert a + b == a;
    } else {
      var init := b[..|b| - 1];
      var last := b[|b| - 1];
      assert (a + b)[..|a + b| - 1] == a + init;
      assert (a + b)[|a + b| - 1] == last;
      var tail := if Passes(last, filterResult, filterDeck) then [last] else [];
      FilterStep(a + b, filterResult, filterDeck);
      FilterStep(b, filterResult, filterDeck);
      FilterConcat(a, init, filterResult, filterDeck);
      var fa, fi := Filter(a, filterResult, filterDeck), Filter(init, filterResult, filterDeck);
      assert Filter(a + b, filterResult, filterDeck) == (fa + fi) + tail;
      assert Filter(b, filterResult, filterDeck) == fi + tail;
      assert (fa + fi) + tail == fa + (fi + tail);
    }
  }

  /** With the filters at `'all'` and `''` every match is listed, in order. */
  lemma {:induction false} NoFilterListsAll(matches: seq<Models.Match>)
    ensures Filter(matches, "all", "") == matches
  {
    if |matches| > 0 {
      NoFilterListsAll(matches[..|matches| - 1]);
      assert matches == matches[..|matches| - 1] + [matches[|matches| - 1]];
    }
  }

  /** The deck filter holds the printed id of a deck, so it selects exactly
      the matches of that deck; a match without a deck (`"null"`) never
      passes it. */
  lemma {:induction false} DeckFilterSelectsDeck(m: Models.Match, filterResult: string, id: int)
    ensures Passes(m, filterResult, IntToString(id)) <==>
      (filterResult == "all" || m.result == Some(filterResult)) && m.deckId == Some(id)
  {
    NumberTextMatches(m.deckId, id);
  }

  /** A result filter other than `'all'` selects exactly that result; a match
      whose result is `null` is listed only under `'all'`. */
  lemma {:induction false} ResultFilterSelectsResult(m: Models.Match, filterResult: string)
    requires filterResult != "all"
    ensures Passes(m, filterResult, "") <==> m.result == Some(filterResult)
    ensures m.result.None? ==> !Passes(m, filterResult, "")
  {
  }

  // ---------------------------------------------------------------------------
  // Cells
  // ---------------------------------------------------------------------------

  /** `_decksMap`, filled from the deck list in order: a later deck with the
      same id overwrites an earlier one. */
  function DecksMap(decks: seq<Api.Deck>): (r: map<int, string>)
    ensures forall i :: 0 <= i < |decks| ==> decks[i].id in r
    ensures forall id :: id in r ==> exists i :: 0 <= i < |decks| && decks[i].id == id && r[id] == decks[i].name
  {
    if |decks| == 0 then map[]
    else
      var init := decks[..|decks| - 1];
      var last := decks[|decks| - 1];
      var before := DecksMap(init);
      var r := before[last.id := last.name];
      forall id | id in r ensures exists i :: 0 <= i < |decks| && decks[i].id == id && r[id] == decks[i].name {
        if id != last.id {
          var i :| 0 <= i < |init| && init[i].id == id && before[id] == init[i].name;
          assert decks[i] == init[i];
        } else {
          assert decks[|decks| - 1] == last;
        }
      }
      forall i | 0 <= i < |decks| ensures decks[i].id in r {
        if i < |init| {
          assert decks[i] == init[i];
        }
      }
      r
  }

  /** The deck cell: `'—'` for a falsy `deck_id` (`null` or `0`); for any
      other id the mapped name when it is non-empty, else `'#'` and the id. */
  function DeckCell(deckId: Option<int>, decksMap: map<int, string>): (r: string)
    ensures !TruthyNumber(deckId) ==> r == "—"
    ensures TruthyNumber(deckId) && deckId.value in decksMap && decksMap[deckId.value] != "" ==> r == decksMap[deckId.value]
    ensures TruthyNumber(deckId) && (deckId.value !in decksMap || decksMap[deckId.value] == "") ==> r == "#" + IntToString(deckId.value)
  {
    if !TruthyNumber(deckId) then "—"
    else
      var id := deckId.value;
      var name := if id in decksMap then Some(decksMap[id]) else None;
      if Truthy(name) then name.value else "#" + IntToString(id)
  }

  /** A match filed under a deck that the loaded list holds, with a non-blank
      name and a non-zero id, shows that deck's name; the `'#'` fallback is
      shown only for ids no loaded deck carries (or an unnamed one). */
  lemma {:induction false} LoadedDeckShowsItsName(decks: seq<Api.Deck>, i: nat)
    requires i < |decks| && decks[i].id != 0 && decks[i].name != ""
    requires forall j :: 0 <= j < |decks| && decks[j].id == decks[i].id ==> j == i
    ensures DeckCell(Some(decks[i].id), DecksMap(decks)) == decks[i].name
  {
    var m := DecksMap(decks);
    var j :| 0 <= j < |decks| && decks[j].id == decks[i].id && m[decks[i].id] == decks[j].name;
  }

  /** The page's four result colours. */
  datatype Palette = Palette(win: string, loss: string, unknown: string, neutral: string)

  /** What ends up after `color:` in the badge's style: a colour string, or
      a member `colorMap` inherits from `Object.prototype` (a function, or
      the prototype itself for `__proto__`), which is written out as its
      string form. */
  datatype Colour = Css(value: string) | Inherited(member: string)

  datatype Badge = Badge(color: Colour, text: string)

  /** The results the page has a colour for. */
  const KnownResults: set<string> := {"W", "L", "D", "?"}

  /** `colorMap[result]` on the plain object literal: the colour for `W`,
      `L`, `D` and `?`; the inherited member for a name `Object.prototype`
      carries; `undefined` (`None`) for anything else, `null` included. */
  function ColorOf(p: Palette, result: Option<string>): Option<Colour>
  {
    if result == Some("W") then Some(Css(p.win))
    else if result == Some("L") then Some(Css(p.loss))
    else if result == Some("D") then Some(Css(p.unknown))
    else if result == Some("?") then Some(Css(p.neutral))
    else if result.Some? && result.value in Tally.ObjectPrototypeKeys then Some(Inherited(result.value))
    else None
  }

  /** `colorMap[result] || colorMap['?']`: `undefined` and an empty colour
      string are falsy; an inherited member is truthy. */
  function OrNeutral(c: Option<Colour>, p: Palette): Colour
  {
    match c
    case Some(Css(v)) => if v != "" then Css(v) else Css(p.neutral)
    case Some(Inherited(k)) => Inherited(k)
    case None => Css(p.neutral)
  }

  /** `_resultBadge`: the colour of the result, or the `'?'` colour when the
      result has none (or an empty one); the text is `result || '?'`,
      escaped. A result named like a member of `Object.prototype` picks up
      that member instead of a colour. */
  function ResultBadge(p: Palette, result: Option<string>): (r: Badge)
    ensures r.text == Html.Esc(Or(result, "?"))
    ensures r.text != ""
    ensures (result.None? || result.value !in KnownResults + Tally.ObjectPrototypeKeys) ==> r.color == Css(p.neutral)
    ensures result.Some? && result.value in Tally.ObjectPrototypeKeys ==> r.color == Inherited(result.value)
    ensures result.Some? && result.value in KnownResults ==>
      r.color == if ColorOf(p, result).value.value != "" then ColorOf(p, result).value else Css(p.neutral)
  {
    Html.EscIsCharwise(Or(result, "?"));
    EscapeNonEmpty(Or(result, "?"));
    BadgeColour(p, result);
    Badge(OrNeutral(ColorOf(p, result), p), Html.Esc(Or(result, "?")))
  }

  lemma {:induction false} BadgeColour(p: Palette, result: Option<string>)
    ensures var c := OrNeutral(ColorOf(p, result), p);
      && ((result.None? || result.value !in KnownResults + Tally.ObjectPrototypeKeys) ==> c == Css(p.neutral))
      && (result.Some? && result.value in Tally.ObjectPrototypeKeys ==> c == Inherited(result.value))
      && (result.Some? && result.value in KnownResults ==>
            c == if ColorOf(p, result).value.value != "" then ColorOf(p, result).value else Css(p.neutral))
  {
    ColoredResults(p, result);
  }

  /** Exactly the four known results have a colour entry of their own, and
      exactly the names `Object.prototype` carries find an inherited one. */
  lemma {:induction false} ColoredResults(p: Palette, result: Option<string>)
    ensures ColorOf(p, result).Some? <==> result.Some? && result.value in KnownResults + Tally.ObjectPrototypeKeys
    ensures (ColorOf(p, result).Some? && ColorOf(p, result).value.Css?) <==> result.Some? && result.value in KnownResults
  {
    if result.Some? && result.value in KnownResults {
      assert result.value == "W" || result.value == "L" || result.value == "D" || result.value == "?";
    }
    assert KnownResults !! Tally.ObjectPrototypeKeys;
  }

  /** A result called `constructor` gets no palette colour: the badge's
      colour is the inherited constructor function. The column is free text;
      the edit select offers only W, L, D and ?, so such a value comes from a
      direct `update_match_field` call or from the database file itself. */
  lemma {:induction false} InheritedResultHasNoColour(p: Palette)
    ensures ResultBadge(p, Some("constructor")).color == Inherited("constructor")
    ensures ResultBadge(p, Some("constructor")).color != Css(p.neutral)
  {
    assert "constructor" in Tally.ObjectPrototypeKeys;
  }

  /** The badge as `_resultBadge` evidently means it, with an own-property
      lookup (`colorMap.hasOwnProperty(result)`): every result gets one of
      the palette's colours. */
  function SafeResultBadge(p: Palette, result: Option<string>): (r: Badge)
    ensures r.text == Html.Esc(Or(result, "?"))
    ensures r.color.Css? && r.color.value in {p.win, p.loss, p.unknown, p.neutral}
    ensures (result.None? || result.value !in KnownResults) ==> r.color == Css(p.neutral)
  {
    var own := if result.Some? && result.value in KnownResults then ColorOf(p, result) else None;
    Badge(OrNeutral(own, p), Html.Esc(Or(result, "?")))
  }

  /** The corrected badge agrees with `_resultBadge` on every result that is
      not the name of an inherited member, W, L, D and `?` included. */
  lemma {:induction false} SafeBadgeAgrees(p: Palette, result: Option<string>)
    ensures (result.None? || result.value !in Tally.ObjectPrototypeKeys) ==>
      SafeResultBadge(p, result) == ResultBadge(p, result)
  {
  }

  lemma {:induction false} EscapeNonEmpty(s: string)
    requires s != ""
    ensures Html.Escape(s, true) != ""
  {
  }

  /** One table row: the match id and the texts of its cells. */
  datatype Row = Row(id: nat, badge: Badge, deck: string, opponent: string, firstPlayer: string)

  function RowOf(m: Models.Match, p: Palette, decksMap: map<int, string>): Row
  {
    Row(m.id, SafeResultBadge(p, m.result), Html.Esc(DeckCell(m.deckId, decksMap)),
        Html.Esc(Or(m.opponent, "?")), Html.Esc(Or(m.firstPlayer, "?")))
  }

  /** The table body: the single "Aucun match" row, or one row per match. */
  datatype Body = NoMatches | Rows(rows: seq<Row>)

  /** `_render`: the filtered matches, or the empty-list row when none pass. */
  function Render(matches: seq<Models.Match>, filterResult: string, filterDeck: string,
                  p: Palette, decks: seq<Api.Deck>): (r: Body)
    ensures r.NoMatches? <==> forall i :: 0 <= i < |matches| ==> !Passes(matches[i], filterResult, filterDeck)
    ensures r.Rows? ==> |r.rows| == |Filter(matches, filterResult, filterDeck)| > 0
    ensures r.Rows? ==> forall i :: 0 <= i < |r.rows| ==> r.rows[i].id == Filter(matches, filterResult, filterDeck)[i].id
  {
    var shown := Filter(matches, filterResult, filterDeck);
    FilterKeepsExactlyThePassing(matches, filterResult, filterDeck);
    if |shown| == 0 then
      forall i | 0 <= i < |matches| ensures !Passes(matches[i], filterResult, filterDeck) {
        assert matches[i] in multiset(matches);
      }
      NoMatches
    else
      assert shown[0] in multiset(shown);
      var decksMap := DecksMap(decks);
      Rows(seq(|shown|, i requires 0 <= i < |shown| => RowOf(shown[i], p, decksMap)))
  }
}
