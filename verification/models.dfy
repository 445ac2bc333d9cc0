/** The match queries of `tracker/db/models.py`, restated over an in-memory
    table: a sequence of rows plus the next id `AUTOINCREMENT` hands out.
    SQL `NULL` is `None`; a `WHERE column = ?` comparison with a `NULL` column
    is false. */
module Models {
  import opened Wrappers
  import opened StringOrder
  import opened Sorting

  /** `ALLOWED_MATCH_FIELDS`: the only columns `update_match_field` writes. */
  const AllowedMatchFields: set<string> := {"result", "opponent", "first_player", "season", "notes", "tags"}

  /** The default `save_match` puts in the three text fields it defaults. */
  const Unknown: string := "?"

  /** How many of the newest W/L results the current streak looks at. */
  const RecentLimit: nat := 50

  /** One row of the `matches` table. `captured_at` is `NOT NULL`. */
  datatype Match = Match(
    id: nat,
    deckId: Option<int>,
    result: Option<string>,
    opponent: Option<string>,
    firstPlayer: Option<string>,
    season: Option<string>,
    capturedAt: string,
    rawOcr: Option<string>,
    notes: Option<string>,
    tags: Option<string>)

  /** The `matches` table: its rows in storage order, and the id the next
      insert receives. */
  datatype Table = Table(rows: seq<Match>, nextId: nat)

  /** Ids are unique and every id is below the next one to be handed out. */
  ghost predicate Valid(t: Table)
  {
    && (forall i :: 0 <= i < |t.rows| ==> t.rows[i].id < t.nextId)
    && IdsDistinct(t.rows)
  }

  ghost predicate IdsDistinct(rows: seq<Match>)
  {
    forall i, j :: 0 <= i < j < |rows| ==> rows[i].id != rows[j].id
  }

  const Empty: Table := Table([], 1)

  /** A key of the dictionary passed to `save_match`: missing, or present
      with a value that may be `None`. */
  datatype Field<T> = Absent | Given(value: Option<T>)

  /** `d.get(key, default)`: the default applies only to a missing key. */
  function Get<T>(f: Field<T>, default: Option<T>): Option<T>
  {
    match f
    case Absent => default
    case Given(v) => v
  }

  datatype MatchInput = MatchInput(
    deckId: Field<int>,
    result: Field<string>,
    opponent: Field<string>,
    firstPlayer: Field<string>,
    season: Field<string>,
    capturedAt: Field<string>,
    rawOcr: Field<string>,
    notes: Field<string>,
    tags: Field<string>)

  datatype DbError = NotNullViolation(column: string)

  /** `save_match`: inserts one row and returns it. `result`, `opponent` and
      `first_player` default to `"?"` and `captured_at` to the clock's time
      stamp `now` only when the key is missing; an explicit `None` is stored
      as `NULL`, which the `NOT NULL` constraint on `captured_at` rejects. */
  function SaveMatch(t: Table, input: MatchInput, now: string): (r: Result<(Table, Match), DbError>)
    ensures r.Failure? <==> input.capturedAt == Given(None)
    ensures r.Success? ==> r.value.0.rows == t.rows + [r.value.1] && r.value.0.nextId == t.nextId + 1
    ensures r.Success? ==> r.value.1.id == t.nextId
    ensures r.Success? ==> (input.result.Absent? ==> r.value.1.result == Some(Unknown))
    ensures r.Success? ==> (input.result.Given? ==> r.value.1.result == input.result.value)
    ensures r.Success? ==> (input.opponent.Absent? ==> r.value.1.opponent == Some(Unknown))
    ensures r.Success? ==> (input.opponent.Given? ==> r.value.1.opponent == input.opponent.value)
    ensures r.Success? ==> (input.firstPlayer.Absent? ==> r.value.1.firstPlayer == Some(Unknown))
    ensures r.Success? ==> (input.firstPlayer.Given? ==> r.value.1.firstPlayer == input.firstPlayer.value)
    ensures r.Success? ==> (input.season.Absent? ==> r.value.1.season == None)
    ensures r.Success? ==> (input.capturedAt.Absent? ==> r.value.1.capturedAt == now)
    ensures r.Success? && input.capturedAt.Given? ==> Some(r.value.1.capturedAt) == input.capturedAt.value
  {
    match Get(input.capturedAt, Some(now))
    case None => Failure(NotNullViolation("captured_at"))
    case Some(at) =>
      var m := Match(
        t.nextId,
        Get(input.deckId, None),
        Get(input.result, Some(Unknown)),
        Get(input.opponent, Some(Unknown)),
        Get(input.firstPlayer, Some(Unknown)),
        Get(input.season, None),
        at,
        Get(input.rawOcr, None),
        Get(input.notes, None),
        Get(input.tags, None));
      Success((Table(t.rows + [m], t.nextId + 1), m))
  }

  /** Inserting keeps ids unique and below the next id. */
  lemma {:induction false} SaveMatchKeepsValid(t: Table, input: MatchInput, now: string)
    requires Valid(t)
    ensures SaveMatch(t, input, now).Success? ==> Valid(SaveMatch(t, input, now).value.0)
  {
  }

  /** The row filter of `get_matches` and `get_stats`: an absent filter keeps
      everything; a present one keeps equal, non-`NULL` values only. */
  predicate Passes(m: Match, season: Option<string>, deckId: Option<int>)
  {
    (season.None? || m.season == season) && (deckId.None? || m.deckId == deckId)
  }

  /** The rows passing both filters, in storage order. */
  function Keep(rows: seq<Match>, season: Option<string>, deckId: Option<int>): (r: seq<Match>)
    ensures forall m :: multiset(r)[m] == if Passes(m, season, deckId) then multiset(rows)[m] else 0
    ensures |r| <= |rows|
  {
    if |rows| == 0 then []
    else
      assert rows == [rows[0]] + rows[1..];
      var tail := Keep(rows[1..], season, deckId);
      if Passes(rows[0], season, deckId) then [rows[0]] + tail else tail
  }

  function CapturedAt(m: Match): string
  {
    m.capturedAt
  }

  /** `get_matches`: the rows passing both optional filters, newest
      `captured_at` first, each exactly as often as it is stored. */
  function GetMatches(t: Table, season: Option<string>, deckId: Option<int>): (r: seq<Match>)
    ensures Descending(r, CapturedAt)
    ensures forall m :: multiset(r)[m] == if Passes(m, season, deckId) then multiset(t.rows)[m] else 0
  {
    SortByDescending(Keep(t.rows, season, deckId), CapturedAt)
  }

  /** Without filters `get_matches` returns the whole table. */
  lemma {:induction false} UnfilteredGetMatchesIsTable(t: Table)
    ensures multiset(GetMatches(t, None, None)) == multiset(t.rows)
  {
    var r := GetMatches(t, None, None);
    assert forall m :: multiset(r)[m] == multiset(t.rows)[m];
  }

  /** A row just saved is among the unfiltered matches, once more than it
      was stored before. */
  lemma {:induction false} SavedMatchIsListed(t: Table, input: MatchInput, now: string)
    requires SaveMatch(t, input, now).Success?
    ensures var (t', m) := SaveMatch(t, input, now).value;
      && multiset(GetMatches(t', None, None))[m] == multiset(t.rows)[m] + 1
      && m in GetMatches(t', None, None)
  {
  }

  /** The non-`NULL` seasons of the rows, in storage order, with repeats. */
  function Seasons(rows: seq<Match>): (r: seq<string>)
    ensures forall s :: s in r <==> Some(s) in SeasonColumn(rows)
  {
    if |rows| == 0 then []
    else
      var tail := Seasons(rows[1..]);
      assert SeasonColumn(rows) == [rows[0].season] + SeasonColumn(rows[1..]);
      match rows[0].season
      case None => tail
      case Some(s) => [s] + tail
  }

  /** The `season` column, `NULL`s included. */
  function SeasonColumn(rows: seq<Match>): (r: seq<Option<string>>)
    ensures |r| == |rows|
    ensures forall i :: 0 <= i < |rows| ==> r[i] == rows[i].season
  {
    seq(|rows|, i requires 0 <= i < |rows| => rows[i].season)
  }

  /** `DISTINCT`: one copy of every element. */
  function Dedup(xs: seq<string>): (r: seq<string>)
    ensures forall x :: multiset(r)[x] == if x in xs then 1 else 0
  {
    if |xs| == 0 then []
    else
      var tail := Dedup(xs[1..]);
      assert xs == [xs[0]] + xs[1..];
      if xs[0] in xs[1..] then tail else [xs[0]] + tail
  }

  /** `get_seasons`: the distinct non-`NULL` seasons, strictly descending. */
  function GetSeasons(t: Table): (r: seq<string>)
    ensures forall s :: s in r <==> Some(s) in SeasonColumn(t.rows)
    ensures forall i, j :: 0 <= i < j < |r| ==> Less(r[j], r[i])
  {
    var r := SortByDescending(Dedup(Seasons(t.rows)), Itself);
    DistinctDescending(Seasons(t.rows), r);
    r
  }

  /** Any downward ordering of the distinct elements holds every element
      once, strictly descending. */
  lemma {:induction false} DistinctDescending(xs: seq<string>, r: seq<string>)
    requires multiset(r) == multiset(Dedup(xs)) && Descending(r, Itself)
    ensures forall s :: s in r <==> s in xs
    ensures forall i, j :: 0 <= i < j < |r| ==> Less(r[j], r[i])
  {
    forall s ensures s in r <==> s in xs {
      assert s in r <==> multiset(r)[s] > 0;
    }
    DescendingOnceIsStrict(r);
  }

  /** `delete_match`: removes the row with the given id, if any, and reports
      whether one was removed. Every other row stays, in order. */
  function DeleteMatch(t: Table, id: int): (r: (Table, bool))
    ensures r.1 <==> exists i :: 0 <= i < |t.rows| && t.rows[i].id == id
    ensures forall m :: m in r.0.rows <==> m in t.rows && m.id != id
    ensures r.0.rows == Without(t.rows, id)
    ensures r.0.nextId == t.nextId
    ensures |r.0.rows| <= |t.rows|
  {
    var kept := Without(t.rows, id);
    (Table(kept, t.nextId), |kept| < |t.rows|)
  }

  /** The rows whose id differs from `id`, in order. */
  function Without(rows: seq<Match>, id: int): (r: seq<Match>)
    ensures forall m :: m in r <==> m in rows && m.id != id
    ensures |r| < |rows| <==> exists i :: 0 <= i < |rows| && rows[i].id == id
    ensures |r| <= |rows|
    ensures forall i :: 0 <= i < |r| ==> r[i].id != id
  {
    if |rows| == 0 then []
    else
      var tail := Without(rows[1..], id);
      assert rows == [rows[0]] + rows[1..];
      assert forall i :: 1 <= i < |rows| ==> rows[i] == rows[1..][i - 1];
      if rows[0].id == id then tail else [rows[0]] + tail
  }

  /** Removal works row by row: on a concatenation it removes from each
      part and keeps the parts in order, so the rows that stay keep their
      relative order. */
  lemma {:induction false} WithoutConcat(a: seq<Match>, b: seq<Match>, id: int)
    ensures Without(a + b, id) == Without(a, id) + Without(b, id)
  {
    if |a| == 0 {
      assert a + b == b;
    } else {
      assert (a + b)[0] == a[0] && (a + b)[1..] == a[1..] + b;
      WithoutConcat(a[1..], b, id);
    }
  }

  /** On one row, removal drops it iff it carries the id. */
  lemma {:induction false} WithoutSingle(m: Match, id: int)
    ensures Without([m], id) == if m.id == id then [] else [m]
  {
    assert [m][1..] == [];
  }

  /** Deleting keeps the table valid, and a second delete of the same id
      finds nothing. */
  lemma {:induction false} DeleteMatchKeepsValid(t: Table, id: int)
    requires Valid(t)
    ensures Valid(DeleteMatch(t, id).0)
    ensures !DeleteMatch(DeleteMatch(t, id).0, id).1
  {
    var t' := DeleteMatch(t, id).0;
    WithoutKeepsDistinct(t.rows, id);
    forall i | 0 <= i < |t'.rows| ensures t'.rows[i].id < t'.nextId {
      assert t'.rows[i] in t.rows;
    }
  }

  lemma {:induction false} WithoutKeepsDistinct(rows: seq<Match>, id: int)
    requires IdsDistinct(rows)
    ensures IdsDistinct(Without(rows, id))
  {
    if |rows| > 0 {
      assert IdsDistinct(rows[1..]) by {
        forall i, j | 0 <= i < j < |rows[1..]| ensures rows[1..][i].id != rows[1..][j].id {
          assert rows[1..][i] == rows[i + 1] && rows[1..][j] == rows[j + 1];
        }
      }
      WithoutKeepsDistinct(rows[1..], id);
      if rows[0].id != id {
        var tail := Without(rows[1..], id);
        HeadIdNotInTail(rows);
        forall k | 0 <= k < |tail| ensures tail[k].id != rows[0].id {
          assert tail[k] in rows[1..];
        }
        ConsKeepsDistinct(rows[0], tail);
      }
    }
  }

  lemma {:induction false} HeadIdNotInTail(rows: seq<Match>)
    requires |rows| > 0 && IdsDistinct(rows)
    ensures forall m :: m in rows[1..] ==> m.id != rows[0].id
  {
    forall m | m in rows[1..] ensures m.id != rows[0].id {
      var p :| 0 <= p < |rows[1..]| && rows[1..][p] == m;
      assert rows[p + 1] == m;
    }
  }

  lemma {:induction false} ConsKeepsDistinct(m: Match, tail: seq<Match>)
    requires IdsDistinct(tail)
    requires forall k :: 0 <= k < |tail| ==> tail[k].id != m.id
    ensures IdsDistinct([m] + tail)
  {
    var r := [m] + tail;
    forall i, j | 0 <= i < j < |r| ensures r[i].id != r[j].id {
      assert r[j] == tail[j - 1];
      if i > 0 {
        assert r[i] == tail[i - 1];
      }
    }
  }

  /** The value of one of the editable columns. */
  function FieldOf(m: Match, field: string): Option<string>
    requires field in AllowedMatchFields
  {
    if field == "result" then m.result
    else if field == "opponent" then m.opponent
    else if field == "first_player" then m.firstPlayer
    else if field == "season" then m.season
    else if field == "notes" then m.notes
    else m.tags
  }

  /** `SET field = value` on one row. */
  function SetField(m: Match, field: string, value: string): Match
    requires field in AllowedMatchFields
  {
    if field == "result" then m.(result := Some(value))
    else if field == "opponent" then m.(opponent := Some(value))
    else if field == "first_player" then m.(firstPlayer := Some(value))
    else if field == "season" then m.(season := Some(value))
    else if field == "notes" then m.(notes := Some(value))
    else m.(tags := Some(value))
  }

  /** Setting a field changes that field and no other column. */
  lemma {:induction false} SetFieldChangesOnlyThatField(m: Match, field: string, other: string, value: string)
    requires field in AllowedMatchFields && other in AllowedMatchFields
    ensures FieldOf(SetField(m, field, value), field) == Some(value)
    ensures other != field ==> FieldOf(SetField(m, field, value), other) == FieldOf(m, other)
    ensures var m' := SetField(m, field, value);
      m'.id == m.id && m'.deckId == m.deckId && m'.capturedAt == m.capturedAt && m'.rawOcr == m.rawOcr
  {
  }

  /** `update_match_field`: a column outside the whitelist is refused and
      nothing changes; otherwise the row with that id, if any, gets the new
      value and the answer says whether such a row exists. */
  function UpdateMatchField(t: Table, id: int, field: string, value: string): (r: (Table, bool))
    ensures field !in AllowedMatchFields ==> r == (t, false)
    ensures field in AllowedMatchFields ==>
      (r.1 <==> exists i :: 0 <= i < |t.rows| && t.rows[i].id == id)
    ensures |r.0.rows| == |t.rows| && r.0.nextId == t.nextId
    ensures field in AllowedMatchFields ==> forall i :: 0 <= i < |t.rows| ==>
      r.0.rows[i] == if t.rows[i].id == id then SetField(t.rows[i], field, value) else t.rows[i]
  {
    if field !in AllowedMatchFields then (t, false)
    else
      var rows := seq(|t.rows|, i requires 0 <= i < |t.rows| =>
        if t.rows[i].id == id then SetField(t.rows[i], field, value) else t.rows[i]);
      (Table(rows, t.nextId), exists i :: 0 <= i < |t.rows| && t.rows[i].id == id)
  }

  /** An update keeps the ids, so it keeps the table valid. */
  lemma {:induction false} UpdateMatchFieldKeepsValid(t: Table, id: int, field: string, value: string)
    requires Valid(t)
    ensures Valid(UpdateMatchField(t, id, field, value).0)
  {
    var t' := UpdateMatchField(t, id, field, value).0;
    if field in AllowedMatchFields {
      assert forall i :: 0 <= i < |t.rows| ==> t'.rows[i].id == t.rows[i].id;
    }
  }

  // ---------------------------------------------------------------------------
  // Statistics
  // ---------------------------------------------------------------------------

  /** The number of rows whose result is `x`. */
  function CountResult(rows: seq<Match>, x: string): (r: nat)
    ensures r <= |rows|
  {
    if |rows| == 0 then 0
    else (if rows[0].result == Some(x) then 1 else 0) + CountResult(rows[1..], x)
  }

  /** No row is both a win and a loss, so the two counts fit in the total. */
  lemma {:induction false} WinsAndLossesFitInTotal(rows: seq<Match>)
    ensures CountResult(rows, "W") + CountResult(rows, "L") <= |rows|
  {
    if |rows| > 0 {
      WinsAndLossesFitInTotal(rows[1..]);
    }
  }

  /** The count only depends on how often each row occurs. */
  lemma {:induction false} CountResultOfMultiset(a: seq<Match>, b: seq<Match>, x: string)
    requires multiset(a) == multiset(b)
    ensures CountResult(a, x) == CountResult(b, x)
    decreases |a|
  {
    if |a| > 0 {
      assert a[0] in multiset(b);
      var k :| 0 <= k < |b| && b[k] == a[0];
      CountResultRemove(b, k, x);
      assert a == [a[0]] + a[1..];
      assert multiset(a[1..]) == multiset(a) - multiset{a[0]};
      CountResultOfMultiset(a[1..], b[..k] + b[k + 1..], x);
    }
  }

  /** Taking one row out of a list removes its contribution to the count. */
  lemma {:induction false} CountResultRemove(b: seq<Match>, k: nat, x: string)
    requires k < |b|
    ensures var rest := b[..k] + b[k + 1..];
      && CountResult(b, x) == (if b[k].result == Some(x) then 1 else 0) + CountResult(rest, x)
      && multiset(rest) == multiset(b) - multiset{b[k]}
  {
    assert b == b[..k] + ([b[k]] + b[k + 1..]);
    assert multiset(b) == multiset(b[..k]) + multiset{b[k]} + multiset(b[k + 1..]);
    CountResultSplit(b[..k], [b[k]] + b[k + 1..], x);
    CountResultSplit(b[..k], b[k + 1..], x);
    assert ([b[k]] + b[k + 1..])[1..] == b[k + 1..];
  }

  lemma {:induction false} CountResultSplit(a: seq<Match>, b: seq<Match>, x: string)
    ensures CountResult(a + b, x) == CountResult(a, x) + CountResult(b, x)
  {
    if |a| == 0 {
      assert a + b == b;
    } else {
      assert (a + b)[1..] == a[1..] + b;
      CountResultSplit(a[1..], b, x);
    }
  }

  /** The W/L results of the rows, in their order; other results are
      skipped (`result IN ('W', 'L')`). */
  function Decided(rows: seq<Match>): (r: seq<string>)
    ensures forall i :: 0 <= i < |r| ==> r[i] == "W" || r[i] == "L"
    ensures |r| == CountResult(rows, "W") + CountResult(rows, "L")
  {
    if |rows| == 0 then []
    else
      var tail := Decided(rows[1..]);
      if rows[0].result == Some("W") then ["W"] + tail
      else if rows[0].result == Some("L") then ["L"] + tail
      else tail
  }

  /** `xs[a..b]` is all wins. */
  ghost predicate WinRun(xs: seq<string>, a: int, b: int)
    requires 0 <= a <= b <= |xs|
  {
    forall k :: a <= k < b ==> xs[k] == "W"
  }

  /** The best-win-streak loop of `get_stats`: the length of the longest run
      of consecutive wins in the oldest-first W/L results, 0 without wins. */
  method BestWinStreak(results: seq<string>) returns (best: nat)
    ensures best <= |results|
    ensures exists a, b :: 0 <= a <= b <= |results| && b - a == best && WinRun(results, a, b)
    ensures forall a, b :: 0 <= a <= b <= |results| && WinRun(results, a, b) ==> b - a <= best
  {
    best := 0;
    var run: nat := 0;
    ghost var at: nat := 0;
    for i := 0 to |results|
      invariant run <= i && best <= i
      invariant WinRun(results, i - run, i)
      invariant forall a :: 0 <= a <= i && WinRun(results, a, i) ==> i - a <= run
      invariant run <= best
      invariant at + best <= i && WinRun(results, at, at + best)
      invariant forall a, b :: 0 <= a <= b <= i && WinRun(results, a, b) ==> b - a <= best
    {
      ghost var j := i + 1;
      if results[i] == "W" {
        run := run + 1;
        if run > best {
          best := run;
          at := i + 1 - run;
        }
        forall a | 0 <= a <= i && WinRun(results, a, j) ensures j - a <= run {
          assert WinRun(results, a, i);
        }
      } else {
        run := 0;
      }
      assert forall a :: 0 <= a <= j && WinRun(results, a, j) ==> j - a <= run;
      forall a, b | 0 <= a <= b <= j && WinRun(results, a, b) ensures b - a <= best {
        if b <= i {
          assert WinRun(results, a, b);
        }
      }
    }
    assert WinRun(results, at, at + best);
  }

  /** `kind` and `count` describe the head of the newest-first results
      `recent`: the newest result and the length of the run of equal results
      it opens, or `(None, 0)` when there is none. */
  ghost predicate IsHeadRun(recent: seq<string>, kind: Option<string>, count: nat)
  {
    if recent == [] then kind == None && count == 0
    else
      && kind == Some(recent[0]) && 1 <= count <= |recent|
      && (forall k :: 0 <= k < count ==> recent[k] == recent[0])
      && (count < |recent| ==> recent[count] != recent[0])
  }

  /** `best` is the length of the longest run of wins in `results`. */
  ghost predicate IsLongestWinRun(results: seq<string>, best: nat)
  {
    && (exists a, b :: 0 <= a <= b <= |results| && b - a == best && WinRun(results, a, b))
    && (forall a, b :: 0 <= a <= b <= |results| && WinRun(results, a, b) ==> b - a <= best)
  }

  /** `order` lists the rows `ORDER BY captured_at DESC` may return: all of
      them, newest first, ties in any order. */
  ghost predicate NewestFirst(rows: seq<Match>, order: seq<Match>)
  {
    multiset(order) == multiset(rows) && Descending(order, CapturedAt)
  }

  /** `order` lists the rows `ORDER BY captured_at ASC` may return. */
  ghost predicate OldestFirst(rows: seq<Match>, order: seq<Match>)
  {
    multiset(order) == multiset(rows) && Ascending(order, CapturedAt)
  }

  /** The current-streak loop of `get_stats` on the newest-first W/L
      results (already cut to `RecentLimit`): the newest result and the
      length of the run of equal results it opens; `(None, 0)` when there
      is none. */
  method CurrentStreak(recent: seq<string>) returns (kind: Option<string>, count: nat)
    ensures recent == [] ==> kind == None && count == 0
    ensures recent != [] ==> kind == Some(recent[0]) && 1 <= count <= |recent|
    ensures recent != [] ==> forall k :: 0 <= k < count ==> recent[k] == recent[0]
    ensures recent != [] && count < |recent| ==> recent[count] != recent[0]
  {
    kind := None;
    count := 0;
    if |recent| > 0 {
      kind := Some(recent[0]);
      var i := 0;
      while i < |recent|
        invariant 0 <= i <= |recent| && count == i
        invariant forall k :: 0 <= k < i ==> recent[k] == recent[0]
      {
        if recent[i] == recent[0] {
          count := count + 1;
        } else {
          break;
        }
        i := i + 1;
      }
    }
  }

  datatype Stats = Stats(
    total: nat,
    wins: nat,
    losses: nat,
    winrate: real,
    streakKind: Option<string>,
    streakCount: nat,
    bestWinStreak: nat)

  /** The win rate in percent over decided matches, 0 when there are none.
      The source rounds it to one decimal; the model keeps the exact ratio. */
  function Winrate(wins: nat, losses: nat): (r: real)
    ensures wins + losses == 0 ==> r == 0.0
    ensures wins + losses > 0 ==> r * (wins + losses) as real == 100.0 * wins as real
    ensures 0.0 <= r <= 100.0
  {
    if wins + losses > 0 then 100.0 * wins as real / (wins + losses) as real else 0.0
  }

  /** The first `n` elements, or all of them when there are fewer
      (`LIMIT n`). */
  function Take<T>(xs: seq<T>, n: nat): (r: seq<T>)
    ensures |r| == if |xs| < n then |xs| else n
    ensures r <= xs
  {
    if |xs| <= n then xs else xs[..n]
  }

  /** `get_stats` without the per-deck part: counts over the rows in the
      season filter (`None` is no filter), the exact win rate, the current
      streak over the newest 50 W/L results, and the best win streak over
      all of them, oldest first. */
  method GetStats(t: Table, season: Option<string>) returns (s: Stats)
    ensures var rows := Keep(t.rows, season, None);
      s.total == |rows| && s.wins == CountResult(rows, "W") && s.losses == CountResult(rows, "L")
    ensures s.wins + s.losses <= s.total
    ensures s.winrate == Winrate(s.wins, s.losses)
    ensures s.streakKind == None <==> s.wins + s.losses == 0
    ensures s.streakKind == None ==> s.streakCount == 0
    ensures s.streakKind != None ==> 1 <= s.streakCount <= RecentLimit
    ensures s.streakKind == Some("W") || s.streakKind == Some("L") || s.streakKind == None
    ensures s.bestWinStreak <= s.wins
    ensures exists newest :: (NewestFirst(Keep(t.rows, season, None), newest) &&
      IsHeadRun(Take(Decided(newest), RecentLimit), s.streakKind, s.streakCount))
    ensures exists oldest :: (OldestFirst(Keep(t.rows, season, None), oldest) &&
      IsLongestWinRun(Decided(oldest), s.bestWinStreak))
  {
    var rows := Keep(t.rows, season, None);
    var wins := CountResult(rows, "W");
    var losses := CountResult(rows, "L");
    WinsAndLossesFitInTotal(rows);
    var kind, count := RecentStreak(rows);
    var best := LongestWinStreak(rows);
    s := Stats(|rows|, wins, losses, Winrate(wins, losses), kind, count, best);
  }

  /** The current-streak query and loop of `get_stats`: the head run of the
      newest 50 W/L results, in an order `ORDER BY captured_at DESC` may
      return. */
  method RecentStreak(rows: seq<Match>) returns (kind: Option<string>, count: nat)
    ensures exists newest :: (NewestFirst(rows, newest) &&
      IsHeadRun(Take(Decided(newest), RecentLimit), kind, count))
    ensures kind == None <==> CountResult(rows, "W") + CountResult(rows, "L") == 0
    ensures kind == None ==> count == 0
    ensures kind != None ==> 1 <= count <= RecentLimit
    ensures kind == Some("W") || kind == Some("L") || kind == None
  {
    var newest := SortByDescending(rows, CapturedAt);
    var recent := Take(Decided(newest), RecentLimit);
    DecidedOfPermutation(rows, newest);
    kind, count := CurrentStreak(recent);
    assert NewestFirst(rows, newest) && IsHeadRun(recent, kind, count);
  }

  /** The best-streak query and loop of `get_stats`: the longest win run of
      the W/L results, in an order `ORDER BY captured_at ASC` may return. */
  method LongestWinStreak(rows: seq<Match>) returns (best: nat)
    ensures exists oldest :: (OldestFirst(rows, oldest) && IsLongestWinRun(Decided(oldest), best))
    ensures best <= CountResult(rows, "W")
  {
    var oldest := SortBy(rows, CapturedAt);
    var decided := Decided(oldest);
    DecidedOfPermutation(rows, oldest);
    best := BestWinStreak(decided);
    WinRunCountsWins(decided, oldest, best);
    assert OldestFirst(rows, oldest) && IsLongestWinRun(decided, best);
  }

  /** Reordering the rows does not change how many are W or L. */
  lemma {:induction false} DecidedOfPermutation(rows: seq<Match>, perm: seq<Match>)
    requires multiset(rows) == multiset(perm)
    ensures CountResult(perm, "W") == CountResult(rows, "W")
    ensures |Decided(perm)| == CountResult(rows, "W") + CountResult(rows, "L")
  {
    CountResultOfMultiset(rows, perm, "W");
    CountResultOfMultiset(rows, perm, "L");
  }

  /** A run of wins in the W/L results is no longer than the number of wins. */
  lemma {:induction false} WinRunCountsWins(decided: seq<string>, rows: seq<Match>, best: nat)
    requires decided == Decided(rows)
    requires exists a, b :: 0 <= a <= b <= |decided| && b - a == best && WinRun(decided, a, b)
    ensures best <= CountResult(rows, "W")
  {
    var a, b :| 0 <= a <= b <= |decided| && b - a == best && WinRun(decided, a, b);
    WinsInDecided(rows);
    WinRunAtMostCount(decided, a, b);
  }

  /** The number of `"W"` entries of a sequence of strings. */
  function CountW(xs: seq<string>): (r: nat)
    ensures r <= |xs|
  {
    if |xs| == 0 then 0 else (if xs[0] == "W" then 1 else 0) + CountW(xs[1..])
  }

  lemma {:induction false} WinsInDecided(rows: seq<Match>)
    ensures CountW(Decided(rows)) == CountResult(rows, "W")
  {
    if |rows| > 0 {
      WinsInDecided(rows[1..]);
      var tail := Decided(rows[1..]);
      if rows[0].result == Some("W") {
        assert (["W"] + tail)[1..] == tail;
      } else if rows[0].result == Some("L") {
        assert (["L"] + tail)[1..] == tail;
      }
    }
  }

  lemma {:induction false} WinRunAtMostCount(xs: seq<string>, a: nat, b: nat)
    requires a <= b <= |xs| && WinRun(xs, a, b)
    ensures b - a <= CountW(xs)
  {
    if a < b {
      assert xs[0] == "W" || a > 0;
      if a == 0 {
        assert WinRun(xs[1..], 0, b - 1) by {
          forall k | 0 <= k < b - 1 ensures xs[1..][k] == "W" {
            assert xs[k + 1] == "W";
          }
        }
        WinRunAtMostCount(xs[1..], 0, b - 1);
      } else {
        assert WinRun(xs[1..], a - 1, b - 1) by {
          forall k | a - 1 <= k < b - 1 ensures xs[1..][k] == "W" {
            assert xs[k + 1] == "W";
          }
        }
        WinRunAtMostCount(xs[1..], a - 1, b - 1);
      }
    }
  }
}
