/** The JSON configuration file of `tracker/config.py`. The file is an input:
    missing, present but not readable as JSON, or holding a decoded JSON
    value. Writing it is a step that succeeds, fails before anything is
    written, or fails half-way through the dump. */
module Config {
  import opened Wrappers
  import Json

  /** `CONFIG_DEFAULTS` */
  const Defaults: map<string, Json.Value> := map[
    "mumu_region" := Json.Null,
    "active_deck_id" := Json.Null,
    "active_season" := Json.Null,
    "theme" := Json.Str("ptcg-dark")]

  /** What `config.json` holds. */
  datatype FileState = Missing | Unreadable | Holds(content: Json.Value)

  /** `dict.update(loaded)` for a decoded object: its keys win. */
  function Merge(base: map<string, Json.Value>, over: map<string, Json.Value>): (r: map<string, Json.Value>)
    ensures forall k :: k in r <==> k in base || k in over
    ensures forall k :: k in over ==> r[k] == over[k]
    ensures forall k :: k in base && k !in over ==> r[k] == base[k]
  {
    map k | k in base.Keys + over.Keys :: if k in over then over[k] else base[k]
  }

  /** An element `dict.update` accepts from a sequence, when its key is a
      string: a two-element array whose first item is a string, or a
      two-character string, whose characters are the key and the value. */
  predicate IsPair(v: Json.Value)
  {
    || (v.Arr? && |v.items| == 2 && v.items[0].Str?)
    || (v.Str? && |v.s| == 2)
  }

  function PairKey(v: Json.Value): string
    requires IsPair(v)
  {
    if v.Arr? then v.items[0].s else [v.s[0]]
  }

  function PairValue(v: Json.Value): Json.Value
    requires IsPair(v)
  {
    if v.Arr? then v.items[1] else Json.Str([v.s[1]])
  }

  /** How many leading elements are pairs: `update` stores those and raises
      on the element after them. */
  function PairPrefix(items: seq<Json.Value>): (n: nat)
    ensures n <= |items|
    ensures forall i :: 0 <= i < n ==> IsPair(items[i])
    ensures n < |items| ==> !IsPair(items[n])
  {
    if |items| == 0 || !IsPair(items[0]) then 0
    else
      var n := PairPrefix(items[1..]);
      assert forall i :: 1 <= i < n + 1 ==> items[i] == items[1..][i - 1];
      n + 1
  }

  /** `dict.update(items)` for a decoded array: the pairs are stored one
      after the other until an element is not a pair; the exception that
      element raises is caught, and the pairs already stored stay. */
  function UpdatePairs(base: map<string, Json.Value>, items: seq<Json.Value>): (r: map<string, Json.Value>)
    ensures base.Keys <= r.Keys
    decreases |items|
  {
    if |items| == 0 || !IsPair(items[0]) then base
    else UpdatePairs(base[PairKey(items[0]) := PairValue(items[0])], items[1..])
  }

  /** The value the last of the first `n` pairs gives key `k`, scanning from
      the back; `None` when none of them has that key. */
  function LastPairValue(items: seq<Json.Value>, n: nat, k: string): Option<Json.Value>
    requires n <= |items| && forall i :: 0 <= i < n ==> IsPair(items[i])
  {
    if n == 0 then None
    else if PairKey(items[n - 1]) == k then Some(PairValue(items[n - 1]))
    else LastPairValue(items, n - 1, k)
  }

  /** Dropping the first pair: the later pairs win for their keys, and the
      first pair decides only a key no later pair has. */
  lemma {:induction false} LastPairValueOfTail(items: seq<Json.Value>, n: nat, k: string)
    requires 0 < n <= |items| && forall i :: 0 <= i < n ==> IsPair(items[i])
    ensures forall i :: 0 <= i < n - 1 ==> IsPair(items[1..][i])
    ensures LastPairValue(items, n, k) ==
      match LastPairValue(items[1..], n - 1, k)
      case Some(v) => Some(v)
      case None => if PairKey(items[0]) == k then Some(PairValue(items[0])) else None
  {
    assert forall i :: 0 <= i < n - 1 ==> items[1..][i] == items[i + 1];
    if n > 1 {
      LastPairValueOfTail(items, n - 1, k);
    }
  }

  /** Updating from an array is "the last pair wins": each key gets the
      value of the last of the stored pairs that carries it, and keeps its
      old value, if any, when none does. */
  lemma {:induction false} UpdatePairsLastWins(base: map<string, Json.Value>, items: seq<Json.Value>, k: string)
    ensures var r := UpdatePairs(base, items);
      match LastPairValue(items, PairPrefix(items), k)
      case Some(v) => k in r && r[k] == v
      case None => (k in r <==> k in base) && (k in base ==> r[k] == base[k])
    decreases |items|
  {
    if |items| > 0 && IsPair(items[0]) {
      var b' := base[PairKey(items[0]) := PairValue(items[0])];
      UpdatePairsLastWins(b', items[1..], k);
      assert PairPrefix(items) == PairPrefix(items[1..]) + 1;
      LastPairValueOfTail(items, PairPrefix(items), k);
    }
  }

  /** `get_all`: the defaults, then `update` with the decoded file. An
      object overrides key by key; an array stores its leading pairs in
      order, the last pair for a key winning. A missing file, a read or
      decode failure, and any other decoded value (on which `update` raises
      before storing anything) give the defaults alone. */
  function GetAll(file: FileState): (r: map<string, Json.Value>)
    ensures forall k :: k in Defaults ==> k in r
    ensures !(file.Holds? && (file.content.Obj? || file.content.Arr?)) ==> r == Defaults
    ensures file.Holds? && file.content.Obj? ==>
      (forall k :: k in r <==> k in Defaults || k in file.content.fields)
    ensures file.Holds? && file.content.Obj? ==>
      (forall k :: k in file.content.fields ==> r[k] == file.content.fields[k])
    ensures file.Holds? && file.content.Obj? ==>
      (forall k :: k in Defaults && k !in file.content.fields ==> r[k] == Defaults[k])
    ensures file.Holds? && file.content.Arr? && PairPrefix(file.content.items) == 0 ==> r == Defaults
  {
    match file
    case Holds(Obj(fields)) => Merge(Defaults, fields)
    case Holds(Arr(items)) => UpdatePairs(Defaults, items)
    case _ => Defaults
  }

  /** A key-value array such as `[["theme", "x"]]` sets the key, and a later
      element that is not a pair does not undo it. */
  lemma {:induction false} PairArraySetsKey(key: string, value: Json.Value, rest: seq<Json.Value>)
    ensures var file := Holds(Json.Arr([Json.Arr([Json.Str(key), value])] + rest));
      key in GetAll(file) && GetAll(file)[key] == (
        match LastPairValue(rest, PairPrefix(rest), key)
        case Some(v) => v
        case None => value)
  {
    var items := [Json.Arr([Json.Str(key), value])] + rest;
    assert items[1..] == rest;
    assert PairPrefix(items) == PairPrefix(rest) + 1;
    UpdatePairsLastWins(Defaults, items, key);
    LastPairValueOfTail(items, PairPrefix(items), key);
  }

  /** With no file there are exactly the four defaults. */
  lemma {:induction false} NoFileGivesDefaults()
    ensures GetAll(Missing) == Defaults
    ensures |GetAll(Missing).Keys| == 4
    ensures GetAll(Missing)["theme"] == Json.Str("ptcg-dark")
  {
    assert Defaults.Keys == {"mumu_region", "active_deck_id", "active_season", "theme"};
  }

  /** How the write in `save` goes. */
  datatype Write = Written | OpenFailed | DumpFailed

  /** `save`: `true` and the file holds the configuration when the write
      succeeds; `false` otherwise, never an exception. A failure before the
      file is opened leaves it as it was; a failure inside `json.dump`
      leaves the truncated, partly written file behind. */
  function Save(file: FileState, config: map<string, Json.Value>, write: Write): (r: (FileState, bool))
    ensures r.1 <==> write == Written
    ensures write == Written ==> r.0 == Holds(Json.Obj(config))
    ensures write == OpenFailed ==> r.0 == file
    ensures write == DumpFailed ==> r.0 == Unreadable
  {
    match write
    case Written => (Holds(Json.Obj(config)), true)
    case OpenFailed => (file, false)
    case DumpFailed => (Unreadable, false)
  }

  /** A successful save is read back: every saved key has its saved value,
      and the defaults fill in only what was not saved. */
  lemma {:induction false} SaveThenGetAll(file: FileState, config: map<string, Json.Value>)
    ensures var after := GetAll(Save(file, config, Written).0);
      && (forall k :: k in config ==> k in after && after[k] == config[k])
      && (forall k :: k in Defaults && k !in config ==> after[k] == Defaults[k])
  {
  }

  /** Saving what was read back changes nothing on the next read. */
  lemma {:induction false} SaveOfGetAllIsStable(file: FileState)
    ensures GetAll(Save(file, GetAll(file), Written).0) == GetAll(file)
  {
    var c := GetAll(file);
    var after := GetAll(Holds(Json.Obj(c)));
    assert forall k :: k in after <==> k in c;
  }

  /** A dump that fails half-way costs every saved setting: the next read
      gives the defaults alone, whatever the file held before. */
  lemma {:induction false} FailedDumpResetsToDefaults(file: FileState, config: map<string, Json.Value>)
    ensures GetAll(Save(file, config, DumpFailed).0) == Defaults
  {
  }
}
