/** The update check of `tracker/updater.py`: version comparison and the
    decision whether a fetched release is reported. The HTTP request and the
    JSON decoding are inputs: the decoded response body, or `None` when the
    request or the decoding raised. */
module Updater {
  import opened Wrappers
  import opened Strings
  import Json

  /** Only this many dot-separated components take part in a comparison. */
  const Components: nat := 3

  /** `v.lstrip("v").split(".")[:3]` */
  function Pieces(v: string): (r: seq<string>)
    ensures 1 <= |r| <= Components
    ensures forall i :: 0 <= i < |r| ==> '.' !in r[i]
    ensures r <= Split(LStrip(v, 'v'), '.')
    ensures |r| == if |Split(LStrip(v, 'v'), '.')| <= Components then |Split(LStrip(v, 'v'), '.')| else Components
  {
    var all := Split(LStrip(v, 'v'), '.');
    if |all| <= Components then all else all[..Components]
  }

  /** `int(x)` on every piece, or `None` if any raises. */
  function ParseAll(ps: seq<string>): (r: Option<seq<nat>>)
    ensures r.Some? <==> forall i :: 0 <= i < |ps| ==> ParseNat(ps[i]).Some?
    ensures r.Some? ==> |r.value| == |ps|
    ensures r.Some? ==> forall i :: 0 <= i < |ps| ==> ParseNat(ps[i]) == Some(r.value[i])
  {
    if |ps| == 0 then Some([])
    else
      match (ParseNat(ps[0]), ParseAll(ps[1..]))
      case (Some(n), Some(ns)) =>
        assert forall i :: 1 <= i < |ps| ==> ps[i] == ps[1..][i - 1];
        Some([n] + ns)
      case (None, _) => None
      case (_, None) =>
        assert forall i :: 1 <= i < |ps| ==> ps[i] == ps[1..][i - 1];
        None
  }

  /** The integer tuple `parse(v)` builds, or `None` for the `ValueError`. */
  function ParseVersion(v: string): Option<seq<nat>>
  {
    ParseAll(Pieces(v))
  }

  /** Python's `<` on tuples of integers: the first differing component
      decides, and a proper prefix is smaller. */
  predicate TupleLess(a: seq<nat>, b: seq<nat>)
  {
    |b| > 0 && (|a| == 0 || a[0] < b[0] || (a[0] == b[0] && TupleLess(a[1..], b[1..])))
  }

  lemma {:induction false} TupleLessIrreflexive(a: seq<nat>)
    ensures !TupleLess(a, a)
  {
    if |a| > 0 {
      TupleLessIrreflexive(a[1..]);
    }
  }

  lemma {:induction false} TupleLessAsymmetric(a: seq<nat>, b: seq<nat>)
    ensures !(TupleLess(a, b) && TupleLess(b, a))
  {
    if |a| > 0 && |b| > 0 && a[0] == b[0] {
      TupleLessAsymmetric(a[1..], b[1..]);
    }
  }

  /** A tuple is older than any of its proper extensions. */
  lemma {:induction false} PrefixIsOlder(a: seq<nat>, more: seq<nat>)
    requires |more| > 0
    ensures TupleLess(a, a + more)
  {
    if |a| > 0 {
      assert (a + more)[1..] == a[1..] + more;
      PrefixIsOlder(a[1..], more);
    }
  }

  /** `_is_newer(latest, current)`: both parse and `latest`'s tuple is the
      greater; any parse failure makes the answer false. */
  function IsNewer(latest: string, current: string): (r: bool)
    ensures r ==> ParseVersion(latest).Some? && ParseVersion(current).Some?
    ensures r ==> TupleLess(ParseVersion(current).value, ParseVersion(latest).value)
    ensures (ParseVersion(latest).Some? && ParseVersion(current).Some?
      && TupleLess(ParseVersion(current).value, ParseVersion(latest).value)) ==> r
  {
    match (ParseVersion(latest), ParseVersion(current))
    case (Some(l), Some(c)) => TupleLess(c, l)
    case _ => false
  }

  /** No version is newer than itself. */
  lemma {:induction false} IsNewerIrreflexive(v: string)
    ensures !IsNewer(v, v)
  {
    if ParseVersion(v).Some? {
      TupleLessIrreflexive(ParseVersion(v).value);
    }
  }

  /** Two versions are never each newer than the other. */
  lemma {:induction false} IsNewerAsymmetric(a: string, b: string)
    ensures !(IsNewer(a, b) && IsNewer(b, a))
  {
    if ParseVersion(a).Some? && ParseVersion(b).Some? {
      TupleLessAsymmetric(ParseVersion(a).value, ParseVersion(b).value);
    }
  }

  /** Leading `v` characters, however many, do not matter. */
  lemma {:induction false} LeadingVIgnored(v: string)
    ensures LStrip("v" + v, 'v') == LStrip(v, 'v')
    ensures ParseVersion("v" + v) == ParseVersion(v)
  {
    assert ("v" + v)[1..] == v;
  }

  /** The dotted decimal form of a tuple of numbers. */
  function Print(ns: seq<nat>): (r: seq<string>)
    ensures |r| == |ns|
    ensures forall i :: 0 <= i < |ns| ==> r[i] == NatToString(ns[i])
  {
    seq(|ns|, i requires 0 <= i < |ns| => NatToString(ns[i]))
  }

  /** A version printed as up to three dot-separated decimal numbers
      parses back to those numbers. */
  lemma {:induction false} PrintedVersionParses(ns: seq<nat>)
    requires 1 <= |ns| <= Components
    ensures ParseVersion(Join(Print(ns), '.')) == Some(ns)
  {
    var parts := Print(ns);
    PrintedPiecesAreDigits(parts, ns);
    PiecesOfJoin(parts);
    PrintedPiecesParse(parts, ns);
  }

  lemma {:induction false} PrintedPiecesAreDigits(parts: seq<string>, ns: seq<nat>)
    requires parts == Print(ns)
    ensures forall i :: 0 <= i < |parts| ==> '.' !in parts[i] && |parts[i]| > 0 && 'v' != parts[i][0]
  {
    forall i | 0 <= i < |parts| ensures '.' !in parts[i] && |parts[i]| > 0 && 'v' != parts[i][0] {
      var p := NatToString(ns[i]);
      assert IsDigit(p[0]);
    }
  }

  lemma {:induction false} PrintedPiecesParse(parts: seq<string>, ns: seq<nat>)
    requires parts == Print(ns)
    ensures ParseAll(parts) == Some(ns)
  {
    forall i | 0 <= i < |ns| ensures ParseNat(parts[i]) == Some(ns[i]) {
      ParsePrinted(ns[i]);
    }
    var r := ParseAll(parts);
    assert r.value == ns;
  }

  /** Joining pieces that hold no dot and do not open with a `v`, then taking
      `Pieces`, gives back the first three of them. */
  lemma {:induction false} PiecesOfJoin(all: seq<string>)
    requires |all| > 0 && |all[0]| > 0 && all[0][0] != 'v'
    requires forall i :: 0 <= i < |all| ==> '.' !in all[i]
    ensures Pieces(Join(all, '.')) == if |all| <= Components then all else all[..Components]
  {
    var s := Join(all, '.');
    JoinStart(all, '.');
    assert LStrip(s, 'v') == s;
    SplitJoin(all, '.');
  }

  lemma {:induction false} JoinStart(parts: seq<string>, sep: char)
    requires |parts| > 0 && |parts[0]| > 0
    ensures |Join(parts, sep)| > 0 && Join(parts, sep)[0] == parts[0][0]
  {
  }

  /** Components after the third are never looked at, not even parsed. */
  lemma {:induction false} ExtraComponentsIgnored(ns: seq<nat>, extra: seq<string>)
    requires |ns| == Components
    requires forall i :: 0 <= i < |extra| ==> '.' !in extra[i]
    ensures ParseVersion(Join(Print(ns) + extra, '.')) == Some(ns)
  {
    var parts := Print(ns);
    var all := parts + extra;
    PrintedPiecesAreDigits(parts, ns);
    NoDotInConcat(parts, extra);
    assert all[0] == parts[0];
    PiecesOfJoin(all);
    assert all[..Components] == parts;
    var s := Join(all, '.');
    assert Pieces(s) == parts;
    PrintedPiecesParse(parts, ns);
    assert ParseVersion(s) == ParseAll(parts);
  }

  lemma {:induction false} NoDotInConcat(a: seq<string>, b: seq<string>)
    requires forall i :: 0 <= i < |a| ==> '.' !in a[i]
    requires forall i :: 0 <= i < |b| ==> '.' !in b[i]
    ensures forall i :: 0 <= i < |a + b| ==> '.' !in (a + b)[i]
  {
    forall i | 0 <= i < |a + b| ensures '.' !in (a + b)[i] {
      if i >= |a| {
        assert (a + b)[i] == b[i - |a|];
      }
    }
  }

  /** On printed versions `_is_newer` is exactly tuple comparison, so
      `1.10.0` is newer than `1.9.0` and `1.0.0` newer than `1.0`. */
  lemma {:induction false} IsNewerOnPrinted(latest: seq<nat>, current: seq<nat>)
    requires 1 <= |latest| <= Components && 1 <= |current| <= Components
    ensures IsNewer(Join(Print(latest), '.'), Join(Print(current), '.')) <==> TupleLess(current, latest)
  {
    PrintedVersionParses(latest);
    PrintedVersionParses(current);
  }

  /** What `check_for_update` reports. */
  datatype Update = Update(version: string, url: Json.Value)

  /** `check_for_update`. `response` is the decoded JSON body, `None` when
      the request or decoding raised. An update is reported exactly when the
      body is an object whose `tag_name` is a string that is non-empty once
      its leading `v`s are stripped, whose `html_url` is truthy, and whose
      stripped tag is newer than `current`; the version reported is the
      stripped tag. A non-string `tag_name` makes `lstrip` raise, which is
      swallowed like every other failure. */
  function CheckForUpdate(response: Option<Json.Value>, current: string): (r: Option<Update>)
    ensures r.Some? <==>
      && response.Some? && response.value.Obj?
      && "tag_name" in response.value.fields && response.value.fields["tag_name"].Str?
      && LStrip(response.value.fields["tag_name"].s, 'v') != ""
      && "html_url" in response.value.fields && Json.Truthy(response.value.fields["html_url"])
      && IsNewer(LStrip(response.value.fields["tag_name"].s, 'v'), current)
    ensures r.Some? ==> r.value.version == LStrip(response.value.fields["tag_name"].s, 'v')
    ensures r.Some? ==> r.value.url == response.value.fields["html_url"]
  {
    match response
    case None => None
    case Some(Obj(fields)) =>
      var rawTag := if "tag_name" in fields then fields["tag_name"] else Json.Str("");
      var url := if "html_url" in fields then fields["html_url"] else Json.Str("");
      if !rawTag.Str? then None
      else
        var tag := LStrip(rawTag.s, 'v');
        if tag != "" && Json.Truthy(url) && IsNewer(tag, current) then Some(Update(tag, url)) else None
    case Some(_) => None
  }

  /** A fetched release is never reported as an update to itself. */
  lemma {:induction false} SameReleaseIsNoUpdate(tag: string, url: Json.Value)
    ensures CheckForUpdate(Some(Json.Obj(map["tag_name" := Json.Str(tag), "html_url" := url])), LStrip(tag, 'v')).None?
  {
    IsNewerIrreflexive(LStrip(tag, 'v'));
  }
}
