/** The start-up backup of `tracker/backup.py`: copy the database into the
    backup directory under a time-stamped name, then prune the oldest
    backups so that at most `MaxBackups` remain. The file system is an
    input: whether the database exists, the names in the backup directory,
    whether the copy succeeds, and after how many removals (if any) a removal
    fails. Names are compared as bare file names; the source sorts them
    with the same directory prefix in front, which does not change their
    order. */
module Backup {
  import opened Wrappers
  import opened Strings
  import opened StringOrder
  import opened Sorting

  /** `MAX_BACKUPS` */
  const MaxBackups: nat := 5

  const Prefix: string := "tracker_"
  const Suffix: string := ".db"

  /** Only these names are ever considered for pruning. */
  predicate IsCandidate(name: string)
  {
    StartsWith(name, Prefix) && EndsWith(name, Suffix)
  }

  // ---------------------------------------------------------------------------
  // Time-stamped names
  // ---------------------------------------------------------------------------

  /** The clock reading `datetime.now()` at second resolution. */
  datatype Timestamp = Timestamp(year: nat, month: nat, day: nat, hour: nat, minute: nat, second: nat)

  /** A date-time whose fields all fit their zero-padded widths; four-digit
      years only. */
  predicate WellFormed(t: Timestamp)
  {
    1000 <= t.year <= 9999 && 1 <= t.month <= 12 && 1 <= t.day <= 31
    && t.hour < 24 && t.minute < 60 && t.second < 60
  }

  /** Earlier-than on date-times: year first, then month, and so on. */
  predicate Earlier(a: Timestamp, b: Timestamp)
  {
    a.year < b.year || (a.year == b.year &&
    (a.month < b.month || (a.month == b.month &&
    (a.day < b.day || (a.day == b.day &&
    (a.hour < b.hour || (a.hour == b.hour &&
    (a.minute < b.minute || (a.minute == b.minute && a.second < b.second)))))))))
  }

  function Pow10(w: nat): (r: nat)
    ensures r >= 1
  {
    if w == 0 then 1 else 10 * Pow10(w - 1)
  }

  /** `n` written with exactly `width` decimal digits, zero-padded on the
      left (the `%Y`, `%m`, ... directives). */
  function Pad(n: nat, width: nat): (r: string)
    ensures |r| == width
    ensures AllDigits(r)
  {
    if width == 0 then "" else Pad(n / 10, width - 1) + [DigitChar(n % 10)]
  }

  /** One field followed by its separator and the rest of the stamp. */
  function Field(n: nat, width: nat, sep: char, rest: string): string
  {
    Pad(n, width) + [sep] + rest
  }

  /** `strftime("%Y-%m-%d_%H-%M-%S")` */
  function Stamp(t: Timestamp): (r: string)
    ensures |r| == 19
  {
    Field(t.year, 4, '-', Field(t.month, 2, '-', Field(t.day, 2, '_',
      Field(t.hour, 2, '-', Field(t.minute, 2, '-', Pad(t.second, 2))))))
  }

  /** `f"tracker_{timestamp}.db"` */
  function BackupName(t: Timestamp): (r: string)
    ensures IsCandidate(r)
  {
    var r := Prefix + Stamp(t) + Suffix;
    assert r[..|Prefix|] == Prefix;
    assert r[|r| - |Suffix|..] == Suffix;
    r
  }

  lemma {:induction false} AppendCharEq(x: string, c: char, y: string, d: char)
    requires |x| == |y|
    ensures x + [c] == y + [d] <==> x == y && c == d
  {
    if x + [c] == y + [d] {
      assert x == (x + [c])[..|x|] && y == (y + [d])[..|y|];
      assert c == (x + [c])[|x|] && d == (y + [d])[|y|];
    }
  }

  /** Fixed-width zero-padded numbers compare as strings the way they compare
      as numbers, and print alike only when equal. */
  lemma {:induction false} PadOrder(a: nat, b: nat, w: nat)
    requires a < Pow10(w) && b < Pow10(w)
    ensures Less(Pad(a, w), Pad(b, w)) <==> a < b
    ensures Pad(a, w) == Pad(b, w) <==> a == b
  {
    if w > 0 {
      PadOrder(a / 10, b / 10, w - 1);
      var ha, hb := Pad(a / 10, w - 1), Pad(b / 10, w - 1);
      var ca, cb := DigitChar(a % 10), DigitChar(b % 10);
      LessOfConcat(ha, [ca], hb, [cb]);
      AppendCharEq(ha, ca, hb, cb);
      assert Less([ca], [cb]) <==> ca < cb by {
        assert [ca][1..] == [] && [cb][1..] == [];
        LessIrreflexive([]);
      }
      assert ca < cb <==> a % 10 < b % 10;
      assert ca == cb <==> a % 10 == b % 10;
      assert a == 10 * (a / 10) + a % 10;
      assert b == 10 * (b / 10) + b % 10;
    } else {
      LessIrreflexive("");
    }
  }

  /** Stamps compare field by field. */
  lemma {:induction false} FieldOrder(a: nat, b: nat, w: nat, sep: char, ra: string, rb: string)
    requires a < Pow10(w) && b < Pow10(w)
    ensures Less(Field(a, w, sep, ra), Field(b, w, sep, rb)) <==> a < b || (a == b && Less(ra, rb))
    ensures Field(a, w, sep, ra) == Field(b, w, sep, rb) <==> a == b && ra == rb
  {
    PadOrder(a, b, w);
    var pa, pb := Pad(a, w) + [sep], Pad(b, w) + [sep];
    LessOfConcat(Pad(a, w), [sep], Pad(b, w), [sep]);
    LessIrreflexive([sep]);
    AppendCharEq(Pad(a, w), sep, Pad(b, w), sep);
    LessOfConcat(pa, ra, pb, rb);
    if pa + ra == pb + rb {
      assert pa == (pa + ra)[..|pa|] && pb == (pb + rb)[..|pb|];
      assert ra == (pa + ra)[|pa|..] && rb == (pb + rb)[|pb|..];
    }
  }

  /** For well-formed time stamps the name order is the time order. */
  lemma {:induction false} StampOrder(a: Timestamp, b: Timestamp)
    requires WellFormed(a) && WellFormed(b)
    ensures Less(Stamp(a), Stamp(b)) <==> Earlier(a, b)
    ensures Stamp(a) == Stamp(b) <==> a == b
  {
    assert Pow10(2) == 100 && Pow10(4) == 10000;
    PadOrder(a.second, b.second, 2);
    FieldOrder(a.minute, b.minute, 2, '-', Pad(a.second, 2), Pad(b.second, 2));
    var ma, mb := Field(a.minute, 2, '-', Pad(a.second, 2)), Field(b.minute, 2, '-', Pad(b.second, 2));
    FieldOrder(a.hour, b.hour, 2, '-', ma, mb);
    var ha, hb := Field(a.hour, 2, '-', ma), Field(b.hour, 2, '-', mb);
    FieldOrder(a.day, b.day, 2, '_', ha, hb);
    var da, db := Field(a.day, 2, '_', ha), Field(b.day, 2, '_', hb);
    FieldOrder(a.month, b.month, 2, '-', da, db);
    var oa, ob := Field(a.month, 2, '-', da), Field(b.month, 2, '-', db);
    FieldOrder(a.year, b.year, 4, '-', oa, ob);
  }

  /** New backup names sort in the order their time stamps were taken, so
      "lexicographically greatest" means "most recent". */
  lemma {:induction false} NameOrderIsChronological(a: Timestamp, b: Timestamp)
    requires WellFormed(a) && WellFormed(b)
    ensures Less(BackupName(a), BackupName(b)) <==> Earlier(a, b)
    ensures BackupName(a) == BackupName(b) <==> a == b
  {
    StampOrder(a, b);
    var sa, sb := Stamp(a), Stamp(b);
    LessIrreflexive(Prefix);
    LessIrreflexive(Suffix);
    assert BackupName(a) == Prefix + (sa + Suffix);
    assert BackupName(b) == Prefix + (sb + Suffix);
    LessOfConcat(Prefix, sa + Suffix, Prefix, sb + Suffix);
    LessOfConcat(sa, Suffix, sb, Suffix);
    if BackupName(a) == BackupName(b) {
      assert sa == BackupName(a)[|Prefix|..|Prefix| + 19];
      assert sb == BackupName(b)[|Prefix|..|Prefix| + 19];
    }
  }

  // ---------------------------------------------------------------------------
  // Pruning
  // ---------------------------------------------------------------------------

  /** The candidate names among `names`, in their order. */
  function Candidates(names: seq<string>): (r: seq<string>)
    ensures forall x :: multiset(r)[x] == if IsCandidate(x) then multiset(names)[x] else 0
  {
    if |names| == 0 then []
    else
      assert names == [names[0]] + names[1..];
      var tail := Candidates(names[1..]);
      if IsCandidate(names[0]) then [names[0]] + tail else tail
  }

  /** The directory listing after the copy: the new name joins the old ones
      unless a backup taken in the same second already has it. */
  function Listing(existing: seq<string>, dest: string): (r: seq<string>)
    ensures forall x :: x in r <==> x in existing || x == dest
    ensures (forall x :: multiset(existing)[x] <= 1) ==> forall x :: multiset(r)[x] <= 1
  {
    if dest in existing then existing else existing + [dest]
  }

  /** `sorted(...)` of the candidates in the listing. */
  function SortedCandidates(listing: seq<string>): (r: seq<string>)
    requires forall x :: multiset(listing)[x] <= 1
    ensures forall x :: x in r <==> x in listing && IsCandidate(x)
    ensures forall i, j :: 0 <= i < j < |r| ==> Less(r[i], r[j])
    ensures NoDuplicates(r)
  {
    var c := Candidates(listing);
    var r := SortBy(c, Itself);
    forall x ensures multiset(r)[x] <= 1 && (x in r <==> x in listing && IsCandidate(x)) {
      assert x in r <==> multiset(r)[x] > 0;
    }
    AscendingOnceIsStrict(r);
    r
  }

  /** `backups[:-MAX_BACKUPS]`: all but the last `MaxBackups`, nothing when
      there are no more than that. */
  function AllButLast<T>(xs: seq<T>, keep: nat): (r: seq<T>)
    ensures |xs| <= keep ==> r == []
    ensures |xs| > keep ==> |r| == |xs| - keep
    ensures r <= xs
  {
    if |xs| <= keep then [] else xs[..|xs| - keep]
  }

  /** What a call leaves behind: the names in the backup directory and the
      names it removed, in removal order. */
  datatype Outcome = Outcome(directory: set<string>, removed: seq<string>)

  /** `backup_db`. Nothing happens without a database file or when the copy
      fails. Otherwise the new backup joins the directory, the candidates are
      sorted and all but the last `MaxBackups` are removed in ascending order;
      a removal that fails stops the pruning, and every failure is swallowed. */
  function BackupDb(dbExists: bool, existing: seq<string>, now: Timestamp, copyOk: bool,
                    removalFailsAt: Option<nat>): (r: Outcome)
    requires forall x :: multiset(existing)[x] <= 1
    ensures !dbExists || !copyOk ==> r == Outcome((set x | x in existing), [])
    ensures dbExists && copyOk ==> forall x :: x in r.directory <==>
      (x in existing || x == BackupName(now)) && x !in r.removed
    ensures forall x :: x in r.removed ==> IsCandidate(x)
    ensures forall x :: x in existing && !IsCandidate(x) ==> x in r.directory
    ensures dbExists && copyOk ==>
      r.removed <= AllButLast(SortedCandidates(Listing(existing, BackupName(now))), MaxBackups)
    ensures dbExists && copyOk && removalFailsAt.None? ==>
      r.removed == AllButLast(SortedCandidates(Listing(existing, BackupName(now))), MaxBackups)
  {
    if !dbExists || !copyOk then Outcome((set x | x in existing), [])
    else
      var listing := Listing(existing, BackupName(now));
      var doomed := AllButLast(SortedCandidates(listing), MaxBackups);
      var removed := match removalFailsAt
        case None => doomed
        case Some(k) => if k < |doomed| then doomed[..k] else doomed;
      PrefixOfCandidates(SortedCandidates(listing), doomed, removed);
      Outcome((set x | x in listing && x !in removed), removed)
  }

  /** Whatever is cut from the front of the sorted candidates is a
      candidate. */
  lemma {:induction false} PrefixOfCandidates(sorted: seq<string>, doomed: seq<string>, removed: seq<string>)
    requires forall x :: x in sorted ==> IsCandidate(x)
    requires doomed <= sorted && removed <= doomed
    ensures forall x :: x in removed ==> IsCandidate(x)
  {
    forall x | x in removed ensures IsCandidate(x) {
      var i :| 0 <= i < |removed| && removed[i] == x;
      assert sorted[i] == x;
    }
  }

  /** Without a removal failure the surviving candidates are exactly the
      `MaxBackups` greatest ones (all of them when there are no more than
      that), and every removed name sorts below every surviving candidate. */
  lemma {:induction false} PruningKeepsNewest(dbExists: bool, existing: seq<string>, now: Timestamp, copyOk: bool)
    requires forall x :: multiset(existing)[x] <= 1
    requires dbExists && copyOk
    ensures var sorted := SortedCandidates(Listing(existing, BackupName(now)));
      var r := BackupDb(dbExists, existing, now, copyOk, None);
      var keepFrom := if |sorted| <= MaxBackups then 0 else |sorted| - MaxBackups;
      && (forall x :: x in r.directory && IsCandidate(x) <==> x in sorted[keepFrom..])
      && (forall x, y :: x in r.removed && y in r.directory && IsCandidate(y) ==> Less(x, y))
  {
    var listing := Listing(existing, BackupName(now));
    var sorted := SortedCandidates(listing);
    var r := BackupDb(dbExists, existing, now, copyOk, None);
    var keepFrom := if |sorted| <= MaxBackups then 0 else |sorted| - MaxBackups;
    assert r.removed == sorted[..keepFrom];
    SplitSorted(sorted, keepFrom);
    assert forall x :: x in r.directory <==> x in listing && x !in sorted[..keepFrom];
  }

  /** Cutting a strictly ascending sequence splits it into a lower part and
      an upper part that share no element. */
  lemma {:induction false} SplitSorted(sorted: seq<string>, k: nat)
    requires k <= |sorted|
    requires forall i, j :: 0 <= i < j < |sorted| ==> Less(sorted[i], sorted[j])
    ensures forall x :: x in sorted[k..] <==> x in sorted && x !in sorted[..k]
    ensures forall x, y :: x in sorted[..k] && y in sorted[k..] ==> Less(x, y)
  {
    forall x, y | x in sorted[..k] && y in sorted[k..] ensures Less(x, y) {
      var i :| 0 <= i < k && sorted[i] == x;
      var j :| k <= j < |sorted| && sorted[j] == y;
    }
    forall x | x in sorted[k..] ensures x !in sorted[..k] {
      if x in sorted[..k] {
        LessIrreflexive(x);
      }
    }
    assert sorted == sorted[..k] + sorted[k..];
  }

  /** With at most `MaxBackups` candidates after the copy nothing is removed. */
  lemma {:induction false} FewBackupsAreKept(dbExists: bool, existing: seq<string>, now: Timestamp, copyOk: bool,
                          removalFailsAt: Option<nat>)
    requires forall x :: multiset(existing)[x] <= 1
    requires |SortedCandidates(Listing(existing, BackupName(now)))| <= MaxBackups
    ensures BackupDb(dbExists, existing, now, copyOk, removalFailsAt).removed == []
    ensures forall x :: x in existing ==> x in BackupDb(dbExists, existing, now, copyOk, removalFailsAt).directory
  {
  }
}
