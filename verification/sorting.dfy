/** Sorting a sequence by a string key, the way `sorted(...)` orders file names
    and `ORDER BY captured_at` orders rows, or by a numeric key, the way the
    interface orders its per-opponent rows by count. Equal keys may come out in any order
    relative to each other; nothing in the model depends on that order. */
module Sorting {
  import opened StringOrder

  ghost predicate Ascending<T>(xs: seq<T>, key: T -> string)
  {
    forall i, j :: 0 <= i < j < |xs| ==> LessEq(key(xs[i]), key(xs[j]))
  }

  ghost predicate Descending<T>(xs: seq<T>, key: T -> string)
  {
    forall i, j :: 0 <= i < j < |xs| ==> LessEq(key(xs[j]), key(xs[i]))
  }

  /** `x` placed into the ascending sequence `xs` in front of the first element
      whose key is not below its own. */
  function Insert<T>(x: T, xs: seq<T>, key: T -> string): (r: seq<T>)
    requires Ascending(xs, key)
    ensures Ascending(r, key)
    ensures multiset(r) == multiset(xs) + multiset{x}
  {
    if |xs| == 0 then [x]
    else if LessEq(key(x), key(xs[0])) then
      forall j | 0 <= j < |xs| ensures LessEq(key(x), key(xs[j])) {
        LessEqTransitive(key(x), key(xs[0]), key(xs[j]));
      }
      [x] + xs
    else
      var tail := Insert(x, xs[1..], key);
      assert xs == [xs[0]] + xs[1..];
      LessTotal(key(x), key(xs[0]));
      forall j | 0 <= j < |tail| ensures LessEq(key(xs[0]), key(tail[j])) {
        assert tail[j] in multiset(tail);
        if tail[j] != x {
          assert tail[j] in multiset(xs[1..]);
          var k :| 1 <= k < |xs| && xs[k] == tail[j];
        }
      }
      [xs[0]] + tail
  }

  /** The elements of `xs` rearranged so that their keys ascend. */
  function SortBy<T>(xs: seq<T>, key: T -> string): (r: seq<T>)
    ensures Ascending(r, key)
    ensures multiset(r) == multiset(xs)
  {
    if |xs| == 0 then []
    else
      assert xs == [xs[0]] + xs[1..];
      Insert(xs[0], SortBy(xs[1..], key), key)
  }

  function Reverse<T>(xs: seq<T>): (r: seq<T>)
    ensures |r| == |xs|
    ensures forall i :: 0 <= i < |xs| ==> r[i] == xs[|xs| - 1 - i]
    ensures multiset(r) == multiset(xs)
  {
    if |xs| == 0 then []
    else
      assert xs == xs[..|xs| - 1] + [xs[|xs| - 1]];
      [xs[|xs| - 1]] + Reverse(xs[..|xs| - 1])
  }

  lemma {:induction false} ReverseDescends<T>(xs: seq<T>, key: T -> string)
    requires Ascending(xs, key)
    ensures Descending(Reverse(xs), key)
  {
    var r := Reverse(xs);
    forall i, j | 0 <= i < j < |r| ensures LessEq(key(r[j]), key(r[i])) {
      assert r[i] == xs[|xs| - 1 - i] && r[j] == xs[|xs| - 1 - j];
    }
  }

  /** The elements of `xs` rearranged so that their keys descend
      (`ORDER BY ... DESC`). */
  function SortByDescending<T>(xs: seq<T>, key: T -> string): (r: seq<T>)
    ensures Descending(r, key)
    ensures multiset(r) == multiset(xs)
  {
    var up := SortBy(xs, key);
    ReverseDescends(up, key);
    Reverse(up)
  }

  /** The key that sorts strings by themselves. */
  function Itself(s: string): string
  {
    s
  }

  /** Every element occurs at most once. */
  ghost predicate NoDuplicates<T>(xs: seq<T>)
  {
    forall i, j :: 0 <= i < j < |xs| ==> xs[i] != xs[j]
  }

  /** Two equal entries at different positions mean a count of at least two. */
  lemma {:induction false} RepeatCountsTwice<T>(xs: seq<T>, i: nat, j: nat)
    requires i < j < |xs| && xs[i] == xs[j]
    ensures multiset(xs)[xs[i]] >= 2
  {
    assert xs == xs[..j] + xs[j..];
    assert xs[i] in xs[..j];
    assert xs[j..][0] == xs[j];
    assert xs[j] in xs[j..];
  }

  /** A count of at least two means two different positions. */
  lemma {:induction false} TwiceCountedRepeats<T>(xs: seq<T>, x: T)
    requires multiset(xs)[x] >= 2
    ensures exists i, j :: 0 <= i < j < |xs| && xs[i] == x && xs[j] == x
  {
    assert x in multiset(xs);
    var a :| 0 <= a < |xs| && xs[a] == x;
    var rest := xs[..a] + xs[a + 1..];
    assert xs == xs[..a] + [x] + xs[a + 1..];
    assert multiset(xs) == multiset(xs[..a]) + multiset{x} + multiset(xs[a + 1..]);
    assert x in multiset(rest);
    var b :| 0 <= b < |rest| && rest[b] == x;
    if b < a {
      assert xs[b] == x;
    } else {
      assert xs[b + 1] == x;
    }
  }

  /** Sorted strings that occur at most once each are strictly ascending. */
  lemma {:induction false} AscendingOnceIsStrict(xs: seq<string>)
    requires Ascending(xs, Itself)
    requires forall x :: multiset(xs)[x] <= 1
    ensures forall i, j :: 0 <= i < j < |xs| ==> Less(xs[i], xs[j])
    ensures NoDuplicates(xs)
  {
    forall i, j | 0 <= i < j < |xs| ensures xs[i] != xs[j] {
      if xs[i] == xs[j] {
        RepeatCountsTwice(xs, i, j);
      }
    }
  }

  /** Strings sorted downwards that occur at most once each are strictly
      descending. */
  lemma {:induction false} DescendingOnceIsStrict(xs: seq<string>)
    requires Descending(xs, Itself)
    requires forall x :: multiset(xs)[x] <= 1
    ensures forall i, j :: 0 <= i < j < |xs| ==> Less(xs[j], xs[i])
  {
    forall i, j | 0 <= i < j < |xs| ensures Less(xs[j], xs[i]) {
      if xs[i] == xs[j] {
        RepeatCountsTwice(xs, i, j);
      }
    }
  }

  /** Non-increasing by a numeric key, as `sort((a, b) => b.n - a.n)` leaves
      an array. */
  ghost predicate DescendingBy<T>(xs: seq<T>, key: T -> nat)
  {
    forall i, j :: 0 <= i < j < |xs| ==> key(xs[j]) <= key(xs[i])
  }

  /** `x` placed into the non-increasing sequence `xs` in front of the first
      element whose key does not exceed its own. */
  function InsertBy<T>(x: T, xs: seq<T>, key: T -> nat): (r: seq<T>)
    requires DescendingBy(xs, key)
    ensures DescendingBy(r, key)
    ensures multiset(r) == multiset(xs) + multiset{x}
  {
    if |xs| == 0 || key(xs[0]) <= key(x) then
      HeadBoundsDescending(xs, key, key(x));
      ConsDescendingBy(x, xs, key);
      [x] + xs
    else
      var h, rest := xs[0], xs[1..];
      assert xs == [h] + rest;
      TailDescendingBy(xs, key);
      var tail := InsertBy(x, rest, key);
      HeadBoundsDescending(xs, key, key(h));
      BoundedRearranged(rest, tail, x, key, key(h));
      ConsDescendingBy(h, tail, key);
      [h] + tail
  }

  lemma {:induction false} TailDescendingBy<T>(xs: seq<T>, key: T -> nat)
    requires |xs| > 0 && DescendingBy(xs, key)
    ensures DescendingBy(xs[1..], key)
  {
    var rest := xs[1..];
    forall i, j | 0 <= i < j < |rest| ensures key(rest[j]) <= key(rest[i]) {
      assert rest[i] == xs[i + 1] && rest[j] == xs[j + 1];
    }
  }

  /** In a non-increasing sequence nothing exceeds a bound the first key
      stays within. */
  lemma {:induction false} HeadBoundsDescending<T>(xs: seq<T>, key: T -> nat, bound: nat)
    requires DescendingBy(xs, key)
    requires |xs| == 0 || key(xs[0]) <= bound
    ensures forall k :: 0 <= k < |xs| ==> key(xs[k]) <= bound
  {
    forall k | 0 < k < |xs| ensures key(xs[k]) <= key(xs[0]) { }
  }

  /** Adding an element within a bound to elements within it keeps every
      element of any rearrangement within it. */
  lemma {:induction false} BoundedRearranged<T>(rest: seq<T>, tail: seq<T>, x: T, key: T -> nat, bound: nat)
    requires forall k :: 0 <= k < |rest| ==> key(rest[k]) <= bound
    requires key(x) <= bound
    requires multiset(tail) == multiset(rest) + multiset{x}
    ensures forall j :: 0 <= j < |tail| ==> key(tail[j]) <= bound
  {
    forall j | 0 <= j < |tail| ensures key(tail[j]) <= bound {
      assert tail[j] in multiset(tail);
      if tail[j] != x {
        assert tail[j] in multiset(rest);
        var k :| 0 <= k < |rest| && rest[k] == tail[j];
      }
    }
  }

  lemma {:induction false} ConsDescendingBy<T>(h: T, tail: seq<T>, key: T -> nat)
    requires DescendingBy(tail, key)
    requires forall j :: 0 <= j < |tail| ==> key(tail[j]) <= key(h)
    ensures DescendingBy([h] + tail, key)
  {
    var r := [h] + tail;
    forall i, j | 0 <= i < j < |r| ensures key(r[j]) <= key(r[i]) {
      assert r[j] == tail[j - 1];
      if i > 0 {
        assert r[i] == tail[i - 1];
      }
    }
  }

  /** The elements of `xs` rearranged so that their numeric keys do not
      increase. */
  function SortByDescendingNumber<T>(xs: seq<T>, key: T -> nat): (r: seq<T>)
    ensures DescendingBy(r, key)
    ensures multiset(r) == multiset(xs)
  {
    if |xs| == 0 then []
    else
      assert xs == [xs[0]] + xs[1..];
      InsertBy(xs[0], SortByDescendingNumber(xs[1..], key), key)
  }
}
