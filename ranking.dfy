/**
 * The order in which the backtrace's value correlator ranks repeated values: Python's
 * `sort(reverse=True)` on `(count, value)` tuples, i.e. larger counts first and, among
 * equal counts, the value string that compares greater (code point by code point) first.
 */
module Ranking {

  /** Python's `a < b` on str: lexicographic by code point, a proper prefix is smaller. */
  predicate StrLess(a: string, b: string)
    decreases |a|
  {
    if |a| == 0 then |b| > 0
    else if |b| == 0 then false
    else if a[0] != b[0] then a[0] < b[0]
    else StrLess(a[1..], b[1..])
  }

  lemma {:induction false} StrLessIrreflexive(a: string)
    ensures !StrLess(a, a)
    decreases |a|
  {
    if |a| > 0 {
      StrLessIrreflexive(a[1..]);
    }
  }

  lemma {:induction false} StrLessTransitive(a: string, b: string, c: string)
    requires StrLess(a, b) && StrLess(b, c)
    ensures StrLess(a, c)
    decreases |a|
  {
    if |a| > 0 && |b| > 0 && |c| > 0 && a[0] == b[0] == c[0] {
      StrLessTransitive(a[1..], b[1..], c[1..]);
    }
  }

  lemma {:induction false} StrLessTotal(a: string, b: string)
    requires a != b
    ensures StrLess(a, b) || StrLess(b, a)
    decreases |a|
  {
    if |a| > 0 && |b| > 0 && a[0] == b[0] {
      assert a == [a[0]] + a[1..] && b == [b[0]] + b[1..];
      StrLessTotal(a[1..], b[1..]);
    }
  }

  lemma StrLessAsymmetric(a: string, b: string)
    requires StrLess(a, b)
    ensures !StrLess(b, a)
  {
    if StrLess(b, a) {
      StrLessTransitive(a, b, a);
      StrLessIrreflexive(a);
    }
  }

  /** One observed value with its occurrence count: the tuple `(count, value)`. */
  datatype Entry = Entry(count: nat, value: string)

  /** `x` ranks ahead of `y` in `sort(reverse=True)` order: `x > y` as tuples. */
  predicate Before(x: Entry, y: Entry) {
    x.count > y.count || (x.count == y.count && StrLess(y.value, x.value))
  }

  lemma BeforeIrreflexive(x: Entry)
    ensures !Before(x, x)
  {
    StrLessIrreflexive(x.value);
  }

  lemma BeforeTransitive(x: Entry, y: Entry, z: Entry)
    requires Before(x, y) && Before(y, z)
    ensures Before(x, z)
  {
    if x.count == y.count == z.count {
      StrLessTransitive(z.value, y.value, x.value);
    }
  }

  lemma BeforeTotal(x: Entry, y: Entry)
    requires x != y
    ensures Before(x, y) || Before(y, x)
  {
    if x.count == y.count {
      StrLessTotal(x.value, y.value);
    }
  }

  lemma BeforeAsymmetric(x: Entry, y: Entry)
    requires Before(x, y)
    ensures !Before(y, x)
  {
    if Before(y, x) {
      BeforeTransitive(x, y, x);
      BeforeIrreflexive(x);
    }
  }

  /** "Not after" is transitive. */
  lemma NotBeforeTransitive(x: Entry, y: Entry, z: Entry)
    requires !Before(y, x) && !Before(z, y)
    ensures !Before(z, x)
  {
    if Before(z, x) {
      if x == y {
      } else {
        BeforeTotal(x, y);
        BeforeTransitive(z, x, y);
      }
    }
  }

  /** Non-increasing in rank order. */
  ghost predicate Sorted(s: seq<Entry>) {
    forall i, j :: 0 <= i < j < |s| ==> !Before(s[j], s[i])
  }

  /** Strictly decreasing in rank order: every entry ranks ahead of every later one. */
  ghost predicate StrictlySorted(s: seq<Entry>) {
    forall i, j :: 0 <= i < j < |s| ==> Before(s[i], s[j])
  }

  /** Insert x before the first entry that does not rank ahead of it. */
  function Insert(x: Entry, s: seq<Entry>): (r: seq<Entry>)
    ensures multiset(r) == multiset(s) + multiset{x}
  {
    if |s| == 0 then [x]
    else if Before(s[0], x) then
      assert s == [s[0]] + s[1..];
      [s[0]] + Insert(x, s[1..])
    else [x] + s
  }

  /** The list sorted into rank order (what `list.sort(reverse=True)` leaves). */
  function SortDescending(s: seq<Entry>): (r: seq<Entry>)
    ensures multiset(r) == multiset(s)
  {
    if |s| == 0 then []
    else
      assert s == [s[0]] + s[1..];
      Insert(s[0], SortDescending(s[1..]))
  }

  lemma {:induction false} InsertSorted(x: Entry, s: seq<Entry>)
    requires Sorted(s)
    ensures Sorted(Insert(x, s))
    decreases |s|
  {
    if |s| > 0 {
      if Before(s[0], x) {
        InsertSorted(x, s[1..]);
        var t := Insert(x, s[1..]);
        InsertedBehindHead(x, s);
        ConsSorted(s[0], t);
      } else {
        forall j | 0 <= j < |s| ensures !Before(s[j], x) {
          BeforeIrreflexive(s[0]);
          NotBeforeTransitive(x, s[0], s[j]);
        }
        ConsSorted(x, s);
      }
    }
  }

  /** Inserting an entry that the head ranks ahead of leaves nothing ranked ahead of
      the head. */
  lemma InsertedBehindHead(x: Entry, s: seq<Entry>)
    requires |s| > 0 && Sorted(s) && Before(s[0], x)
    ensures forall j :: 0 <= j < |Insert(x, s[1..])| ==> !Before(Insert(x, s[1..])[j], s[0])
  {
    var t := Insert(x, s[1..]);
    forall j | 0 <= j < |t| ensures !Before(t[j], s[0]) {
      assert t[j] in multiset(t);
      if t[j] == x {
        BeforeAsymmetric(s[0], x);
      } else {
        assert t[j] in multiset(s[1..]);
        var k :| 0 <= k < |s[1..]| && s[1..][k] == t[j];
        assert s[k + 1] == t[j];
      }
    }
  }

  /** An entry that nothing in a sorted list ranks ahead of can go in front of it. */
  lemma ConsSorted(h: Entry, t: seq<Entry>)
    requires Sorted(t)
    requires forall j :: 0 <= j < |t| ==> !Before(t[j], h)
    ensures Sorted([h] + t)
  {
    var r := [h] + t;
    forall i, j | 0 <= i < j < |r| ensures !Before(r[j], r[i]) {
      assert r[j] == t[j - 1];
      if i > 0 {
        assert r[i] == t[i - 1];
      }
    }
  }

  lemma {:induction false} SortDescendingSorted(s: seq<Entry>)
    ensures Sorted(SortDescending(s))
    decreases |s|
  {
    if |s| > 0 {
      SortDescendingSorted(s[1..]);
      InsertSorted(s[0], SortDescending(s[1..]));
    }
  }

  /** A sorted list without repeated entries is strictly sorted. */
  lemma SortedDistinctIsStrict(s: seq<Entry>)
    requires Sorted(s)
    requires forall i, j :: 0 <= i < j < |s| ==> s[i] != s[j]
    ensures StrictlySorted(s)
  {
    forall i, j | 0 <= i < j < |s| ensures Before(s[i], s[j]) {
      BeforeTotal(s[i], s[j]);
    }
  }

  /** Two strictly sorted lists holding the same entries are the same list: the ranking
      does not depend on the order in which the entries were collected. */
  lemma {:induction false} StrictlySortedUnique(a: seq<Entry>, b: seq<Entry>)
    requires StrictlySorted(a) && StrictlySorted(b)
    requires forall e :: e in a <==> e in b
    ensures a == b
    decreases |a|
  {
    if |a| > 0 {
      assert a[0] in b;
    }
    if |b| > 0 {
      assert b[0] in a;
    }
    if |a| > 0 && |b| > 0 {
      if a[0] != b[0] {
        var i :| 0 <= i < |a| && a[i] == b[0];
        var j :| 0 <= j < |b| && b[j] == a[0];
        assert Before(a[0], b[0]) && Before(b[0], a[0]);
        BeforeAsymmetric(a[0], b[0]);
      }
      forall e ensures e in a[1..] <==> e in b[1..] {
        if e in a[1..] {
          var i :| 1 <= i < |a| && a[i] == e;
          if e == a[0] {
            BeforeIrreflexive(e);
          }
          assert e in b;
        }
        if e in b[1..] {
          var j :| 1 <= j < |b| && b[j] == e;
          if e == b[0] {
            BeforeIrreflexive(e);
          }
          assert e in a;
        }
      }
      StrictlySortedUnique(a[1..], b[1..]);
      assert a == [a[0]] + a[1..] && b == [b[0]] + b[1..];
    }
  }
}
