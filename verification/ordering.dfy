/**
 * The order the inactivity metric scans the active rows in: by user, then by
 * end date. Users compare as Python compares strings, character by character
 * with a proper prefix first; end dates compare as minute timestamps, which
 * is calendar order.
 */
module Ordering {
  import opened Calendar
  import opened Records

  /** Python's a < b on strings. */
  predicate StrLt(a: string, b: string)
  {
    if a == [] then b != []
    else if b == [] then false
    else if a[0] != b[0] then a[0] < b[0]
    else StrLt(a[1..], b[1..])
  }

  lemma {:induction false} StrLtIrreflexive(a: string)
    ensures !StrLt(a, a)
  {
    if a != [] {
      StrLtIrreflexive(a[1..]);
    }
  }

  lemma {:induction false} StrLtTransitive(a: string, b: string, c: string)
    requires StrLt(a, b) && StrLt(b, c)
    ensures StrLt(a, c)
  {
    if a != [] && a[0] == b[0] && b[0] == c[0] {
      StrLtTransitive(a[1..], b[1..], c[1..]);
    }
  }

  /** Any two different strings are ordered one way or the other, and never both. */
  lemma {:induction false} StrLtTotal(a: string, b: string)
    ensures a == b || StrLt(a, b) || StrLt(b, a)
    ensures !(StrLt(a, b) && StrLt(b, a))
  {
    if a != [] && b != [] && a[0] == b[0] {
      StrLtTotal(a[1..], b[1..]);
      if a[1..] == b[1..] {
        assert a == [a[0]] + a[1..] && b == [b[0]] + b[1..];
      }
    }
  }

  /** Row a may come before row b in sort(['user', 'end_date']). */
  predicate RowLe(a: Row, b: Row)
  {
    StrLt(a.user, b.user) || (a.user == b.user && Minutes(a.endDate) <= Minutes(b.endDate))
  }

  lemma RowLeTotal(a: Row, b: Row)
    ensures RowLe(a, b) || RowLe(b, a)
  {
    StrLtTotal(a.user, b.user);
  }

  lemma RowLeTransitive(a: Row, b: Row, c: Row)
    requires RowLe(a, b) && RowLe(b, c)
    ensures RowLe(a, c)
  {
    if StrLt(a.user, b.user) && StrLt(b.user, c.user) {
      StrLtTransitive(a.user, b.user, c.user);
    }
  }

  predicate Sorted(s: seq<Row>)
  {
    forall i, j :: 0 <= i < j < |s| ==> RowLe(s[i], s[j])
  }

  lemma SortedTail(s: seq<Row>)
    requires Sorted(s) && s != []
    ensures Sorted(s[1..])
  {
    forall i, j | 0 <= i < j < |s[1..]| ensures RowLe(s[1..][i], s[1..][j]) {
      assert s[1..][i] == s[i + 1] && s[1..][j] == s[j + 1];
    }
  }

  /** Places x before the first row it may precede, so rows with equal keys keep their order. */
  function Insert(x: Row, s: seq<Row>): (r: seq<Row>)
    requires Sorted(s)
    ensures Sorted(r)
    ensures multiset(r) == multiset(s) + multiset{x}
    ensures r[0] == x || (s != [] && r[0] == s[0])
  {
    if s == [] then [x]
    else if RowLe(x, s[0]) then
      var r := [x] + s;
      assert Sorted(r) by {
        forall i, j | 0 <= i < j < |r| ensures RowLe(r[i], r[j]) {
          if i == 0 && j > 1 {
            RowLeTransitive(x, s[0], s[j - 1]);
          }
        }
      }
      r
    else
      RowLeTotal(x, s[0]);
      SortedTail(s);
      var rest := Insert(x, s[1..]);
      var r := [s[0]] + rest;
      assert Sorted(r) by {
        forall j | 0 < j < |r| ensures RowLe(s[0], r[j]) {
          assert r[j] in multiset(rest);
          assert r[j] == x || r[j] in s[1..];
        }
      }
      assert s == [s[0]] + s[1..];
      r
  }

  /** sort(['user', 'end_date']) on the active rows: ordered by user, then end date, a permutation of its input. */
  function SortByUserEnd(s: seq<Row>): (r: seq<Row>)
    ensures Sorted(r)
    ensures multiset(r) == multiset(s)
  {
    if s == [] then []
    else
      assert s == [s[0]] + s[1..];
      Insert(s[0], SortByUserEnd(s[1..]))
  }

  /** Rows a and b tie in the sort: same user and same end time. */
  predicate SameKey(a: Row, b: Row)
  {
    a.user == b.user && Minutes(a.endDate) == Minutes(b.endDate)
  }

  /** The rows of s that tie with k, in their order in s. */
  function Ties(s: seq<Row>, k: Row): seq<Row>
  {
    if s == [] then [] else (if SameKey(s[0], k) then [s[0]] else []) + Ties(s[1..], k)
  }

  /** The ties of a concatenation are the ties of each part, in turn. */
  lemma {:induction false} TiesAppend(a: seq<Row>, b: seq<Row>, k: Row)
    ensures Ties(a + b, k) == Ties(a, k) + Ties(b, k)
  {
    if a != [] {
      assert (a + b)[0] == a[0] && (a + b)[1..] == a[1..] + b;
      TiesAppend(a[1..], b, k);
    } else {
      assert a + b == b;
    }
  }

  /** Inserting x puts it ahead of every row it ties with. */
  lemma {:induction false} InsertKeepsTies(x: Row, s: seq<Row>, k: Row)
    requires Sorted(s)
    ensures Ties(Insert(x, s), k) == (if SameKey(x, k) then [x] else []) + Ties(s, k)
  {
    var head := if SameKey(x, k) then [x] else [];
    if s == [] {
      assert Insert(x, s) == [x] && [x][1..] == [];
      assert Ties([x], k) == head + Ties(s, k);
    } else if RowLe(x, s[0]) {
      var r := [x] + s;
      assert Insert(x, s) == r && r[0] == x && r[1..] == s;
      assert Ties(r, k) == head + Ties(s, k);
    } else {
      SortedTail(s);
      var rest := Insert(x, s[1..]);
      var r := [s[0]] + rest;
      assert Insert(x, s) == r && r[0] == s[0] && r[1..] == rest;
      InsertKeepsTies(x, s[1..], k);
      if SameKey(x, k) {
        // x would have gone before s[0] had they tied
        assert !SameKey(s[0], k);
        assert Ties(r, k) == Ties(rest, k) == [x] + Ties(s[1..], k);
        assert Ties(s, k) == Ties(s[1..], k);
      } else {
        assert Ties(rest, k) == Ties(s[1..], k);
      }
    }
  }

  /** The sort is stable: rows that tie on user and end time keep their input order. */
  lemma {:induction false} SortIsStable(s: seq<Row>, k: Row)
    ensures Ties(SortByUserEnd(s), k) == Ties(s, k)
  {
    if s != [] {
      SortIsStable(s[1..], k);
      InsertKeepsTies(s[0], SortByUserEnd(s[1..]), k);
    }
  }

  /** In a sorted frame each user's rows form one contiguous block. */
  lemma UsersContiguous(s: seq<Row>, i: nat, j: nat, k: nat)
    requires Sorted(s) && i < j < k < |s| && s[i].user == s[k].user
    ensures s[j].user == s[i].user
  {
    assert RowLe(s[i], s[j]) && RowLe(s[j], s[k]);
    if s[j].user != s[i].user {
      assert StrLt(s[i].user, s[j].user);
      if StrLt(s[j].user, s[k].user) {
        StrLtTransitive(s[i].user, s[j].user, s[k].user);
      }
      StrLtIrreflexive(s[i].user);
    }
  }

  /** Within one user's block, end dates never go backwards in calendar order. */
  lemma SameUserByEndDate(s: seq<Row>, i: nat, j: nat)
    requires Sorted(s) && i < j < |s| && s[i].user == s[j].user
    ensures !Before(s[j].endDate, s[i].endDate)
  {
    assert RowLe(s[i], s[j]);
    StrLtIrreflexive(s[i].user);
    MinutesOrderIsCalendarOrder(s[j].endDate, s[i].endDate);
  }
}
