/** The small part of SQLite's semantics that the image store's statements rely on:
    the values bound to `?` placeholders, the `x IN (a, b)` test, and the row
    selection performed by a WHERE clause (for SELECT) or its complement (for DELETE). */
module Sql {

  /** A value bound to a `?` placeholder or held in a column. A Python `None`
      bound to a placeholder arrives as `Null`. */
  datatype Value = Null | Text(s: string) | Integer(i: int)

  /** `x IN (a, b)` in a WHERE clause: a NULL on the left never makes it true,
      otherwise it is true when `x` equals one of the two listed values. */
  function InPair(x: Value, a: Value, b: Value): (holds: bool)
    ensures x == Null ==> !holds
  {
    x != Null && (x == a || x == b)
  }

  /** The smallest and one past the largest integer SQLite stores: a signed 64-bit range. */
  const MinInteger: int := -0x8000_0000_0000_0000
  const IntegerLimit: int := 0x8000_0000_0000_0000

  /** Whether a value can be bound to a placeholder. Binding an integer outside the
      signed 64-bit range raises an overflow error instead. */
  predicate Bindable(v: Value)
  {
    v.Integer? ==> MinInteger <= v.i < IntegerLimit
  }

  /** The rows of `s` for which `keep` holds, in table order: what a WHERE clause
      selects, or what a DELETE with the negated condition leaves behind. */
  function Where<T(!new)>(s: seq<T>, keep: T -> bool): (r: seq<T>)
    ensures |r| <= |s|
    ensures forall x :: x in r <==> x in s && keep(x)
  {
    if s == [] then []
    else if keep(s[0]) then [s[0]] + Where(s[1..], keep)
    else Where(s[1..], keep)
  }

  /** Filtering a concatenation filters each part and keeps their order. */
  lemma {:induction false} WhereAppend<T(!new)>(s: seq<T>, t: seq<T>, keep: T -> bool)
    ensures Where(s + t, keep) == Where(s, keep) + Where(t, keep)
  {
    if s != [] {
      assert (s + t)[0] == s[0];
      assert (s + t)[1..] == s[1..] + t;
      WhereAppend(s[1..], t, keep);
    } else {
      assert s + t == t;
    }
  }

  /** When every row passes the condition, the table comes back whole and in order. */
  lemma {:induction false} WhereKeepsAll<T(!new)>(s: seq<T>, keep: T -> bool)
    requires forall i :: 0 <= i < |s| ==> keep(s[i])
    ensures Where(s, keep) == s
  {
    if s != [] {
      assert keep(s[0]);
      WhereKeepsAll(s[1..], keep);
      assert [s[0]] + s[1..] == s;
    }
  }

  /** When no row passes the condition, nothing is selected. */
  lemma {:induction false} WhereDropsAll<T(!new)>(s: seq<T>, keep: T -> bool)
    requires forall i :: 0 <= i < |s| ==> !keep(s[i])
    ensures Where(s, keep) == []
  {
    if s != [] {
      WhereDropsAll(s[1..], keep);
    }
  }

  /** Each row that passes occurs as often in the result as in the table, and a row
      that fails does not occur at all: duplicates are neither merged nor invented. */
  lemma {:induction false} WhereCount<T(!new)>(s: seq<T>, keep: T -> bool, x: T)
    ensures multiset(Where(s, keep))[x] == if keep(x) then multiset(s)[x] else 0
  {
    if s == [] {
    } else {
      WhereCount(s[1..], keep, x);
      assert s == [s[0]] + s[1..];
      assert multiset(s) == multiset([s[0]]) + multiset(s[1..]);
      if keep(s[0]) {
        assert multiset(Where(s, keep)) == multiset([s[0]]) + multiset(Where(s[1..], keep));
      }
    }
  }

  /** Filtering twice with the same condition is the same as filtering once. */
  lemma {:induction false} WhereIdempotent<T(!new)>(s: seq<T>, keep: T -> bool)
    ensures Where(Where(s, keep), keep) == Where(s, keep)
  {
    var r := Where(s, keep);
    forall i | 0 <= i < |r| ensures keep(r[i]) {
      assert r[i] in r;
    }
    WhereKeepsAll(r, keep);
  }
}
