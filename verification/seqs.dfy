/** Order-preserving list processing shared by the scopes, the index filters
    and the notification recipient list. */
module Seqs {

  /** `r` can be obtained from `s` by deleting elements: the elements of
      `r` appear in `s` in the same order. */
  predicate Subsequence<T(==)>(r: seq<T>, s: seq<T>)
    decreases |s|
  {
    r == [] || (s != [] && ((r[0] == s[0] && Subsequence(r[1..], s[1..])) || Subsequence(r, s[1..])))
  }

  /** Every sequence is a subsequence of itself. */
  lemma {:induction false} SubsequenceOfItself<T>(s: seq<T>)
    ensures Subsequence(s, s)
    decreases |s|
  {
    if s != [] {
      SubsequenceOfItself(s[1..]);
    }
  }

  /** A subsequence of a subsequence is a subsequence. */
  lemma {:induction false} SubsequenceTransitive<T>(a: seq<T>, b: seq<T>, c: seq<T>)
    requires Subsequence(a, b) && Subsequence(b, c)
    ensures Subsequence(a, c)
    decreases |c|
  {
    if a != [] {
      if b[0] == c[0] && Subsequence(b[1..], c[1..]) {
        if a[0] == b[0] && Subsequence(a[1..], b[1..]) {
          SubsequenceTransitive(a[1..], b[1..], c[1..]);
        } else {
          SubsequenceTransitive(a, b[1..], c[1..]);
        }
      } else {
        SubsequenceTransitive(a, b, c[1..]);
      }
    }
  }

  /** Keeps the elements satisfying `p`, in their original order
      (ActiveRecord `where` over rows, Ruby `select` / `reject`). */
  function Filter<T(!new)>(s: seq<T>, p: T -> bool): (r: seq<T>)
    ensures |r| <= |s|
    ensures Subsequence(r, s)
    ensures forall x :: x in r <==> x in s && p(x)
    ensures forall x :: p(x) ==> multiset(r)[x] == multiset(s)[x]
    ensures forall x :: !p(x) ==> multiset(r)[x] == 0
  {
    if s == [] then []
    else
      var rest := Filter(s[1..], p);
      assert s == [s[0]] + s[1..];
      if p(s[0]) then [s[0]] + rest else rest
  }

  /** No element occurs twice. */
  predicate NoDuplicates<T(==)>(s: seq<T>) {
    forall i, j :: 0 <= i < j < |s| ==> s[i] != s[j]
  }

  /** `r` lists the elements in the order of their first occurrence in
      `s`: each element of `r` occurs in `s` before any later element of
      `r` does. */
  predicate KeepsFirstOccurrences<T(==)>(r: seq<T>, s: seq<T>) {
    forall i, j :: 0 <= i < j < |r| ==> exists a :: 0 <= a < |s| && s[a] == r[i] && r[j] !in s[..a]
  }

  /** Taking the head of `s` in front of the result for the tail keeps the
      first-occurrence order. */
  lemma KeepsFirstTaken<T>(s: seq<T>, rest: seq<T>)
    requires s != [] && s[0] !in rest
    requires KeepsFirstOccurrences(rest, s[1..])
    ensures KeepsFirstOccurrences([s[0]] + rest, s)
  {
    var r := [s[0]] + rest;
    forall i, j | 0 <= i < j < |r| ensures exists a :: 0 <= a < |s| && s[a] == r[i] && r[j] !in s[..a] {
      if i == 0 {
        assert s[0] == r[0] && s[..0] == [];
      } else {
        assert 0 <= i - 1 < j - 1 < |rest|;
        var a :| 0 <= a < |s[1..]| && s[1..][a] == rest[i - 1] && rest[j - 1] !in s[1..][..a];
        assert s[..a + 1] == [s[0]] + s[1..][..a];
        assert r[j] == rest[j - 1] && r[j] != s[0];
        assert s[a + 1] == r[i] && r[j] !in s[..a + 1];
      }
    }
  }

  /** Skipping a head that no element of the result equals keeps the
      first-occurrence order. */
  lemma KeepsFirstSkipped<T>(s: seq<T>, r: seq<T>)
    requires s != [] && s[0] !in r
    requires KeepsFirstOccurrences(r, s[1..])
    ensures KeepsFirstOccurrences(r, s)
  {
    forall i, j | 0 <= i < j < |r| ensures exists a :: 0 <= a < |s| && s[a] == r[i] && r[j] !in s[..a] {
      var a :| 0 <= a < |s[1..]| && s[1..][a] == r[i] && r[j] !in s[1..][..a];
      assert s[..a + 1] == [s[0]] + s[1..][..a];
      assert r[j] != s[0];
      assert s[a + 1] == r[i] && r[j] !in s[..a + 1];
    }
  }

  /** Ruby's `uniq` with the elements of `seen` already consumed: keeps the
      first occurrence of every element not in `seen`, in order. */
  function UniqAfter<T(==,!new)>(s: seq<T>, seen: set<T>): (r: seq<T>)
    ensures |r| <= |s|
    ensures Subsequence(r, s)
    ensures KeepsFirstOccurrences(r, s)
    ensures NoDuplicates(r)
    ensures forall x :: x in r <==> x in s && x !in seen
  {
    if s == [] then []
    else if s[0] in seen then
      var rest := UniqAfter(s[1..], seen);
      KeepsFirstSkipped(s, rest);
      rest
    else
      var rest := UniqAfter(s[1..], seen + {s[0]});
      assert s[0] !in rest;
      KeepsFirstTaken(s, rest);
      [s[0]] + rest
  }

  /** Ruby's `uniq`: drops every repeated element, keeping first occurrences. */
  function Uniq<T(==,!new)>(s: seq<T>): (r: seq<T>)
    ensures |r| <= |s|
    ensures Subsequence(r, s)
    ensures KeepsFirstOccurrences(r, s)
    ensures NoDuplicates(r)
    ensures forall x :: x in r <==> x in s
  {
    UniqAfter(s, {})
  }

  /** A sequence without duplicates is left as it is by `uniq`. */
  lemma {:induction false} UniqAfterIdentity<T(!new)>(s: seq<T>, seen: set<T>)
    requires NoDuplicates(s)
    requires forall x :: x in s ==> x !in seen
    ensures UniqAfter(s, seen) == s
  {
    if s != [] {
      assert s[0] !in seen;
      forall x | x in s[1..] ensures x !in seen + {s[0]} {
        var k :| 0 <= k < |s[1..]| && s[1..][k] == x;
        assert s[k + 1] == x;
      }
      UniqAfterIdentity(s[1..], seen + {s[0]});
    }
  }

  /** `order` lists every key of `table` exactly once: the order in which
      a query without ORDER BY returns the table's rows. */
  predicate ListsKeys<T>(order: seq<nat>, table: map<nat, T>) {
    NoDuplicates(order) && (forall k :: k in order ==> k in table) && (forall k :: k in table ==> k in order)
  }

  /** The rows of `table` read in the order `order` gives. */
  function Rows<T(!new)>(table: map<nat, T>, order: seq<nat>): (r: seq<T>)
    requires forall k :: k in order ==> k in table
    ensures |r| == |order|
    ensures forall x :: x in r <==> exists k :: k in order && table[k] == x
  {
    var r := seq(|order|, i requires 0 <= i < |order| => table[order[i]]);
    assert forall k :: k in order ==> table[k] in r by {
      forall k | k in order ensures table[k] in r {
        var i :| 0 <= i < |order| && order[i] == k;
        assert r[i] == table[k];
      }
    }
    r
  }

  /** Reading a table in any listing of its keys yields exactly its rows. */
  lemma RowsAreTable<T(!new)>(table: map<nat, T>, order: seq<nat>)
    requires ListsKeys(order, table)
    ensures forall x :: x in Rows(table, order) <==> x in table.Values
  {
    forall x | x in table.Values ensures x in Rows(table, order) {
      var k :| k in table && table[k] == x;
      assert k in order;
    }
  }
}
