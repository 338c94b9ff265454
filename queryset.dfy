/**
 * The part of the document database's query builder that the handlers use:
 * filtering, descending sort on a key, `skip`, `limit` and `first`. A
 * collection is a sequence of documents in storage order.
 */
module QuerySet {
  import opened Common

  function Min(a: int, b: int): int
  {
    if a <= b then a else b
  }

  /** The documents of `s` that satisfy `keep`, in storage order. */
  function Filter<T>(s: seq<T>, keep: T -> bool): (r: seq<T>)
    ensures |r| <= |s|
    ensures forall i :: 0 <= i < |r| ==> r[i] in s && keep(r[i])
    ensures forall i :: 0 <= i < |s| && keep(s[i]) ==> s[i] in r
  {
    if s == [] then []
    else if keep(s[0]) then [s[0]] + Filter(s[1..], keep)
    else Filter(s[1..], keep)
  }

  /**
   * A filter keeps storage order: filtering a concatenation concatenates the
   * filtered parts, and a single document is kept exactly when it passes.
   * Together these fix the filter as the passing documents of `s`, in order
   * and with their multiplicity.
   */
  lemma {:induction false} FilterAppend<T>(a: seq<T>, b: seq<T>, keep: T -> bool)
    ensures Filter(a + b, keep) == Filter(a, keep) + Filter(b, keep)
    ensures |a| == 1 ==> Filter(a, keep) == (if keep(a[0]) then a else [])
  {
    if a == [] {
      assert a + b == b;
    } else {
      assert (a + b)[1..] == a[1..] + b;
      assert (a + b)[0] == a[0];
      FilterAppend(a[1..], b, keep);
      if |a| == 1 {
        assert a[1..] == [];
        assert a == [a[0]];
      }
    }
  }

  /** Membership in a filter: exactly the documents of `s` that pass. */
  lemma FilterIn<T>(s: seq<T>, keep: T -> bool, x: T)
    ensures x in Filter(s, keep) <==> x in s && keep(x)
  {
    var r := Filter(s, keep);
    if x in r {
      var i :| 0 <= i < |r| && r[i] == x;
    }
    if x in s && keep(x) {
      var i :| 0 <= i < |s| && s[i] == x;
    }
  }

  /** `key` takes no value twice in `s`: the database's unique index on that field. */
  predicate UniqueBy<T, K(==)>(s: seq<T>, key: T -> K)
  {
    forall i, j :: 0 <= i < |s| && 0 <= j < |s| && i != j ==> key(s[i]) != key(s[j])
  }

  /** Removing documents never breaks a unique index. */
  lemma {:induction false} FilterKeepsUnique<T, K>(s: seq<T>, keep: T -> bool, key: T -> K)
    requires UniqueBy(s, key)
    ensures UniqueBy(Filter(s, keep), key)
  {
    if s != [] {
      var tail := Filter(s[1..], keep);
      assert UniqueBy(s[1..], key) by {
        forall i, j | 0 <= i < |s| - 1 && 0 <= j < |s| - 1 && i != j
          ensures key(s[1..][i]) != key(s[1..][j])
        {
          assert s[1..][i] == s[i + 1] && s[1..][j] == s[j + 1];
        }
      }
      FilterKeepsUnique(s[1..], keep, key);
      if keep(s[0]) {
        var r := [s[0]] + tail;
        forall i, j | 0 <= i < |r| && 0 <= j < |r| && i != j
          ensures key(r[i]) != key(r[j])
        {
          if i == 0 || j == 0 {
            var k := if i == 0 then j else i;
            assert r[k] in s[1..];
            var m :| 0 <= m < |s[1..]| && s[1..][m] == r[k];
            assert s[m + 1] == r[k];
          }
        }
      }
    }
  }

  /** `s` is in descending order of `key`, which is what `order_by("-field")` returns. */
  predicate SortedDesc<T>(s: seq<T>, key: T -> int)
  {
    forall i, j :: 0 <= i < j < |s| ==> key(s[i]) >= key(s[j])
  }

  /** Puts `x` in front of the first element whose key is not greater than its own. */
  function InsertDesc<T>(x: T, s: seq<T>, key: T -> int): (r: seq<T>)
    requires SortedDesc(s, key)
    ensures SortedDesc(r, key)
    ensures multiset(r) == multiset(s) + multiset{x}
  {
    if s == [] || key(x) >= key(s[0]) then [x] + s
    else
      var tail := InsertDesc(x, s[1..], key);
      assert forall m :: 0 <= m < |s[1..]| ==> key(s[1..][m]) <= key(s[0]) by {
        forall m | 0 <= m < |s[1..]| ensures key(s[1..][m]) <= key(s[0]) {
          assert s[1..][m] == s[m + 1];
        }
      }
      BoundedBy(tail, s[1..], x, key, key(s[0]));
      ConsSorted(s[0], tail, key);
      assert s == [s[0]] + s[1..];
      assert multiset([s[0]] + tail) == multiset{s[0]} + multiset(tail);
      [s[0]] + tail
  }

  /** A head no smaller than every key of a sorted tail keeps the sequence sorted. */
  lemma ConsSorted<T>(h: T, t: seq<T>, key: T -> int)
    requires SortedDesc(t, key)
    requires forall j :: 0 <= j < |t| ==> key(t[j]) <= key(h)
    ensures SortedDesc([h] + t, key)
  {
    var r := [h] + t;
    forall i, j | 0 <= i < j < |r| ensures key(r[i]) >= key(r[j]) {
      assert r[j] == t[j - 1];
      if i > 0 {
        assert r[i] == t[i - 1];
      }
    }
  }

  /** A rearrangement of `s` and `x` keeps every key at most `b` when they all are. */
  lemma BoundedBy<T>(t: seq<T>, s: seq<T>, x: T, key: T -> int, b: int)
    requires multiset(t) == multiset(s) + multiset{x}
    requires forall m :: 0 <= m < |s| ==> key(s[m]) <= b
    requires key(x) <= b
    ensures forall j :: 0 <= j < |t| ==> key(t[j]) <= b
  {
    forall j | 0 <= j < |t| ensures key(t[j]) <= b {
      assert t[j] in multiset(t);
      if t[j] != x {
        assert t[j] in multiset(s);
        var m :| 0 <= m < |s| && s[m] == t[j];
      }
    }
  }

  /**
   * `order_by("-key")`: the same documents, highest key first. Among equal
   * keys the database promises no order; this model keeps storage order.
   */
  function SortDesc<T>(s: seq<T>, key: T -> int): (r: seq<T>)
    ensures SortedDesc(r, key)
    ensures multiset(r) == multiset(s)
    ensures |r| == |s|
  {
    if s == [] then []
    else
      assert s == [s[0]] + s[1..];
      InsertDesc(s[0], SortDesc(s[1..], key), key)
  }

  /** Everything in a sorted sequence comes from the sequence that was sorted. */
  lemma SortDescMember<T>(s: seq<T>, key: T -> int, i: nat)
    requires i < |SortDesc(s, key)|
    ensures SortDesc(s, key)[i] in s
  {
    var sorted := SortDesc(s, key);
    assert sorted[i] in multiset(sorted);
  }

  /** `skip(n)`: drops the first n documents. */
  function Skip<T>(s: seq<T>, n: nat): (r: seq<T>)
    ensures |r| == if n <= |s| then |s| - n else 0
    ensures forall i :: 0 <= i < |r| ==> r[i] == s[n + i]
  {
    if n <= |s| then s[n..] else []
  }

  /** `limit(n)` for a positive n: at most the first n documents. */
  function Limit<T>(s: seq<T>, n: nat): (r: seq<T>)
    requires n >= 1
    ensures |r| == Min(n, |s|)
    ensures r == s[..|r|]
  {
    if n <= |s| then s[..n] else s
  }

  /** `skip(offset).limit(size)` is the slice `s[offset..offset + size]`, cut at the end of `s`. */
  lemma WindowIsSlice<T>(s: seq<T>, offset: nat, size: nat)
    requires size >= 1
    ensures offset <= |s| ==> Limit(Skip(s, offset), size) == s[offset..Min(offset + size, |s|)]
    ensures offset > |s| ==> Limit(Skip(s, offset), size) == []
  {
  }

  /** A page of a sorted sequence is sorted, and its i-th element is the sequence's (offset + i)-th. */
  lemma PageOfSorted<T>(s: seq<T>, key: T -> int, offset: nat, size: nat)
    requires size >= 1 && SortedDesc(s, key)
    ensures var w := Limit(Skip(s, offset), size);
            && |w| <= size
            && (forall i :: 0 <= i < |w| ==> offset + i < |s| && w[i] == s[offset + i])
            && SortedDesc(w, key)
  {
    var w := Limit(Skip(s, offset), size);
    forall i | 0 <= i < |w| ensures offset + i < |s| && w[i] == s[offset + i] {
      assert w[i] == Skip(s, offset)[i];
    }
  }

  /** `first()` on a filter: the position of the first matching document, if any. */
  function First<T>(s: seq<T>, p: T -> bool): (r: Option<nat>)
    ensures r.Some? ==> r.value < |s| && p(s[r.value])
    ensures r.Some? ==> forall k :: 0 <= k < r.value ==> !p(s[k])
    ensures r.None? <==> forall k :: 0 <= k < |s| ==> !p(s[k])
  {
    FirstFrom(s, p, 0)
  }

  function FirstFrom<T>(s: seq<T>, p: T -> bool, i: nat): (r: Option<nat>)
    requires i <= |s|
    requires forall k :: 0 <= k < i ==> !p(s[k])
    ensures r.Some? ==> i <= r.value < |s| && p(s[r.value])
    ensures r.Some? ==> forall k :: 0 <= k < r.value ==> !p(s[k])
    ensures r.None? <==> forall k :: 0 <= k < |s| ==> !p(s[k])
    decreases |s| - i
  {
    if i == |s| then None
    else if p(s[i]) then Some(i)
    else FirstFrom(s, p, i + 1)
  }
}
