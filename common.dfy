/** Shared value types and folds over sequences: the in-memory stand-ins for
    query results (`findMany` lists) and the `reduce` sums computed over them. */
module Common {

  datatype Option<T> = None | Some(value: T)

  datatype Result<T, E> = Ok(value: T) | Err(error: E)

  /** `Math.min` on exact decimals. */
  function Min(a: real, b: real): (m: real)
    ensures m <= a && m <= b && (m == a || m == b)
  {
    if a <= b then a else b
  }

  /** A prefix grows by the next element. Stated for any element type, so that
      a caller's sequence of expensive values need not be compared pointwise. */
  lemma PrefixStep<T>(s: seq<T>, i: nat)
    requires i < |s|
    ensures s[..i + 1] == s[..i] + [s[i]]
  {
  }

  /** Dropping the head of a cons gives the tail back. */
  lemma TailOfCons<T>(x: T, s: seq<T>)
    ensures ([x] + s)[1..] == s
  {
  }

  /** Concatenation is associative. */
  lemma AppendAssoc<T>(a: seq<T>, b: seq<T>, c: seq<T>)
    ensures a + (b + c) == (a + b) + c
  {
  }

  /** Multisets with the same multiplicities are equal. */
  lemma MultisetExt<T>(a: multiset<T>, b: multiset<T>)
    requires forall x :: a[x] == b[x]
    ensures a == b
  {
  }

  /** `rows.reduce((sum, r) => sum + f(r), 0)` over exact decimals. */
  function Sum<T>(rows: seq<T>, f: T -> real): real
    decreases |rows|
  {
    if rows == [] then 0.0 else f(rows[0]) + Sum(rows[1..], f)
  }

  lemma {:induction false} SumAppend<T>(a: seq<T>, b: seq<T>, f: T -> real)
    ensures Sum(a + b, f) == Sum(a, f) + Sum(b, f)
    decreases |a|
  {
    if a == [] {
      assert a + b == b;
    } else {
      assert (a + b)[1..] == a[1..] + b;
      SumAppend(a[1..], b, f);
    }
  }

  /** Taking one row out of a fold leaves the rest of the sum. */
  lemma SumRemove<T>(b: seq<T>, i: nat, f: T -> real)
    requires i < |b|
    ensures Sum(b, f) == f(b[i]) + Sum(b[..i] + b[i+1..], f)
  {
    assert b == b[..i] + ([b[i]] + b[i+1..]);
    SumAppend(b[..i], [b[i]] + b[i+1..], f);
    SumAppend([b[i]], b[i+1..], f);
    SumAppend(b[..i], b[i+1..], f);
  }

  /** A sum does not depend on the order of the rows it folds over. */
  lemma {:induction false} SumPermutation<T>(a: seq<T>, b: seq<T>, f: T -> real)
    requires multiset(a) == multiset(b)
    ensures Sum(a, f) == Sum(b, f)
    decreases |a|
  {
    if a == [] {
      assert |b| == |multiset(b)| == 0;
    } else {
      var x := a[0];
      assert x in multiset(b);
      var i :| 0 <= i < |b| && b[i] == x;
      var rest := b[..i] + b[i+1..];
      MultisetRemove(b, i);
      assert a == [x] + a[1..];
      assert multiset(a[1..]) == multiset(a) - multiset{x};
      SumPermutation(a[1..], rest, f);
      SumRemove(b, i, f);
    }
  }

  lemma MultisetRemove<T>(b: seq<T>, i: nat)
    requires i < |b|
    ensures multiset(b[..i] + b[i+1..]) == multiset(b) - multiset{b[i]}
  {
    assert b == b[..i] + [b[i]] + b[i+1..];
  }

  /** Each summand is at most `hi`, so the sum is at most `|rows| * hi`. */
  lemma {:induction false} SumAtMost<T>(rows: seq<T>, f: T -> real, hi: real)
    requires forall i :: 0 <= i < |rows| ==> f(rows[i]) <= hi
    ensures Sum(rows, f) <= (|rows| as real) * hi
    decreases |rows|
  {
    if rows != [] {
      var tail := rows[1..];
      assert forall i :: 0 <= i < |tail| ==> tail[i] == rows[i + 1];
      SumAtMost(tail, f, hi);
      var n := |tail| as real;
      assert (|rows| as real) * hi == n * hi + hi;
    }
  }

  /** Each summand is at least `lo`, so the sum is at least `|rows| * lo`. */
  lemma {:induction false} SumAtLeast<T>(rows: seq<T>, f: T -> real, lo: real)
    requires forall i :: 0 <= i < |rows| ==> lo <= f(rows[i])
    ensures (|rows| as real) * lo <= Sum(rows, f)
    decreases |rows|
  {
    if rows != [] {
      var tail := rows[1..];
      assert forall i :: 0 <= i < |tail| ==> tail[i] == rows[i + 1];
      SumAtLeast(tail, f, lo);
      var n := |tail| as real;
      assert (|rows| as real) * lo == n * lo + lo;
    }
  }

  /** Two folds whose summands agree row by row have the same sum. */
  lemma {:induction false} SumAgree<T>(rows: seq<T>, f: T -> real, g: T -> real)
    requires forall i :: 0 <= i < |rows| ==> f(rows[i]) == g(rows[i])
    ensures Sum(rows, f) == Sum(rows, g)
    decreases |rows|
  {
    if rows != [] {
      SumAgree(rows[1..], f, g);
    }
  }

  /** A fold of summands `f + g` is the fold of `f` plus the fold of `g`. */
  lemma {:induction false} SumAdd<T>(rows: seq<T>, f: T -> real, g: T -> real, h: T -> real)
    requires forall i :: 0 <= i < |rows| ==> h(rows[i]) == f(rows[i]) + g(rows[i])
    ensures Sum(rows, h) == Sum(rows, f) + Sum(rows, g)
    decreases |rows|
  {
    if rows != [] {
      SumAdd(rows[1..], f, g, h);
    }
  }

  /** Over distinct rows, a summand that is `v` at `x` and 0 elsewhere sums to
      `v` if `x` is among the rows and to 0 otherwise. */
  lemma {:induction false} SumSingle<T>(rows: seq<T>, f: T -> real, x: T, v: real)
    requires NoDuplicates(rows)
    requires forall i :: 0 <= i < |rows| ==> f(rows[i]) == if rows[i] == x then v else 0.0
    ensures Sum(rows, f) == if x in rows then v else 0.0
    decreases |rows|
  {
    if rows != [] {
      SumSingle(rows[1..], f, x, v);
      assert rows[0] == x ==> x !in rows[1..];
    }
  }

  /** `rows.filter(p)`. */
  function Filter<T>(rows: seq<T>, p: T -> bool): (r: seq<T>)
    ensures |r| <= |rows|
    decreases |rows|
  {
    if rows == [] then []
    else if p(rows[0]) then [rows[0]] + Filter(rows[1..], p)
    else Filter(rows[1..], p)
  }

  /** Where a row of a filter comes from in the input. */
  lemma {:induction false} FilterSource<T>(rows: seq<T>, p: T -> bool, i: nat) returns (a: nat)
    requires i < |Filter(rows, p)|
    ensures a < |rows| && rows[a] == Filter(rows, p)[i]
    decreases |rows|
  {
    var rest := Filter(rows[1..], p);
    if p(rows[0]) && i == 0 {
      a := 0;
    } else {
      var k := if p(rows[0]) then i - 1 else i;
      assert Filter(rows, p)[i] == rest[k];
      var a' := FilterSource(rows[1..], p, k);
      a := a' + 1;
    }
  }

  /** Two rows of a filter come from two rows of the input, in the same order. */
  lemma {:induction false} FilterOrder<T>(rows: seq<T>, p: T -> bool, i: nat, j: nat) returns (a: nat, b: nat)
    requires i < j < |Filter(rows, p)|
    ensures a < b < |rows| && rows[a] == Filter(rows, p)[i] && rows[b] == Filter(rows, p)[j]
    decreases |rows|
  {
    var r := Filter(rows, p);
    var tail := rows[1..];
    var rest := Filter(tail, p);
    if p(rows[0]) {
      assert r == [rows[0]] + rest;
      assert r[j] == rest[j - 1];
      if i == 0 {
        var b' := FilterSource(tail, p, j - 1);
        assert rows[b' + 1] == tail[b'];
        a, b := 0, b' + 1;
      } else {
        assert r[i] == rest[i - 1];
        var a', b' := FilterOrder(tail, p, i - 1, j - 1);
        assert rows[a' + 1] == tail[a'] && rows[b' + 1] == tail[b'];
        a, b := a' + 1, b' + 1;
      }
    } else {
      assert r == rest;
      var a', b' := FilterOrder(tail, p, i, j);
      assert rows[a' + 1] == tail[a'] && rows[b' + 1] == tail[b'];
      a, b := a' + 1, b' + 1;
    }
  }

  /** A filter keeps exactly the rows that pass. */
  lemma FilterMembers<T>(rows: seq<T>, p: T -> bool, x: T)
    ensures x in Filter(rows, p) <==> x in rows && p(x)
  {
    FilterCount(rows, p, x);
  }

  /** Every row of a filter passes and is a row of the input. */
  lemma FilterAll<T>(rows: seq<T>, p: T -> bool)
    ensures forall i :: 0 <= i < |Filter(rows, p)| ==> Filter(rows, p)[i] in rows && p(Filter(rows, p)[i])
  {
    var r := Filter(rows, p);
    forall i | 0 <= i < |r| ensures r[i] in rows && p(r[i]) {
      FilterMembers(rows, p, r[i]);
    }
  }

  /** Every row of the input that passes is in the filter. */
  lemma FilterKeeps<T>(rows: seq<T>, p: T -> bool, i: nat)
    requires i < |rows| && p(rows[i])
    ensures rows[i] in Filter(rows, p)
  {
    FilterMembers(rows, p, rows[i]);
  }

  /** Filtering rows without repeats gives rows without repeats. */
  lemma {:induction false} FilterNoDuplicates<T>(rows: seq<T>, p: T -> bool)
    requires NoDuplicates(rows)
    ensures NoDuplicates(Filter(rows, p))
    decreases |rows|
  {
    if rows != [] {
      var tail := rows[1..];
      assert NoDuplicates(tail) by {
        forall i, j | 0 <= i < j < |tail| ensures tail[i] != tail[j] {
          assert tail[i] == rows[i + 1] && tail[j] == rows[j + 1];
        }
      }
      FilterNoDuplicates(tail, p);
      if p(rows[0]) {
        var rest := Filter(tail, p);
        assert rows[0] !in tail by {
          forall k | 0 <= k < |tail| ensures tail[k] != rows[0] {
            assert tail[k] == rows[k + 1];
          }
        }
        FilterMembers(tail, p, rows[0]);
        ConsNoDuplicates(rows[0], rest);
      }
    }
  }

  /** A filter keeps every copy of a row that passes and none of a row that fails. */
  lemma {:induction false} FilterCount<T>(rows: seq<T>, p: T -> bool, x: T)
    ensures multiset(Filter(rows, p))[x] == if p(x) then multiset(rows)[x] else 0
    decreases |rows|
  {
    if rows != [] {
      FilterCount(rows[1..], p, x);
      assert rows == [rows[0]] + rows[1..];
    }
  }

  /** Filtering two orderings of the same rows gives two orderings of the same result. */
  lemma FilterPermutation<T>(a: seq<T>, b: seq<T>, p: T -> bool)
    requires multiset(a) == multiset(b)
    ensures multiset(Filter(a, p)) == multiset(Filter(b, p))
  {
    var fa, fb := multiset(Filter(a, p)), multiset(Filter(b, p));
    forall x
      ensures fa[x] == fb[x]
    {
      FilterCount(a, p, x);
      FilterCount(b, p, x);
    }
    MultisetExt(fa, fb);
  }

  /** A filter of joined rows is the join of the filters. */
  lemma {:induction false} FilterAppend<T>(a: seq<T>, b: seq<T>, p: T -> bool)
    ensures Filter(a + b, p) == Filter(a, p) + Filter(b, p)
    decreases |a|
  {
    if a == [] {
      assert a + b == b;
    } else {
      assert (a + b)[1..] == a[1..] + b;
      FilterAppend(a[1..], b, p);
    }
  }

  /** Filters by two tests that agree on every row give the same rows. */
  lemma {:induction false} FilterAgree<T>(rows: seq<T>, p: T -> bool, q: T -> bool)
    requires forall i :: 0 <= i < |rows| ==> p(rows[i]) == q(rows[i])
    ensures Filter(rows, p) == Filter(rows, q)
    decreases |rows|
  {
    if rows != [] {
      FilterAgree(rows[1..], p, q);
    }
  }

  /** `rows.map(f)`. */
  function Map<T, U>(rows: seq<T>, f: T -> U): (r: seq<U>)
    ensures |r| == |rows|
    ensures forall i :: 0 <= i < |rows| ==> r[i] == f(rows[i])
    decreases |rows|
  {
    if rows == [] then [] else [f(rows[0])] + Map(rows[1..], f)
  }

  predicate NoDuplicates<T(==)>(s: seq<T>)
  {
    forall i, j :: 0 <= i < j < |s| ==> s[i] != s[j]
  }

  /** A new value in front of rows without repeats gives rows without repeats. */
  lemma ConsNoDuplicates<T>(x: T, s: seq<T>)
    requires x !in s && NoDuplicates(s)
    ensures NoDuplicates([x] + s)
  {
    var t := [x] + s;
    forall i, j | 0 <= i < j < |t| ensures t[i] != t[j] {
      assert t[j] == s[j - 1];
      if i > 0 {
        assert t[i] == s[i - 1];
      }
    }
  }

  /** The distinct values of `s` in order of first occurrence (a JS `Set`
      built from `s`, or a `distinct` query). */
  function Distinct<T(==)>(s: seq<T>): (r: seq<T>)
    ensures NoDuplicates(r)
    ensures forall i :: 0 <= i < |r| ==> r[i] in s
    ensures forall i :: 0 <= i < |s| ==> s[i] in r
    ensures |r| <= |s|
  {
    DistinctAfter(s, [])
  }

  /** The distinct values are exactly the values. */
  lemma DistinctMembers<T>(s: seq<T>, x: T)
    ensures x in Distinct(s) <==> x in s
  {
    var r := Distinct(s);
    if x in r {
      var i :| 0 <= i < |r| && r[i] == x;
    }
    if x in s {
      var i :| 0 <= i < |s| && s[i] == x;
    }
  }

  function DistinctAfter<T(==)>(s: seq<T>, seen: seq<T>): (r: seq<T>)
    requires NoDuplicates(seen)
    ensures NoDuplicates(r)
    ensures forall i :: 0 <= i < |r| ==> r[i] in s || r[i] in seen
    ensures forall i :: 0 <= i < |s| ==> s[i] in r
    ensures |r| <= |s| + |seen|
    ensures |seen| <= |r| && r[..|seen|] == seen
    decreases |s|
  {
    if s == [] then seen
    else
      var seen' := if s[0] in seen then seen else seen + [s[0]];
      var r := DistinctAfter(s[1..], seen');
      assert s[0] in seen' && seen' == r[..|seen'|];
      assert forall i :: 1 <= i < |s| ==> s[i] == s[1..][i - 1];
      r
  }
}
