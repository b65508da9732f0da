/** Sorting a finite set: the one strictly increasing list of its elements. It stands for Go's
    "collect the keys of a map, then sort them", whatever order the keys came in. */
module FiniteOrder {
  ghost predicate StrictTotal<T(!new)>(less: (T, T) -> bool) {
    && (forall x :: !less(x, x))
    && (forall x, y :: x != y ==> less(x, y) || less(y, x))
    && (forall x, y, z :: less(x, y) && less(y, z) ==> less(x, z))
  }

  ghost predicate Increasing<T(!new)>(less: (T, T) -> bool, s: seq<T>) {
    forall i, j | 0 <= i < j < |s| :: less(s[i], s[j])
  }

  ghost function Elements<T>(s: seq<T>): set<T> {
    set x | x in s
  }

  function Insert<T(==)>(less: (T, T) -> bool, x: T, s: seq<T>): seq<T> {
    if s == [] then [x]
    else if x == s[0] then s
    else if less(x, s[0]) then [x] + s
    else [s[0]] + Insert(less, x, s[1..])
  }

  lemma {:induction false} InsertKeepsElements<T(!new)>(less: (T, T) -> bool, x: T, s: seq<T>)
    ensures forall y :: y in Insert(less, x, s) <==> y == x || y in s
  {
    if s != [] && x != s[0] && !less(x, s[0]) {
      InsertKeepsElements(less, x, s[1..]);
      assert s == [s[0]] + s[1..];
    }
  }

  lemma {:induction false} InsertKeepsIncreasing<T(!new)>(less: (T, T) -> bool, x: T, s: seq<T>)
    requires StrictTotal(less) && Increasing(less, s)
    ensures Increasing(less, Insert(less, x, s))
  {
    if s != [] && x != s[0] {
      if less(x, s[0]) {
        forall i | 0 <= i < |s| ensures less(x, s[i]) {
          assert i == 0 || less(s[0], s[i]);
        }
      } else {
        InsertKeepsIncreasing(less, x, s[1..]);
        InsertKeepsElements(less, x, s[1..]);
        var rest := Insert(less, x, s[1..]);
        forall i | 0 <= i < |rest| ensures less(s[0], rest[i]) {
          assert rest[i] in rest;
          assert rest[i] == x || exists j | 1 <= j < |s| :: s[j] == rest[i];
        }
      }
    }
  }

  /** The increasing list of the elements of a set. */
  ghost function Sorted<T(!new)>(less: (T, T) -> bool, s: set<T>): (r: seq<T>)
    requires StrictTotal(less)
    ensures Increasing(less, r) && Elements(r) == s
  {
    if s == {} then []
    else
      var x :| x in s;
      var rest := Sorted(less, s - {x});
      InsertKeepsIncreasing(less, x, rest);
      InsertKeepsElements(less, x, rest);
      assert forall y :: y in Insert(less, x, rest) <==> y in s by {
        assert forall y :: y in rest <==> y in Elements(rest);
      }
      Insert(less, x, rest)
  }

  /** There is only one. */
  lemma {:induction false} IncreasingIsUnique<T(!new)>(less: (T, T) -> bool, a: seq<T>, b: seq<T>)
    requires StrictTotal(less) && Increasing(less, a) && Increasing(less, b)
    requires forall x :: x in a <==> x in b
    ensures a == b
  {
    assert a == [] <==> b == [] by {
      if a != [] {
        assert a[0] in a;
      }
      if b != [] {
        assert b[0] in b;
      }
    }
    if a != [] {
      assert a[0] in a;
      var j :| 0 <= j < |b| && b[j] == a[0];
      assert b[0] in b;
      var i :| 0 <= i < |a| && a[i] == b[0];
      assert i == 0 && j == 0;
      forall x ensures x in a[1..] <==> x in b[1..] {
        TailElements(less, a, x);
        TailElements(less, b, x);
      }
      IncreasingIsUnique(less, a[1..], b[1..]);
      assert a == [a[0]] + a[1..] && b == [b[0]] + b[1..];
    }
  }

  lemma TailElements<T(!new)>(less: (T, T) -> bool, s: seq<T>, x: T)
    requires StrictTotal(less) && Increasing(less, s) && s != []
    ensures x in s[1..] <==> x in s && x != s[0]
  {
    assert s == [s[0]] + s[1..];
    if x in s[1..] {
      var k :| 0 <= k < |s[1..]| && s[1..][k] == x;
      assert less(s[0], s[k + 1]);
    }
  }

  /** Collect in any order, then sort. */
  method CollectAndSort<T(==, !new)>(less: (T, T) -> bool, elements: set<T>) returns (sorted: seq<T>)
    requires StrictTotal(less)
    ensures sorted == Sorted(less, elements)
  {
    sorted := [];
    var todo := elements;
    while todo != {}
      invariant todo <= elements && Increasing(less, sorted)
      invariant forall x :: x in sorted <==> x in elements - todo
    {
      var x :| x in todo;
      InsertKeepsIncreasing(less, x, sorted);
      InsertKeepsElements(less, x, sorted);
      sorted, todo := Insert(less, x, sorted), todo - {x};
    }
    forall x ensures x in sorted <==> x in Sorted(less, elements) {
      assert x in Sorted(less, elements) <==> x in Elements(Sorted(less, elements));
    }
    IncreasingIsUnique(less, sorted, Sorted(less, elements));
  }
}
