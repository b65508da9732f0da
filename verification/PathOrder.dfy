/** The order mergeAndSortPaths puts relation paths in: by depth, then by their dotted text. */
module PathOrder {
  import opened Schema
  import FiniteOrder

  function Dotted(p: Path): string {
    if p == [] then "" else if |p| == 1 then p[0] else p[0] + "." + Dotted(p[1..])
  }

  /** strings.Split undoes the dots, so no two paths of the same depth share a text. */
  lemma {:induction false} DottedInjective(p: Path, q: Path)
    requires |p| == |q| && Dotted(p) == Dotted(q)
    ensures p == q
  {
    if |p| == 1 {
      assert p == [p[0]] && q == [q[0]];
    } else if |p| > 1 {
      FirstDot(p[0], Dotted(p[1..]), q[0], Dotted(q[1..]));
      DottedInjective(p[1..], q[1..]);
      assert p == [p[0]] + p[1..] && q == [q[0]] + q[1..];
    }
  }

  lemma NoDotInside(a: Name, x: string)
    ensures forall k | 0 <= k < |a| :: (a + "." + x)[k] != '.'
    ensures (a + "." + x)[|a|] == '.'
  {
    forall k | 0 <= k < |a| ensures a[k] != '.' {
      assert a[k] in a;
    }
  }

  lemma FirstDot(a: Name, x: string, b: Name, y: string)
    requires a + "." + x == b + "." + y
    ensures a == b && x == y
  {
    var s, t := a + "." + x, b + "." + y;
    NoDotInside(a, x);
    NoDotInside(b, y);
    assert |a| == |b|;
    assert a == s[..|a|] && b == t[..|b|] && x == s[|a| + 1..] && y == t[|b| + 1..];
  }

  predicate TextLess(a: string, b: string) {
    b != [] && (a == [] || a[0] < b[0] || (a[0] == b[0] && TextLess(a[1..], b[1..])))
  }

  lemma {:induction false} TextLessTotal(a: string, b: string)
    ensures !TextLess(a, a)
    ensures a != b ==> TextLess(a, b) || TextLess(b, a)
  {
    if a != [] && b != [] {
      TextLessTotal(a[1..], b[1..]);
      assert a == [a[0]] + a[1..] && b == [b[0]] + b[1..];
    } else if a != [] {
      TextLessTotal(a[1..], b);
    }
  }

  lemma {:induction false} TextLessTransitive(a: string, b: string, c: string)
    requires TextLess(a, b) && TextLess(b, c)
    ensures TextLess(a, c)
  {
    if a != [] && a[0] == b[0] == c[0] {
      TextLessTransitive(a[1..], b[1..], c[1..]);
    }
  }

  predicate PathLess(p: Path, q: Path) {
    |p| < |q| || (|p| == |q| && TextLess(Dotted(p), Dotted(q)))
  }

  lemma PathLessIsStrictTotal()
    ensures FiniteOrder.StrictTotal(PathLess)
  {
    hide Dotted, TextLess;
    forall p: Path ensures !PathLess(p, p) {
      TextLessTotal(Dotted(p), Dotted(p));
    }
    forall p: Path, q: Path | p != q ensures PathLess(p, q) || PathLess(q, p) {
      TextLessTotal(Dotted(p), Dotted(q));
      if |p| == |q| && Dotted(p) == Dotted(q) {
        DottedInjective(p, q);
      }
    }
    forall p: Path, q: Path, r: Path | PathLess(p, q) && PathLess(q, r) ensures PathLess(p, r) {
      if |p| == |q| == |r| {
        TextLessTransitive(Dotted(p), Dotted(q), Dotted(r));
      }
    }
  }

  lemma TextLessIsStrictTotal()
    ensures FiniteOrder.StrictTotal(TextLess)
  {
    hide TextLess;
    forall a: string ensures !TextLess(a, a) {
      TextLessTotal(a, a);
    }
    forall a: string, b: string | a != b ensures TextLess(a, b) || TextLess(b, a) {
      TextLessTotal(a, b);
    }
    forall a: string, b: string, c: string | TextLess(a, b) && TextLess(b, c) ensures TextLess(a, c) {
      TextLessTransitive(a, b, c);
    }
  }

  /** `a` is a beginning of `b`, or has the smaller character where they first differ. */
  ghost predicate TextBefore(a: string, b: string) {
    a < b || exists k :: 0 <= k < |a| && k < |b| && a[..k] == b[..k] && a[k] < b[k]
  }

  lemma {:induction false} TextLessMeans(a: string, b: string)
    ensures TextLess(a, b) <==> TextBefore(a, b)
  {
    hide TextBefore;
    if a == [] || b == [] {
      BeforeAtEnd(a, b);
    } else {
      TextLessMeans(a[1..], b[1..]);
      assert a == [a[0]] + a[1..] && b == [b[0]] + b[1..];
      if a[0] == b[0] {
        BeforeBehind(a[0], a[1..], b[1..]);
      } else {
        BeforeAtOnce(a, b);
      }
    }
  }

  lemma BeforeAtEnd(a: string, b: string)
    requires a == [] || b == []
    ensures TextBefore(a, b) <==> b != []
  {
  }

  lemma BeforeAtOnce(a: string, b: string)
    requires a != [] && b != [] && a[0] != b[0]
    ensures TextBefore(a, b) <==> a[0] < b[0]
  {
    assert a[..0] == b[..0];
  }

  lemma BeforeBehind(c: char, a: string, b: string)
    ensures TextBefore([c] + a, [c] + b) <==> TextBefore(a, b)
  {
    var x, y := [c] + a, [c] + b;
    assert x[1..] == a && y[1..] == b;
    if k :| 0 <= k < |a| && k < |b| && a[..k] == b[..k] && a[k] < b[k] {
      assert x[..k + 1] == [c] + a[..k] && y[..k + 1] == [c] + b[..k] && x[k + 1] < y[k + 1];
    }
    if k :| 0 <= k < |x| && k < |y| && x[..k] == y[..k] && x[k] < y[k] {
      assert k > 0 && a[..k - 1] == x[..k][1..] && b[..k - 1] == y[..k][1..] && a[k - 1] < b[k - 1];
    }
  }

  /** Shallower paths come first, and of two with the same depth the one whose text comes first. */
  ghost predicate ComesBefore(p: Path, q: Path) {
    |p| < |q| || (|p| == |q| && TextBefore(Dotted(p), Dotted(q)))
  }

  /** A non-empty text: the paths that are kept. */
  predicate IsProper(p: Path) {
    p != [] && p != [""]
  }

  lemma PathLessMeans()
    ensures forall p: Path, q: Path :: PathLess(p, q) <==> ComesBefore(p, q)
  {
    hide Dotted, TextLess, TextBefore;
    forall p: Path, q: Path ensures PathLess(p, q) <==> ComesBefore(p, q) {
      TextLessMeans(Dotted(p), Dotted(q));
    }
  }

  /** The merged, deduplicated and sorted list of the proper paths in a set. */
  ghost function SortedPaths(paths: set<Path>): (r: seq<Path>)
    ensures forall p :: p in r <==> p in paths && IsProper(p)
    ensures forall i, j | 0 <= i < j < |r| :: ComesBefore(r[i], r[j])
  {
    PathLessIsStrictTotal();
    PathLessMeans();
    var proper := set p | p in paths && IsProper(p);
    var r := FiniteOrder.Sorted(PathLess, proper);
    assert forall p :: p in r <==> p in FiniteOrder.Elements(r);
    r
  }

  /** mergeAndSortPaths */
  method MergeAndSortPaths(a: seq<Path>, b: seq<Path>, c: seq<Path>) returns (r: seq<Path>)
    ensures r == SortedPaths(set p | p in a + b + c)
  {
    hide PathLess, IsProper;
    PathLessIsStrictTotal();
    var paths := set p | p in a + b + c;
    r := FiniteOrder.CollectAndSort(PathLess, set p | p in paths && IsProper(p));
  }
}
