/** Component-wise ordering of guest paths, as the B-tree of the mount tree sees it. */
module PathOrder {
  import opened Bytes

  datatype Ordering = Less | Equal | Greater {
    function Reverse(): Ordering {
      match this
      case Less => Greater
      case Equal => Equal
      case Greater => Less
    }
  }

  type Name = seq<Byte>
  type Path = seq<Name>

  /** The order of the standard library's iterator comparison: first difference decides, then length. */
  function Lexicographic<T>(compare: (T, T) -> Ordering, a: seq<T>, b: seq<T>): Ordering {
    if a == [] then (if b == [] then Equal else Less)
    else if b == [] then Greater
    else if compare(a[0], b[0]) == Equal then Lexicographic(compare, a[1..], b[1..])
    else compare(a[0], b[0])
  }

  ghost predicate TotalOrder<T(!new)>(compare: (T, T) -> Ordering) {
    && (forall a, b :: compare(a, b) == Equal <==> a == b)
    && (forall a, b :: compare(a, b) == compare(b, a).Reverse())
    && (forall a, b, c :: compare(a, b) == Less && compare(b, c) == Less ==> compare(a, c) == Less)
  }

  lemma {:induction false} LexicographicEqual<T(!new)>(compare: (T, T) -> Ordering, a: seq<T>, b: seq<T>)
    requires TotalOrder(compare)
    ensures Lexicographic(compare, a, b) == Equal <==> a == b
    ensures Lexicographic(compare, a, b) == Lexicographic(compare, b, a).Reverse()
  {
    if a != [] && b != [] {
      LexicographicEqual(compare, a[1..], b[1..]);
      assert a == [a[0]] + a[1..] && b == [b[0]] + b[1..];
    }
  }

  lemma {:induction false} LexicographicTransitive<T(!new)>(
    compare: (T, T) -> Ordering, a: seq<T>, b: seq<T>, c: seq<T>)
    requires TotalOrder(compare)
    requires Lexicographic(compare, a, b) == Less && Lexicographic(compare, b, c) == Less
    ensures Lexicographic(compare, a, c) == Less
  {
    if a != [] {
      if compare(a[0], b[0]) == Equal && compare(b[0], c[0]) == Equal {
        LexicographicTransitive(compare, a[1..], b[1..], c[1..]);
      }
    }
  }

  /** Lifting a total order to sequences gives a total order, so it can be lifted twice. */
  lemma LexicographicTotal<T(!new)>(compare: (T, T) -> Ordering)
    requires TotalOrder(compare)
    ensures TotalOrder((a, b) => Lexicographic(compare, a, b))
  {
    forall a: seq<T>, b: seq<T> {
      LexicographicEqual(compare, a, b);
    }
    forall a: seq<T>, b: seq<T>, c: seq<T>
      | Lexicographic(compare, a, b) == Less && Lexicographic(compare, b, c) == Less
    {
      LexicographicTransitive(compare, a, b, c);
    }
  }

  function CompareBytes(a: Byte, b: Byte): Ordering {
    if a < b then Less else if a == b then Equal else Greater
  }

  function CompareNames(a: Name, b: Name): Ordering {
    Lexicographic(CompareBytes, a, b)
  }

  function ComparePaths(a: Path, b: Path): Ordering {
    Lexicographic(CompareNames, a, b)
  }

  lemma NamesTotal()
    ensures TotalOrder(CompareNames)
  {
    LexicographicTotal(CompareBytes);
    var lifted := (a, b) => Lexicographic(CompareBytes, a, b);
    assert TotalOrder(lifted);
    forall a: Name, b: Name ensures CompareNames(a, b) == lifted(a, b) {}
  }

  /** Guest path comparison is a total order whose equality is component equality. */
  lemma PathsTotal()
    ensures TotalOrder(ComparePaths)
  {
    NamesTotal();
    LexicographicTotal(CompareNames);
    var lifted := (a, b) => Lexicographic(CompareNames, a, b);
    assert TotalOrder(lifted);
    forall a: Path, b: Path ensures ComparePaths(a, b) == lifted(a, b) {}
  }

  /** The first name in which two paths differ decides, and within it the first byte, compared as a number. */
  lemma FirstDifferenceDecides(common: Path, prefix: Name, x: Byte, y: Byte, a: Name, b: Name, c: Path, d: Path)
    requires x < y
    ensures ComparePaths(common + [prefix + [x] + a] + c, common + [prefix + [y] + b] + d) == Less
    ensures ComparePaths(common + [prefix] + c, common + [prefix + [y] + b] + d) == Less
    ensures ComparePaths(common, common + [a] + c) == Less
  {
    Skip(CompareBytes, prefix, [x] + a, [y] + b);
    Skip(CompareBytes, prefix, [], [y] + b);
    assert prefix + [x] + a == prefix + ([x] + a) && prefix + [y] + b == prefix + ([y] + b) && prefix + [] == prefix;
    NamesTotal();
    Skip(CompareNames, common, [prefix + [x] + a] + c, [prefix + [y] + b] + d);
    Skip(CompareNames, common, [prefix] + c, [prefix + [y] + b] + d);
    Skip(CompareNames, common, [], [a] + c);
    assert common + [prefix + [x] + a] + c == common + ([prefix + [x] + a] + c);
    assert common + [prefix + [y] + b] + d == common + ([prefix + [y] + b] + d);
    assert common + [prefix] + c == common + ([prefix] + c);
    assert common + [a] + c == common + ([a] + c) && common + [] == common;
  }

  lemma {:induction false} Skip<T(!new)>(compare: (T, T) -> Ordering, common: seq<T>, a: seq<T>, b: seq<T>)
    requires forall x :: compare(x, x) == Equal
    ensures Lexicographic(compare, common + a, common + b) == Lexicographic(compare, a, b)
  {
    if common == [] {
      assert common + a == a && common + b == b;
    } else {
      Skip(compare, common[1..], a, b);
      assert (common + a)[1..] == common[1..] + a && (common + b)[1..] == common[1..] + b;
    }
  }

  predicate AtMost(a: Path, b: Path) {
    ComparePaths(a, b) != Greater
  }

  /** An ancestor sorts before its descendants. */
  lemma {:induction false} PrefixAtMost(a: Path, b: Path)
    requires a <= b
    ensures AtMost(a, b)
    ensures a != b ==> ComparePaths(a, b) == Less
  {
    if a != [] {
      NamesTotal();
      PrefixAtMost(a[1..], b[1..]);
      assert a == [a[0]] + a[1..] && b == [b[0]] + b[1..];
    }
  }

  /** Descendants of a path form one contiguous block of the order. */
  lemma {:induction false} DescendantsContiguous(p: Path, q: Path, d: Path)
    requires p <= d && AtMost(p, q) && AtMost(q, d)
    ensures p <= q
  {
    if p != [] {
      NamesTotal();
      assert q != [];
      assert CompareNames(p[0], q[0]) == CompareNames(q[0], p[0]).Reverse();
      assert p[0] == d[0] && p[0] == q[0];
      DescendantsContiguous(p[1..], q[1..], d[1..]);
      assert p == [p[0]] + p[1..] && q == [q[0]] + q[1..];
    }
  }

  ghost predicate StrictlySorted(paths: seq<Path>) {
    forall i, j :: 0 <= i < j < |paths| ==> ComparePaths(paths[i], paths[j]) == Less
  }
}
