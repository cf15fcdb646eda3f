/** The list and set idioms the Java code relies on: null-skipping stream
    filters, null lists read as empty, and the ascending enumeration by which
    this model orders the rows a query returns. */
module Collections {
  import opened Wrappers

  /** `list == null ? emptyList : list` */
  function OrEmpty<T>(xs: Option<seq<T>>): seq<T> {
    if xs.Some? then xs.value else []
  }

  /** `stream().filter(Objects::nonNull)`: the non-null elements, in order. */
  function NonNull<T>(xs: seq<Option<T>>): (r: seq<T>)
    ensures |r| <= |xs|
  {
    if xs == [] then []
    else (if xs[0].Some? then [xs[0].value] else []) + NonNull(xs[1..])
  }

  /** Filtering distributes over concatenation: the relative order of the
      surviving elements is the order in the input. */
  lemma {:induction false} NonNullAppend<T>(xs: seq<Option<T>>, ys: seq<Option<T>>)
    ensures NonNull(xs + ys) == NonNull(xs) + NonNull(ys)
  {
    if xs == [] {
      assert xs + ys == ys;
    } else {
      var zs := xs + ys;
      var head: seq<T> := if xs[0].Some? then [xs[0].value] else [];
      assert zs[0] == xs[0] && zs[1..] == xs[1..] + ys;
      NonNullAppend(xs[1..], ys);
      assert NonNull(zs) == head + (NonNull(xs[1..]) + NonNull(ys));
      assert NonNull(xs) == head + NonNull(xs[1..]);
    }
  }

  /** An element survives exactly when it was present and non-null. */
  lemma {:induction false} NonNullMembers<T>(xs: seq<Option<T>>, x: T)
    ensures x in NonNull(xs) <==> Some(x) in xs
  {
    if xs != [] {
      NonNullMembers(xs[1..], x);
      assert xs == [xs[0]] + xs[1..];
    }
  }

  /** Number of non-null elements. */
  function CountSome<T>(xs: seq<Option<T>>): nat {
    if xs == [] then 0 else (if xs[0].Some? then 1 else 0) + CountSome(xs[1..])
  }

  /** The output has one element per non-null input element. */
  lemma {:induction false} NonNullLength<T>(xs: seq<Option<T>>)
    ensures |NonNull(xs)| == CountSome(xs)
    ensures CountSome(xs) == |xs| <==> forall i | 0 <= i < |xs| :: xs[i].Some?
  {
    if xs != [] {
      NonNullLength(xs[1..]);
      if forall i | 0 <= i < |xs| :: xs[i].Some? {
        assert forall i | 0 <= i < |xs[1..]| :: xs[1..][i] == xs[i + 1];
      }
      if CountSome(xs) == |xs| {
        assert xs[0].Some? by {
          assert CountSome(xs[1..]) <= |xs[1..]| by { CountSomeBound(xs[1..]); }
        }
        forall i | 0 <= i < |xs| ensures xs[i].Some? {
          if i > 0 { assert xs[i] == xs[1..][i - 1]; }
        }
      }
    }
  }

  lemma {:induction false} CountSomeBound<T>(xs: seq<Option<T>>)
    ensures CountSome(xs) <= |xs|
  {
    if xs != [] { CountSomeBound(xs[1..]); }
  }

  /** `(list == null ? emptyList : list).stream().filter(Objects::nonNull).map(f).toList()`,
      the shape of every list variant of the mappers. */
  function MapNonNull<A, B>(xs: Option<seq<Option<A>>>, f: A -> B): (r: seq<B>)
    ensures |r| == |NonNull(OrEmpty(xs))|
    ensures forall i | 0 <= i < |r| :: r[i] == f(NonNull(OrEmpty(xs))[i])
  {
    var ys := NonNull(OrEmpty(xs));
    seq(|ys|, i requires 0 <= i < |ys| => f(ys[i]))
  }

  /** A null or empty list maps to the empty list. */
  lemma MapNonNullEmpty<A, B>(xs: Option<seq<Option<A>>>, f: A -> B)
    requires xs.None? || xs.value == []
    ensures MapNonNull(xs, f) == []
  {
  }

  /** One output per non-null input; as many as inputs when none is null. */
  lemma MapNonNullLength<A, B>(xs: Option<seq<Option<A>>>, f: A -> B)
    ensures |MapNonNull(xs, f)| == CountSome(OrEmpty(xs))
    ensures |MapNonNull(xs, f)| == |OrEmpty(xs)| <==>
      forall i | 0 <= i < |OrEmpty(xs)| :: OrEmpty(xs)[i].Some?
  {
    NonNullLength(OrEmpty(xs));
  }

  /** The outputs are exactly the images of the non-null inputs. */
  lemma MapNonNullMembers<A, B>(xs: Option<seq<Option<A>>>, f: A -> B, y: B)
    ensures y in MapNonNull(xs, f) <==> exists x :: Some(x) in OrEmpty(xs) && y == f(x)
  {
    var ys := NonNull(OrEmpty(xs));
    var r := MapNonNull(xs, f);
    if y in r {
      var i :| 0 <= i < |r| && r[i] == y;
      NonNullMembers(OrEmpty(xs), ys[i]);
    }
    if exists x :: Some(x) in OrEmpty(xs) && y == f(x) {
      var x :| Some(x) in OrEmpty(xs) && y == f(x);
      NonNullMembers(OrEmpty(xs), x);
      var i :| 0 <= i < |ys| && ys[i] == x;
      assert r[i] == y;
    }
  }

  /** The outputs keep the order of the inputs: mapping distributes over
      concatenation. */
  lemma MapNonNullAppend<A, B>(xs: seq<Option<A>>, ys: seq<Option<A>>, f: A -> B)
    ensures MapNonNull(Some(xs + ys), f) == MapNonNull(Some(xs), f) + MapNonNull(Some(ys), f)
  {
    NonNullAppend(xs, ys);
  }

  /** Every element wrapped as non-null. */
  function AllSome<T>(xs: seq<T>): (r: seq<Option<T>>)
    ensures |r| == |xs|
  {
    seq(|xs|, i requires 0 <= i < |xs| => Some(xs[i]))
  }

  /** A list built by wrapping every element has no nulls. */
  lemma AllSomeHasNoNull<T>(xs: seq<T>)
    ensures forall i | 0 <= i < |AllSome(xs)| :: AllSome(xs)[i].Some?
  {
  }

  /** Dropping the nulls of a list without nulls gives the list back. */
  lemma {:induction false} NonNullAllSome<T>(xs: seq<T>)
    ensures NonNull(AllSome(xs)) == xs
  {
    if xs != [] {
      assert AllSome(xs)[1..] == AllSome(xs[1..]);
      NonNullAllSome(xs[1..]);
    }
  }

  predicate NoDup<T(==)>(xs: seq<T>) {
    forall i, j | 0 <= i < j < |xs| :: xs[i] != xs[j]
  }

  predicate StrictlyAscending(xs: seq<int>) {
    forall i, j | 0 <= i < j < |xs| :: xs[i] < xs[j]
  }

  lemma AscendingNoDup(xs: seq<int>)
    requires StrictlyAscending(xs)
    ensures NoDup(xs)
  {
  }

  /** Set extensionality, read backwards: a set with no members is empty. */
  lemma NoMembersEmpty(s: set<int>)
    ensures (forall m :: m !in s) ==> s == {}
  {
    if forall m :: m !in s {
      assert s == {};
    }
  }

  /** A non-empty set has a member to pick. */
  lemma HasMember(s: set<int>)
    requires s != {}
    ensures exists m :: m in s
  {
    NoMembersEmpty(s);
  }

  lemma {:induction false} MinExists(s: set<int>)
    requires s != {}
    ensures exists m :: m in s && forall x | x in s :: m <= x
    decreases |s|
  {
    HasMember(s);
    var y :| y in s;
    if s != {y} {
      var rest := s - {y};
      assert s == rest + {y};
      MinExists(rest);
    }
  }

  /** The smallest element of a non-empty finite set. */
  function Min(s: set<int>): (m: int)
    requires s != {}
    ensures m in s && forall x | x in s :: m <= x
  {
    MinExists(s);
    var m :| m in s && forall x | x in s :: m <= x;
    m
  }

  /** The elements of `s`, each once, in ascending order. */
  function SortedKeys(s: set<int>): (r: seq<int>)
    ensures |r| == |s|
    ensures forall x :: x in r <==> x in s
    ensures StrictlyAscending(r)
    decreases |s|
  {
    if s == {} then []
    else
      var m := Min(s);
      var rest := SortedKeys(s - {m});
      SortedKeysCons(s, m, rest);
      [m] + rest
  }

  /** The least element in front of the others, in order, lists the set. */
  lemma SortedKeysCons(s: set<int>, m: int, rest: seq<int>)
    requires m in s && forall x | x in s :: m <= x
    requires |rest| == |s - {m}| && StrictlyAscending(rest)
    requires forall x :: x in rest <==> x in s - {m}
    ensures |[m] + rest| == |s| && StrictlyAscending([m] + rest)
    ensures forall x :: x in [m] + rest <==> x in s
  {
    var r := [m] + rest;
    forall i, j | 0 <= i < j < |r| ensures r[i] < r[j] {
      if i == 0 {
        assert r[j] == rest[j - 1] && rest[j - 1] in rest;
      } else {
        assert r[i] == rest[i - 1] && r[j] == rest[j - 1];
      }
    }
  }

  /** Two ascending sequences with the same elements are the same sequence:
      a query's result is determined by the rows it selects. */
  lemma {:induction false} AscendingUnique(a: seq<int>, b: seq<int>)
    requires StrictlyAscending(a) && StrictlyAscending(b)
    requires forall x :: x in a <==> x in b
    ensures a == b
  {
    if a != [] {
      assert a[0] in a;
    }
    if b != [] {
      assert b[0] in b;
    }
    if a != [] {
      var i :| 0 <= i < |a| && a[i] == b[0];
      var j :| 0 <= j < |b| && b[j] == a[0];
      assert a[0] <= a[i];
      assert b[0] <= b[j];
      forall x ensures x in a[1..] <==> x in b[1..] {
        assert x in a[1..] <==> x in a && x != a[0];
        assert x in b[1..] <==> x in b && x != b[0];
      }
      AscendingUnique(a[1..], b[1..]);
      assert a == [a[0]] + a[1..];
      assert b == [b[0]] + b[1..];
    }
  }
}
