/**
 * Python's `max(items, key=cmp_to_key(cmp), default=None)`, and its use with
 * `semver.compare` to pick the latest version. The first element is the
 * running maximum; each later element replaces it when `cmp(element, maximum)`
 * is positive, so the first of several equal maxima is kept. A comparison may
 * raise (`semver.compare` raises `ValueError` for an invalid version), and the
 * exception ends the call; a lone element is never compared.
 */
module Latest {
  import opened Results
  import opened SemVer

  // ---------------------------------------------------------------------------
  // max with a comparison function

  /** The fold over `rest` with running maximum `current`. */
  function MaxFrom<T, E>(cmp: (T, T) -> Result<int, E>, current: T, rest: seq<T>): (r: Result<T, E>)
    ensures r.Ok? ==> r.value == current || r.value in rest
    decreases |rest|
  {
    if rest == [] then Ok(current)
    else
      match cmp(rest[0], current)
      case Err(e) => Err(e)
      case Ok(c) => MaxFrom(cmp, if c > 0 then rest[0] else current, rest[1..])
  }

  /** `max(items, key=cmp_to_key(cmp), default=None)`. */
  function Max<T, E>(cmp: (T, T) -> Result<int, E>, items: seq<T>): (r: Result<Option<T>, E>)
    ensures r.Ok? ==> (r.value.None? <==> items == [])
    ensures r.Ok? && r.value.Some? ==> r.value.value in items
  {
    if items == [] then Ok(None)
    else
      match MaxFrom(cmp, items[0], items[1..])
      case Err(e) => Err(e)
      case Ok(m) => Ok(Some(m))
  }

  /** `cmp` accepts `x`: comparing it with itself does not raise. */
  predicate Defined<T, E>(cmp: (T, T) -> Result<int, E>, x: T) {
    cmp(x, x).Ok?
  }

  predicate AllDefined<T, E>(cmp: (T, T) -> Result<int, E>, xs: seq<T>) {
    forall i :: 0 <= i < |xs| ==> Defined(cmp, xs[i])
  }

  /**
   * `cmp` raises exactly for undefined arguments and orders the defined ones
   * as a total preorder: reflexive, antisymmetric in sign, transitive.
   */
  ghost predicate IsPreorder<T(!new), E>(cmp: (T, T) -> Result<int, E>) {
    && (forall a, b :: cmp(a, b).Ok? <==> Defined(cmp, a) && Defined(cmp, b))
    && (forall a :: Defined(cmp, a) ==> cmp(a, a).value == 0)
    && (forall a, b :: cmp(a, b).Ok? ==> cmp(b, a).Ok? && cmp(b, a).value == -cmp(a, b).value)
    && (forall a, b, c :: cmp(a, b).Ok? && cmp(b, c).Ok? && cmp(a, b).value <= 0 && cmp(b, c).value <= 0
          ==> cmp(a, c).value <= 0)
  }

  /** `a` is not above `b`. */
  predicate NotAbove<T, E>(cmp: (T, T) -> Result<int, E>, a: T, b: T) {
    cmp(a, b).Ok? && cmp(a, b).value <= 0
  }

  /** `a` is strictly below `b`. */
  predicate Below<T, E>(cmp: (T, T) -> Result<int, E>, a: T, b: T) {
    cmp(a, b).Ok? && cmp(a, b).value < 0
  }

  lemma StrictTransitive<T(!new), E>(cmp: (T, T) -> Result<int, E>, a: T, b: T, c: T)
    requires IsPreorder(cmp)
    ensures Below(cmp, a, b) && NotAbove(cmp, b, c) ==> Below(cmp, a, c)
    ensures NotAbove(cmp, a, b) && Below(cmp, b, c) ==> Below(cmp, a, c)
  {
  }

  /** The fold raises exactly when some comparison meets an undefined element. */
  lemma {:induction false} MaxFromFails<T(!new), E>(cmp: (T, T) -> Result<int, E>, current: T, rest: seq<T>)
    requires IsPreorder(cmp)
    ensures MaxFrom(cmp, current, rest).Err? <==> rest != [] && !(Defined(cmp, current) && AllDefined(cmp, rest))
    decreases |rest|
  {
    if rest != [] {
      assert AllDefined(cmp, rest) <==> Defined(cmp, rest[0]) && AllDefined(cmp, rest[1..]) by {
        assert forall i :: 0 < i < |rest| ==> rest[i] == rest[1..][i - 1];
      }
      if cmp(rest[0], current).Ok? {
        var c := cmp(rest[0], current).value;
        MaxFromFails(cmp, if c > 0 then rest[0] else current, rest[1..]);
      }
    }
  }

  /** Nothing the fold passes over lies above what it finds. */
  lemma {:induction false} MaxFromBound<T(!new), E>(cmp: (T, T) -> Result<int, E>, current: T, rest: seq<T>)
    requires IsPreorder(cmp)
    requires rest != [] && MaxFrom(cmp, current, rest).Ok?
    ensures var m := MaxFrom(cmp, current, rest).value;
      && NotAbove(cmp, current, m)
      && forall i :: 0 <= i < |rest| ==> NotAbove(cmp, rest[i], m)
    decreases |rest|
  {
    var m := MaxFrom(cmp, current, rest).value;
    var x, tail := rest[0], rest[1..];
    var c := cmp(x, current).value;
    var next := if c > 0 then x else current;
    assert MaxFrom(cmp, next, tail) == Ok(m);
    if tail == [] {
      assert m == next;
    } else {
      MaxFromBound(cmp, next, tail);
      assert forall i :: 0 < i < |rest| ==> rest[i] == tail[i - 1];
    }
  }

  /**
   * What the fold finds is the starting maximum, or an element of `rest`
   * strictly above the starting maximum and above every element before it.
   */
  lemma {:induction false} MaxFromFirst<T(!new), E>(cmp: (T, T) -> Result<int, E>, current: T, rest: seq<T>)
    requires IsPreorder(cmp)
    requires rest != [] && MaxFrom(cmp, current, rest).Ok?
    ensures var m := MaxFrom(cmp, current, rest).value;
      m == current ||
      (Below(cmp, current, m) &&
       exists j :: 0 <= j < |rest| && rest[j] == m && forall i :: 0 <= i < j ==> Below(cmp, rest[i], m))
    decreases |rest|
  {
    var m := MaxFrom(cmp, current, rest).value;
    var x, tail := rest[0], rest[1..];
    var c := cmp(x, current).value;
    var next := if c > 0 then x else current;
    assert MaxFrom(cmp, next, tail) == Ok(m);
    if tail != [] {
      MaxFromFirst(cmp, next, tail);
    }
    if m != next {
      var j :| 0 <= j < |tail| && tail[j] == m && forall i :: 0 <= i < j ==> Below(cmp, tail[i], m);
      StrictTransitive(cmp, current, x, m);
      StrictTransitive(cmp, x, current, m);
      assert rest[j + 1] == m;
      assert forall i :: 0 < i <= j ==> rest[i] == tail[i - 1];
    } else if c > 0 {
      assert rest[0] == m;
    }
  }

  /** No elements, no maximum. */
  lemma MaxEmpty<T(!new), E>(cmp: (T, T) -> Result<int, E>, items: seq<T>)
    ensures Max(cmp, items) == Ok(None) <==> items == []
  {
  }

  /** `max` raises exactly when there are two elements or more and one of them is undefined. */
  lemma MaxFails<T(!new), E>(cmp: (T, T) -> Result<int, E>, items: seq<T>)
    requires IsPreorder(cmp)
    ensures Max(cmp, items).Err? <==> |items| >= 2 && !AllDefined(cmp, items)
  {
    if items != [] {
      MaxFromFails(cmp, items[0], items[1..]);
      assert AllDefined(cmp, items) <==> Defined(cmp, items[0]) && AllDefined(cmp, items[1..]) by {
        assert forall i :: 0 < i < |items| ==> items[i] == items[1..][i - 1];
      }
    }
  }

  /**
   * None of the elements lies strictly above the maximum; with two elements or
   * more, every one of them was compared and is not above it.
   */
  lemma MaxBound<T(!new), E>(cmp: (T, T) -> Result<int, E>, items: seq<T>)
    requires IsPreorder(cmp)
    requires Max(cmp, items).Ok? && Max(cmp, items).value.Some?
    ensures var m := Max(cmp, items).value.value;
      && (forall i :: 0 <= i < |items| ==> !(cmp(items[i], m).Ok? && cmp(items[i], m).value > 0))
      && (|items| >= 2 ==> forall i :: 0 <= i < |items| ==> NotAbove(cmp, items[i], m))
  {
    var m := Max(cmp, items).value.value;
    if |items| == 1 {
      assert items[0] == m;
    } else {
      MaxFromBound(cmp, items[0], items[1..]);
      assert forall i :: 0 < i < |items| ==> items[i] == items[1..][i - 1];
    }
  }

  /** The maximum is one of the elements, and every element before it is strictly below it. */
  lemma MaxFirst<T(!new), E>(cmp: (T, T) -> Result<int, E>, items: seq<T>)
    requires IsPreorder(cmp)
    requires Max(cmp, items).Ok? && Max(cmp, items).value.Some?
    ensures var m := Max(cmp, items).value.value;
      exists j :: 0 <= j < |items| && items[j] == m && forall i :: 0 <= i < j ==> Below(cmp, items[i], m)
  {
    var m := Max(cmp, items).value.value;
    if |items| == 1 || m == items[0] {
      assert items[0] == m;
    } else {
      MaxFromFirst(cmp, items[0], items[1..]);
      var j :| 0 <= j < |items[1..]| && items[1..][j] == m
        && forall i :: 0 <= i < j ==> Below(cmp, items[1..][i], m);
      assert items[j + 1] == m;
      assert forall i :: 0 < i <= j ==> items[i] == items[1..][i - 1];
    }
  }

  /** Reordering keeps every element defined. */
  lemma AllDefinedReordered<T(!new), E>(cmp: (T, T) -> Result<int, E>, xs: seq<T>, ys: seq<T>)
    requires multiset(xs) == multiset(ys)
    requires AllDefined(cmp, xs)
    ensures AllDefined(cmp, ys)
  {
    forall i | 0 <= i < |ys| ensures Defined(cmp, ys[i]) {
      assert ys[i] in multiset(xs);
    }
  }

  /**
   * The precedence of the maximum does not depend on the order of the
   * elements: two orders give the same element or two of equal precedence.
   */
  lemma MaxOrderIndependent<T(!new), E>(cmp: (T, T) -> Result<int, E>, xs: seq<T>, ys: seq<T>)
    requires IsPreorder(cmp)
    requires multiset(xs) == multiset(ys)
    requires Max(cmp, xs).Ok? && Max(cmp, xs).value.Some?
    ensures Max(cmp, ys).Ok? && Max(cmp, ys).value.Some?
    ensures var m, n := Max(cmp, xs).value.value, Max(cmp, ys).value.value;
      m == n || cmp(m, n) == Ok(0)
  {
    assert |xs| == |multiset(xs)| == |ys|;
    MaxFails(cmp, xs);
    MaxFails(cmp, ys);
    if |xs| == 1 {
      assert ys[0] in multiset(xs);
    } else {
      AllDefinedReordered(cmp, xs, ys);
      MaxBelowReorderedMax(cmp, xs, ys);
      MaxBelowReorderedMax(cmp, ys, xs);
    }
  }

  /** The maximum of one order is not above the maximum of another. */
  lemma MaxBelowReorderedMax<T(!new), E>(cmp: (T, T) -> Result<int, E>, xs: seq<T>, ys: seq<T>)
    requires IsPreorder(cmp)
    requires multiset(xs) == multiset(ys) && |ys| >= 2
    requires Max(cmp, xs).Ok? && Max(cmp, xs).value.Some?
    requires Max(cmp, ys).Ok? && Max(cmp, ys).value.Some?
    ensures NotAbove(cmp, Max(cmp, xs).value.value, Max(cmp, ys).value.value)
  {
    var m := Max(cmp, xs).value.value;
    MaxFirst(cmp, xs);
    MaxBound(cmp, ys);
    assert m in multiset(ys);
    var a :| 0 <= a < |ys| && ys[a] == m;
  }

  // ---------------------------------------------------------------------------
  // The latest version

  /** `max(versions, key=cmp_to_key(semver.compare), default=None)`. */
  function LatestVersion(vs: seq<string>): (r: Result<Option<string>, InvalidVersion>)
    ensures r.Ok? ==> (r.value.None? <==> vs == [])
    ensures r.Ok? && r.value.Some? ==> r.value.value in vs
  {
    Max(Compare, vs)
  }

  /** `semver.compare` raises exactly when one of its arguments is not a version. */
  lemma CompareDefined()
    ensures forall a, b :: Compare(a, b).Ok? <==> Defined(Compare, a) && Defined(Compare, b)
  {
    forall a, b ensures Compare(a, b).Ok? <==> Defined(Compare, a) && Defined(Compare, b) {
      assert Defined(Compare, a) <==> IsValid(a);
      assert Defined(Compare, b) <==> IsValid(b);
    }
  }

  lemma CompareReflexiveAll()
    ensures forall a :: Defined(Compare, a) ==> Compare(a, a).value == 0
  {
    forall a | Defined(Compare, a) ensures Compare(a, a).value == 0 {
      CompareReflexive(a);
    }
  }

  lemma CompareAntisymmetricAll()
    ensures forall a, b :: Compare(a, b).Ok? ==> Compare(b, a).Ok? && Compare(b, a).value == -Compare(a, b).value
  {
    forall a, b | Compare(a, b).Ok? ensures Compare(b, a).Ok? && Compare(b, a).value == -Compare(a, b).value {
      CompareAntisymmetric(a, b);
    }
  }

  lemma CompareTransitiveAll()
    ensures forall a, b, c :: Compare(a, b).Ok? && Compare(b, c).Ok? && Compare(a, b).value <= 0 && Compare(b, c).value <= 0
              ==> Compare(a, c).value <= 0
  {
    forall a, b, c | Compare(a, b).Ok? && Compare(b, c).Ok? && Compare(a, b).value <= 0 && Compare(b, c).value <= 0
      ensures Compare(a, c).value <= 0
    {
      CompareTransitive(a, b, c);
    }
  }

  /** `semver.compare` is a total preorder on valid version strings. */
  lemma CompareIsPreorder()
    ensures IsPreorder(Compare)
  {
    CompareDefined();
    CompareReflexiveAll();
    CompareAntisymmetricAll();
    CompareTransitiveAll();
  }

  /** Picking the latest version raises exactly when there are two or more versions and one is invalid. */
  lemma LatestVersionFails(vs: seq<string>)
    ensures LatestVersion(vs).Err? <==> |vs| >= 2 && exists i :: 0 <= i < |vs| && !IsValid(vs[i])
  {
    CompareIsPreorder();
    MaxFails(Compare, vs);
    assert AllDefined(Compare, vs) <==> forall i :: 0 <= i < |vs| ==> IsValid(vs[i]);
  }

  /**
   * The latest version is a stored one, no version has strictly greater
   * precedence, and every version yielded before it has strictly lower
   * precedence (`max` keeps the first of equal maxima).
   */
  lemma LatestVersionIsMaximum(vs: seq<string>)
    requires LatestVersion(vs).Ok? && LatestVersion(vs).value.Some?
    ensures var m := LatestVersion(vs).value.value;
      && m in vs
      && (forall i :: 0 <= i < |vs| ==> Compare(vs[i], m) != Ok(1))
      && (|vs| >= 2 ==> forall i :: 0 <= i < |vs| ==> Compare(vs[i], m).Ok? && Compare(vs[i], m).value <= 0)
      && exists j :: 0 <= j < |vs| && vs[j] == m
           && forall i :: 0 <= i < j ==> Compare(vs[i], m).Ok? && Compare(vs[i], m).value < 0
  {
    CompareIsPreorder();
    MaxBound(Compare, vs);
    MaxFirst(Compare, vs);
  }

  /**
   * Whatever order the store yields the versions in, the latest version has
   * the same precedence; when no two stored versions share a precedence it is
   * the same string.
   */
  lemma LatestVersionOrderIndependent(vs: seq<string>, ws: seq<string>)
    requires multiset(vs) == multiset(ws)
    requires LatestVersion(vs).Ok? && LatestVersion(vs).value.Some?
    ensures LatestVersion(ws).Ok? && LatestVersion(ws).value.Some?
    ensures var m, n := LatestVersion(vs).value.value, LatestVersion(ws).value.value;
      && (m == n || Compare(m, n) == Ok(0))
      && ((forall i, j :: 0 <= i < |vs| && 0 <= j < |vs| && vs[i] != vs[j] ==> Compare(vs[i], vs[j]) != Ok(0)) ==> m == n)
  {
    CompareIsPreorder();
    MaxOrderIndependent(Compare, vs, ws);
    LatestVersionIsMaximum(vs);
    LatestVersionIsMaximum(ws);
    var n := LatestVersion(ws).value.value;
    assert n in multiset(vs);
  }

  /** Precedence is numeric: out of 0.0.0, 0.9.0 and 0.10.0, in any order, 0.10.0 is the latest. */
  lemma LatestVersionExample(vs: seq<string>)
    requires multiset(vs) == multiset{"0.0.0", "0.9.0", "0.10.0"}
    ensures LatestVersion(vs) == Ok(Some("0.10.0"))
  {
    assert |vs| == 3;
    assert forall i :: 0 <= i < |vs| ==> vs[i] in multiset(vs);
    ExampleValid(vs);
    LatestVersionFails(vs);
    LatestVersionIsMaximum(vs);
    var m := LatestVersion(vs).value.value;
    assert m in multiset(vs);
    assert "0.10.0" in multiset(vs);
    var k :| 0 <= k < |vs| && vs[k] == "0.10.0";
    ExampleMaximum(m);
  }

  lemma ExampleValid(vs: seq<string>)
    requires forall i :: 0 <= i < |vs| ==> vs[i] in {"0.0.0", "0.9.0", "0.10.0"}
    ensures forall i :: 0 <= i < |vs| ==> IsValid(vs[i])
  {
    Parse000();
    Parse090();
    Parse0100();
  }

  lemma ExampleMaximum(m: string)
    requires m in {"0.0.0", "0.9.0", "0.10.0"} && Compare("0.10.0", m) != Ok(1)
    ensures m == "0.10.0"
  {
    NumericPrecedence();
  }
}
