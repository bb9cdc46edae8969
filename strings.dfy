/**
 * The few string operations the registry relies on, with Python's semantics:
 * `sep.join(parts)`, `s.split(sep)`, `s.split(sep, maxsplit)`, the first
 * index of a character and a suffix test. Strings are sequences of code points.
 */
module Strings {
  import opened Results

  /** Number of occurrences of `c` in `s`. */
  function Count(s: string, c: char): nat {
    if s == [] then 0
    else (if s[0] == c then 1 else 0) + Count(s[1..], c)
  }

  lemma {:induction false} CountConcat(a: string, b: string, c: char)
    ensures Count(a + b, c) == Count(a, c) + Count(b, c)
  {
    if a == [] {
      assert a + b == b;
    } else {
      assert (a + b)[1..] == a[1..] + b;
      CountConcat(a[1..], b, c);
    }
  }

  function Min(a: nat, b: nat): nat {
    if a <= b then a else b
  }

  /** `sep.join(parts)`: the parts with one `sep` between neighbours. */
  function Join(parts: seq<string>, sep: char): (r: string)
    ensures |parts| >= 1 ==> parts[0] <= r
  {
    if |parts| == 0 then ""
    else if |parts| == 1 then parts[0]
    else parts[0] + [sep] + Join(parts[1..], sep)
  }

  /** Parts with `c` put in front of the first one. */
  function Extend(c: char, parts: seq<string>): (r: seq<string>)
    requires |parts| >= 1
    ensures |r| == |parts| && r[0] == [c] + parts[0] && r[1..] == parts[1..]
  {
    [[c] + parts[0]] + parts[1..]
  }

  /**
   * `s.split(sep)` for a one-character separator: every occurrence of `sep`
   * cuts, so there is always one part more than there are separators, and
   * empty parts are kept ("" gives [""], "a//b" gives ["a", "", "b"]).
   */
  function Split(s: string, sep: char): (parts: seq<string>)
    ensures |parts| == Count(s, sep) + 1
  {
    if s == [] then [""]
    else
      var rest := Split(s[1..], sep);
      if s[0] == sep then [""] + rest
      else Extend(s[0], rest)
  }

  /** No part of a split holds the separator. */
  lemma {:induction false} SplitExcludes(s: string, sep: char)
    ensures forall i :: 0 <= i < |Split(s, sep)| ==> sep !in Split(s, sep)[i]
  {
    if s != [] {
      SplitExcludes(s[1..], sep);
      var rest := Split(s[1..], sep);
      if s[0] == sep {
        assert Split(s, sep)[1..] == rest;
      } else {
        assert Split(s, sep)[1..] == rest[1..];
        assert sep !in [s[0]] + rest[0];
      }
    }
  }

  /**
   * `s.split(sep, maxsplit)`: only the first `maxsplit` separators cut; the
   * remainder, separators included, is the last part.
   */
  function SplitMax(s: string, sep: char, maxsplit: nat): (parts: seq<string>)
    ensures |parts| == Min(Count(s, sep), maxsplit) + 1
  {
    if s == [] then [""]
    else if s[0] == sep && maxsplit > 0 then [""] + SplitMax(s[1..], sep, maxsplit - 1)
    else
      Extend(s[0], SplitMax(s[1..], sep, maxsplit))
  }

  lemma JoinThree(a: string, b: string, c: string, sep: char)
    ensures Join([a, b, c], sep) == a + [sep] + b + [sep] + c
  {
    assert [a, b, c][1..] == [b, c];
    assert [b, c][1..] == [c];
    assert Join([b, c], sep) == b + [sep] + c;
    assert Join([a, b, c], sep) == a + [sep] + Join([b, c], sep);
  }

  lemma JoinFour(a: string, b: string, c: string, d: string, sep: char)
    ensures Join([a, b, c, d], sep) == a + [sep] + b + [sep] + c + [sep] + d
  {
    assert [a, b, c, d][1..] == [b, c, d];
    JoinThree(b, c, d, sep);
    assert Join([a, b, c, d], sep) == a + [sep] + Join([b, c, d], sep);
  }

  /** Putting a character in front of the first part puts it in front of the join. */
  lemma JoinConsFirst(c: char, parts: seq<string>, sep: char)
    requires |parts| >= 1
    ensures Join(Extend(c, parts), sep) == [c] + Join(parts, sep)
  {
  }

  /** An empty first part contributes only its separator to the join. */
  lemma JoinConsEmpty(parts: seq<string>, sep: char)
    requires |parts| >= 1
    ensures Join([""] + parts, sep) == [sep] + Join(parts, sep)
  {
    assert ([""] + parts)[1..] == parts;
  }

  /** Splitting and joining again gives back the string. */
  lemma {:induction false} JoinSplit(s: string, sep: char)
    ensures Join(Split(s, sep), sep) == s
  {
    if s != [] {
      var rest := Split(s[1..], sep);
      JoinSplit(s[1..], sep);
      if s[0] == sep {
        JoinConsEmpty(rest, sep);
      } else {
        JoinConsFirst(s[0], rest, sep);
      }
      assert s == [s[0]] + s[1..];
    }
  }

  /** With a limit on the number of cuts, splitting and joining still gives back the string. */
  lemma {:induction false} JoinSplitMax(s: string, sep: char, maxsplit: nat)
    ensures Join(SplitMax(s, sep, maxsplit), sep) == s
  {
    if s != [] {
      assert s == [s[0]] + s[1..];
      if s[0] == sep && maxsplit > 0 {
        var rest := SplitMax(s[1..], sep, maxsplit - 1);
        JoinSplitMax(s[1..], sep, maxsplit - 1);
        JoinConsEmpty(rest, sep);
      } else {
        var rest := SplitMax(s[1..], sep, maxsplit);
        JoinSplitMax(s[1..], sep, maxsplit);
        JoinConsFirst(s[0], rest, sep);
      }
    }
  }

  /** When the limit is not reached, a limited split is an unlimited one. */
  lemma {:induction false} SplitMaxUnderLimit(s: string, sep: char, maxsplit: nat)
    requires Count(s, sep) <= maxsplit
    ensures SplitMax(s, sep, maxsplit) == Split(s, sep)
  {
    if s != [] {
      if s[0] == sep {
        SplitMaxUnderLimit(s[1..], sep, maxsplit - 1);
      } else {
        SplitMaxUnderLimit(s[1..], sep, maxsplit);
      }
    }
  }

  /** A string without the separator is a single part. */
  lemma {:induction false} SplitWithoutSeparator(s: string, sep: char)
    requires sep !in s
    ensures Split(s, sep) == [s]
  {
    if s != [] {
      SplitWithoutSeparator(s[1..], sep);
      assert s == [s[0]] + s[1..];
    }
  }

  /** A separator-free first part is cut off at the first separator. */
  lemma {:induction false} SplitAtFirst(a: string, b: string, sep: char)
    requires sep !in a
    ensures Split(a + [sep] + b, sep) == [a] + Split(b, sep)
  {
    if a == [] {
      assert a + [sep] + b == [sep] + b;
      assert ([sep] + b)[1..] == b;
    } else {
      assert (a + [sep] + b)[1..] == a[1..] + [sep] + b;
      SplitAtFirst(a[1..], b, sep);
      assert [a[0]] + a[1..] == a;
    }
  }

  /** Joining separator-free parts and splitting again gives back the parts. */
  lemma {:induction false} SplitJoin(parts: seq<string>, sep: char)
    requires |parts| >= 1
    requires forall i :: 0 <= i < |parts| ==> sep !in parts[i]
    ensures Split(Join(parts, sep), sep) == parts
  {
    if |parts| == 1 {
      SplitWithoutSeparator(parts[0], sep);
    } else {
      SplitJoin(parts[1..], sep);
      SplitAtFirst(parts[0], Join(parts[1..], sep), sep);
      assert [parts[0]] + parts[1..] == parts;
    }
  }

  /** A character that is neither the separator nor in any part is not in the join. */
  lemma {:induction false} JoinExcludes(parts: seq<string>, sep: char, c: char)
    requires c != sep
    requires forall i :: 0 <= i < |parts| ==> c !in parts[i]
    ensures c !in Join(parts, sep)
  {
    if |parts| > 1 {
      JoinExcludes(parts[1..], sep, c);
    }
  }

  /** Index of the first occurrence of `c` in `s`, if any (`s.find(c)` without the -1). */
  function IndexOf(s: string, c: char): (r: Option<nat>)
    ensures r.None? <==> c !in s
    ensures r.Some? ==> r.value < |s| && s[r.value] == c && c !in s[..r.value]
  {
    if s == [] then None
    else if s[0] == c then Some(0)
    else
      match IndexOf(s[1..], c)
      case None => None
      case Some(i) =>
        assert s[..i + 1] == [s[0]] + s[1..][..i];
        Some(i + 1)
  }

  /** Past a stretch without `c`, the first occurrence is the `c` that follows it. */
  lemma {:induction false} IndexOfAfter(a: string, b: string, c: char)
    requires c !in a
    ensures IndexOf(a + [c] + b, c) == Some(|a|)
  {
    if a == [] {
      assert a + [c] + b == [c] + b;
    } else {
      assert (a + [c] + b)[1..] == a[1..] + [c] + b;
      IndexOfAfter(a[1..], b, c);
    }
  }

  /**
   * Cuts `s` at the first `c`: the text before it and, when there is one, the
   * text after it (`s.partition(c)`).
   */
  function SplitOnce(s: string, c: char): (r: (string, Option<string>))
    ensures r.1.None? ==> r.0 == s && c !in s
    ensures r.1.Some? ==> s == r.0 + [c] + r.1.value && c !in r.0
  {
    match IndexOf(s, c)
    case None => (s, None)
    case Some(i) =>
      assert s == s[..i] + [c] + s[i + 1..];
      (s[..i], Some(s[i + 1..]))
  }

  /** The cut falls at the first `c`, whatever follows it. */
  lemma SplitOnceAt(a: string, b: string, c: char)
    requires c !in a
    ensures SplitOnce(a + [c] + b, c) == (a, Some(b))
  {
    IndexOfAfter(a, b, c);
    assert (a + [c] + b)[..|a|] == a;
    assert (a + [c] + b)[|a| + 1..] == b;
  }

  /** `s.endswith(suffix)`. */
  predicate EndsWith(s: string, suffix: string) {
    |suffix| <= |s| && s[|s| - |suffix|..] == suffix
  }
}
