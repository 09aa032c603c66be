/**
 One level of a least recently used cache as a list of names, most recent first. Both
 src/hdf5/file_cache.c and src/hdf5/dataset_cache.c keep such a list.
 */
module Lru {
  import opened Basics

  // ---------- one level: a list of names ----------

  function Without(names: seq<string>, name: string): seq<string> {
    if names == [] then []
    else if names[0] == name then names[1..]
    else [names[0]] + Without(names[1..], name)
  }

  function Take<T>(s: seq<T>, n: nat): seq<T> {
    if |s| <= n then s else s[..n]
  }

  /** The names in a cache of the given capacity after the named thing has been opened. */
  function Touch(names: seq<string>, name: string, capacity: nat): seq<string>
    requires capacity >= 1
  {
    if name in names then [name] + Without(names, name) else [name] + Take(names, capacity - 1)
  }

  /** All names ever opened, most recent first. */
  function Recency(trace: seq<string>): seq<string> {
    if trace == [] then []
    else [trace[|trace| - 1]] + Without(Recency(trace[..|trace| - 1]), trace[|trace| - 1])
  }

  /** A cache's contents after opening the names of a trace one after the other. */
  function CachedAfter(trace: seq<string>, capacity: nat): seq<string>
    requires capacity >= 1
  {
    if trace == [] then []
    else Touch(CachedAfter(trace[..|trace| - 1], capacity), trace[|trace| - 1], capacity)
  }

  lemma {:induction false} WithoutAbsent(names: seq<string>, name: string)
    requires name !in names
    ensures Without(names, name) == names
  {
    if names != [] {
      WithoutAbsent(names[1..], name);
    }
  }

  lemma {:induction false} WithoutMembers(names: seq<string>, name: string)
    requires Distinct(names)
    ensures Distinct(Without(names, name))
    ensures forall x :: x in Without(names, name) <==> x in names && x != name
    ensures |Without(names, name)| == if name in names then |names| - 1 else |names|
  {
    if names != [] {
      var rest := names[1..];
      assert Distinct(rest) && names[0] !in rest;
      assert forall x :: x in names <==> x == names[0] || x in rest;
      WithoutMembers(rest, name);
    }
  }

  lemma {:induction false} WithoutIndex(names: seq<string>, name: string, i: nat)
    requires i < |names| && names[i] == name && forall k :: 0 <= k < i ==> names[k] != name
    ensures Without(names, name) == names[..i] + names[i + 1..]
  {
    if i > 0 {
      WithoutIndex(names[1..], name, i - 1);
      assert names[..i] + names[i + 1..] == [names[0]] + (names[1..][..i - 1] + names[1..][i..]);
    }
  }

  lemma {:induction false} RecencyDistinct(trace: seq<string>)
    ensures Distinct(Recency(trace))
    ensures forall x :: x in Recency(trace) <==> x in trace
  {
    if trace != [] {
      var before, last := trace[..|trace| - 1], trace[|trace| - 1];
      assert trace == before + [last];
      RecencyDistinct(before);
      WithoutMembers(Recency(before), last);
    }
  }

  /** Removing a name and cutting off commute, one place apart if the name survives the cut. */
  lemma {:induction false} WithoutTake(names: seq<string>, name: string, n: nat)
    requires Distinct(names)
    ensures name in Take(names, n + 1) ==> Without(Take(names, n + 1), name) == Take(Without(names, name), n)
    ensures name !in Take(names, n) ==> Take(Without(names, name), n) == Take(names, n)
  {
    if names != [] {
      var rest := names[1..];
      assert Distinct(rest);
      if names[0] == name {
        assert name !in rest;
      } else {
        var w := Without(rest, name);
        if n > 0 {
          WithoutTake(rest, name, n - 1);
          assert Take(names, n) == [names[0]] + Take(rest, n - 1);
          assert Take(names, n + 1) == [names[0]] + Take(rest, n);
          assert Take(Without(names, name), n) == [names[0]] + Take(w, n - 1);
        }
      }
    }
  }

  /**
   A cache holds the names most recently opened, as many as it has room for, in order of last use.
   */
  lemma {:induction false} LruIsRecency(trace: seq<string>, capacity: nat)
    requires capacity >= 1
    ensures CachedAfter(trace, capacity) == Take(Recency(trace), capacity)
  {
    if trace != [] {
      var before, name := trace[..|trace| - 1], trace[|trace| - 1];
      LruIsRecency(before, capacity);
      RecencyDistinct(before);
      var r := Recency(before);
      WithoutTake(r, name, capacity - 1);
      assert Take([name] + Without(r, name), capacity) == [name] + Take(Without(r, name), capacity - 1);
      if name !in Take(r, capacity) {
        assert Take(Take(r, capacity), capacity - 1) == Take(r, capacity - 1);
        assert forall x :: x in Take(r, capacity - 1) ==> x in Take(r, capacity);
      }
    }
  }

  /** For one trace, a larger cache always contains the smaller one, as its most recent part. */
  lemma LargerCacheContainsSmaller(trace: seq<string>, small: nat, large: nat)
    requires 1 <= small <= large
    ensures CachedAfter(trace, small) <= CachedAfter(trace, large)
    ensures CachedAfter(trace, small) == Take(CachedAfter(trace, large), small)
  {
    LruIsRecency(trace, small);
    LruIsRecency(trace, large);
  }
}
