/** Small shared vocabulary: bytes, optional and fallible results, and the two
    sequence operations every layer of the server uses (concatenating chunks and
    keeping the live entries of a tracking list). */
module Basics {

  /** One octet, as Python's `bytes` holds them. */
  type Byte = b: int | 0 <= b < 256

  datatype Option<+T> = None | Some(value: T)

  datatype Result<+T, +E> = Success(value: T) | Failure(error: E)

  /** Concatenation of a sequence of chunks, in order. */
  function Flatten<T>(chunks: seq<seq<T>>): seq<T>
  {
    if chunks == [] then [] else Flatten(chunks[..|chunks| - 1]) + chunks[|chunks| - 1]
  }

  lemma FlattenAppend<T>(chunks: seq<seq<T>>, c: seq<T>)
    ensures Flatten(chunks + [c]) == Flatten(chunks) + c
  {
    assert (chunks + [c])[..|chunks|] == chunks;
  }

  lemma FlattenSingle<T>(c: seq<T>)
    ensures Flatten([c]) == c
  {
    FlattenAppend([], c);
    assert [c] == [] + [c];
  }

  /** Appending chunk lists concatenates their flattenings. */
  lemma {:induction false} FlattenConcat<T>(a: seq<seq<T>>, b: seq<seq<T>>)
    ensures Flatten(a + b) == Flatten(a) + Flatten(b)
    decreases |b|
  {
    if b == [] {
      assert a + b == a;
    } else {
      var b' := b[..|b| - 1];
      assert a + b == (a + b') + [b[|b| - 1]];
      assert b == b' + [b[|b| - 1]];
      FlattenAppend(a + b', b[|b| - 1]);
      FlattenAppend(b', b[|b| - 1]);
      FlattenConcat(a, b');
    }
  }

  /** The entries of `s` that are in `keep`, in their original order
      (Python's `[p for p in s if p.is_alive()]` with liveness given as a set). */
  function Filter<T(!new)>(s: seq<T>, keep: set<T>): (r: seq<T>)
    ensures |r| <= |s|
    ensures forall x :: x in r <==> x in s && x in keep
  {
    if s == [] then []
    else (if s[0] in keep then [s[0]] else []) + Filter(s[1..], keep)
  }

  /** Filtering distributes over appending one entry: the order of the kept
      entries is the order in which they were appended. */
  lemma {:induction false} FilterAppend<T(!new)>(s: seq<T>, x: T, keep: set<T>)
    ensures Filter(s + [x], keep) == Filter(s, keep) + (if x in keep then [x] else [])
    decreases |s|
  {
    if s == [] {
      assert [] + [x] == [x];
    } else {
      assert (s + [x])[1..] == s[1..] + [x];
      FilterAppend(s[1..], x, keep);
    }
  }

  /** Filtering with a set that keeps every entry changes nothing. */
  lemma {:induction false} FilterAllKept<T(!new)>(s: seq<T>, keep: set<T>)
    requires forall x :: x in s ==> x in keep
    ensures Filter(s, keep) == s
    decreases |s|
  {
    if s != [] {
      assert s[0] in s;
      assert forall x :: x in s[1..] ==> x in s;
      FilterAllKept(s[1..], keep);
      assert s == [s[0]] + s[1..];
    }
  }

  function Min(a: int, b: int): int { if a <= b then a else b }
}
