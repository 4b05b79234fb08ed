/**
 * The two `java.util.stream` steps the service uses on ordered lists:
 * `flatMap(List::stream)` (concatenation in order) and `distinct()`, which on an
 * ordered stream is stable: of equal elements it keeps the first one met.
 */
module Streams {

  predicate NoDuplicates<T(==)>(s: seq<T>)
  {
    forall i, j :: 0 <= i < j < |s| ==> s[i] != s[j]
  }

  /** `lists.stream().flatMap(List::stream)`: the inner lists one after another. */
  function Flatten<T(==,!new)>(lists: seq<seq<T>>): (r: seq<T>)
    ensures forall x :: x in r <==> exists i :: 0 <= i < |lists| && x in lists[i]
    ensures r == [] <==> forall i :: 0 <= i < |lists| ==> lists[i] == []
  {
    if lists == [] then []
    else
      var rest := Flatten(lists[1..]);
      assert forall x :: (exists i :: 1 <= i < |lists| && x in lists[i]) ==> x in rest by {
        forall x, i | 1 <= i < |lists| && x in lists[i] ensures x in rest {
          assert lists[1..][i - 1] == lists[i];
        }
      }
      assert (forall i :: 1 <= i < |lists| ==> lists[i] == []) ==> rest == [] by {
        if forall i :: 1 <= i < |lists| ==> lists[i] == [] {
          forall i | 0 <= i < |lists[1..]| ensures lists[1..][i] == [] {
            assert lists[1..][i] == lists[i + 1];
          }
        }
      }
      lists[0] + rest
  }

  /** The position of the first occurrence of `x` in `s`. */
  function FirstIndex<T(==)>(s: seq<T>, x: T): (k: nat)
    requires x in s
    ensures k < |s| && s[k] == x && x !in s[..k]
  {
    var init := s[..|s| - 1];
    if x in init then FirstIndex(init, x) else |s| - 1
  }

  /** `stream.distinct()`: each element is kept at its first occurrence and dropped at later ones. */
  function Distinct<T(==,!new)>(s: seq<T>): (r: seq<T>)
    ensures NoDuplicates(r)
    ensures forall x :: x in r <==> x in s
  {
    if s == [] then []
    else
      var init := s[..|s| - 1];
      var last := s[|s| - 1];
      assert s == init + [last];
      if last in init then Distinct(init) else Distinct(init) + [last]
  }

  /** The kept elements appear in the order of their first occurrences in the input. */
  lemma {:induction false} DistinctKeepsFirstOccurrenceOrder<T(!new)>(s: seq<T>)
    ensures forall i, j :: 0 <= i < j < |Distinct(s)| ==> FirstIndex(s, Distinct(s)[i]) < FirstIndex(s, Distinct(s)[j])
  {
    if s != [] {
      var init := s[..|s| - 1];
      var last := s[|s| - 1];
      DistinctKeepsFirstOccurrenceOrder(init);
      var d, r := Distinct(init), Distinct(s);
      assert r == if last in init then d else d + [last];
      forall x | x in init ensures FirstIndex(s, x) == FirstIndex(init, x) {
      }
      forall i, j | 0 <= i < j < |r| ensures FirstIndex(s, r[i]) < FirstIndex(s, r[j]) {
        assert r[i] == d[i] && r[i] in init;
        if j < |d| {
          assert r[j] == d[j] && r[j] in init;
          assert FirstIndex(init, d[i]) < FirstIndex(init, d[j]);
        } else {
          assert r[j] == last && last !in init;
          assert FirstIndex(s, last) == |s| - 1;
        }
      }
    }
  }

  /** A list without repeats passes through `distinct()` unchanged; so `distinct()` is idempotent. */
  lemma {:induction false} DistinctOfDistinct<T(!new)>(s: seq<T>)
    requires NoDuplicates(s)
    ensures Distinct(s) == s
  {
    if s != [] {
      var init := s[..|s| - 1];
      assert NoDuplicates(init);
      DistinctOfDistinct(init);
      assert s[|s| - 1] !in init;
      assert s == init + [s[|s| - 1]];
    }
  }
}
