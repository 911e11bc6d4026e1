/** `sorted(...)` over a set of slide numbers: the ascending list of its
    elements, as the program uses it on dictionary keys and on set
    differences and intersections. */
module SortedSets {

  /** Each element is smaller than the next one. */
  predicate StrictlyIncreasing(s: seq<nat>)
    decreases |s|
  {
    |s| <= 1 || (s[0] < s[1] && StrictlyIncreasing(s[1..]))
  }

  /** In a strictly increasing list every element is smaller than every
      later one. */
  lemma {:induction false} IncreasingPairs(s: seq<nat>, i: nat, j: nat)
    requires StrictlyIncreasing(s) && i < j < |s|
    ensures s[i] < s[j]
    decreases j, j - i
  {
    if i + 1 < j {
      IncreasingPairs(s, i, j - 1);
      IncreasingPairs(s, j - 1, j);
    } else if i > 0 {
      IncreasingPairs(s[1..], i - 1, j - 1);
    }
  }

  /** A set holding `n` has a least element, found by stepping down to a
      smaller element while there is one. */
  lemma {:induction false} HasMin(s: set<nat>, n: nat)
    requires n in s
    ensures exists m :: m in s && forall x :: x in s ==> m <= x
    decreases n
  {
    if exists x :: x in s && x < n {
      var x :| x in s && x < n;
      HasMin(s, x);
    } else {
      assert forall x :: x in s ==> n <= x;
    }
  }

  function Min(s: set<nat>): (m: nat)
    requires s != {}
    ensures m in s && forall x :: x in s ==> m <= x
  {
    var n :| n in s;
    HasMin(s, n);
    var m :| m in s && forall x :: x in s ==> m <= x;
    m
  }

  /** `sorted(s)`: the elements of `s`, each once, in ascending order. */
  function Sorted(s: set<nat>): (r: seq<nat>)
    ensures StrictlyIncreasing(r)
    ensures |r| == |s|
    ensures forall i :: 0 <= i < |r| ==> r[i] in s
    ensures forall x :: x in s ==> x in r
    decreases |s|
  {
    if s == {} then []
    else
      var m := Min(s);
      var rest := Sorted(s - {m});
      assert forall i :: 0 <= i < |rest| ==> m < rest[i];
      assert ([m] + rest)[1..] == rest;
      [m] + rest
  }
}
