/** Sequences: without duplicates, with an element removed or moved, and flattened. */
module Sequences {

  ghost predicate Distinct<T>(s: seq<T>) {
    forall i, j :: 0 <= i < j < |s| ==> s[i] != s[j]
  }

  function RemoveAt<T>(s: seq<T>, k: nat): (r: seq<T>)
    requires k < |s|
    ensures |r| == |s| - 1
    ensures forall i :: 0 <= i < |r| ==> r[i] == s[if i < k then i else i + 1]
  {
    s[..k] + s[k + 1..]
  }

  // The element at k moved to the front.
  function ToFront<T>(s: seq<T>, k: nat): (r: seq<T>)
    requires k < |s|
    ensures |r| == |s| && r[0] == s[k]
    ensures forall i :: 0 < i < |r| ==> r[i] == s[if i <= k then i - 1 else i]
  {
    [s[k]] + RemoveAt(s, k)
  }

  // What gnb_doubly_linked_list_move_head makes of the order: lists of one or two nodes stay as they are.
  function Touch<T>(s: seq<T>, k: nat): (r: seq<T>)
    requires k < |s|
    ensures |r| == |s|
  {
    if |s| <= 2 then s else ToFront(s, k)
  }

  lemma DistinctRemove<T>(s: seq<T>, k: nat)
    requires k < |s| && Distinct(s)
    ensures Distinct(RemoveAt(s, k)) && s[k] !in RemoveAt(s, k)
    ensures forall x :: x in s <==> x == s[k] || x in RemoveAt(s, k)
  {
    var r := RemoveAt(s, k);
    forall x | x in s && x != s[k] ensures x in r {
      var i :| 0 <= i < |s| && s[i] == x;
      assert r[if i < k then i else i - 1] == x;
    }
  }

  lemma DistinctTouch<T>(s: seq<T>, k: nat)
    requires k < |s| && Distinct(s)
    ensures Distinct(Touch(s, k))
    ensures forall x :: x in s <==> x in Touch(s, k)
  {
    DistinctRemove(s, k);
  }

  lemma TouchHead<T>(s: seq<T>)
    requires s != []
    ensures Touch(s, 0) == s
  {
  }

  lemma RemoveEnds<T>(s: seq<T>)
    requires s != []
    ensures RemoveAt(s, |s| - 1) == s[..|s| - 1] && RemoveAt(s, 0) == s[1..]
  {
  }

  lemma RemoveTouched<T>(s: seq<T>, k: nat)
    requires k < |s|
    ensures Touch(s, k)[if |s| <= 2 then k else 0] == s[k]
    ensures RemoveAt(Touch(s, k), if |s| <= 2 then k else 0) == RemoveAt(s, k)
  {
  }

  lemma DistinctCons<T>(x: T, s: seq<T>)
    requires Distinct(s) && x !in s
    ensures Distinct([x] + s)
  {
  }

  lemma DistinctAppend<T>(s: seq<T>, t: seq<T>)
    requires Distinct(s) && Distinct(t)
    requires forall i, j :: 0 <= i < |s| && 0 <= j < |t| ==> s[i] != t[j]
    ensures Distinct(s + t)
  {
  }

  lemma TouchSubset<T>(s: seq<T>, k: nat)
    requires k < |s|
    ensures forall i :: 0 <= i < |s| ==> Touch(s, k)[i] in s
  {
  }

  // Removal that fills the hole with the last element.
  function SwapRemove<T>(s: seq<T>, k: nat): (r: seq<T>)
    requires k < |s|
    ensures |r| == |s| - 1
    ensures forall i :: 0 <= i < |r| ==> r[i] == s[if i == k then |s| - 1 else i]
  {
    s[k := s[|s| - 1]][..|s| - 1]
  }

  // It removes exactly the chosen element.
  lemma SwapRemoveExact<T>(s: seq<T>, k: nat)
    requires k < |s| && Distinct(s)
    ensures Distinct(SwapRemove(s, k))
    ensures forall x :: x in SwapRemove(s, k) <==> x in s && x != s[k]
  {
    var r := SwapRemove(s, k);
    forall x | x in s && x != s[k] ensures x in r {
      var i :| 0 <= i < |s| && s[i] == x;
      assert r[if i == |s| - 1 then k else i] == x;
    }
  }

  function Flatten<T>(chunks: seq<seq<T>>): seq<T> {
    if chunks == [] then [] else chunks[0] + Flatten(chunks[1..])
  }

  lemma FlattenCons<T>(first: seq<T>, chunks: seq<seq<T>>)
    ensures Flatten([first] + chunks) == first + Flatten(chunks)
  {
    assert ([first] + chunks)[1..] == chunks;
  }

  lemma {:induction false} FlattenAppend<T>(a: seq<seq<T>>, b: seq<seq<T>>)
    ensures Flatten(a + b) == Flatten(a) + Flatten(b)
    decreases |a|
  {
    if a == [] {
      assert a + b == b;
    } else {
      FlattenAppend(a[1..], b);
      assert (a + b)[1..] == a[1..] + b;
    }
  }
}
