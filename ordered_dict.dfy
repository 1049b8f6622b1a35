/**
  A Python `dict` from `str` to `int`. Besides the key/value pairs it records
  the insertion order in which `for k in d` visits the keys: assigning to a new
  key appends it, assigning to an existing key keeps its place, and `del`
  takes the key out while the remaining keys keep their order.
 */
module OrderedDict {

  ghost predicate Distinct<T>(s: seq<T>) {
    forall i, j :: 0 <= i < j < |s| ==> s[i] != s[j]
  }

  /** `r` is `s` with some elements left out (matching from the back end). */
  ghost predicate IsSubsequence<T>(r: seq<T>, s: seq<T>)
    decreases |s|
  {
    if r == [] then true
    else if s == [] then false
    else if r[|r| - 1] == s[|s| - 1] then IsSubsequence(r[..|r| - 1], s[..|s| - 1])
    else IsSubsequence(r, s[..|s| - 1])
  }

  /** Where `x` first occurs in `s`. */
  function IndexOf<T(==)>(s: seq<T>, x: T): (i: nat)
    requires x in s
    ensures i < |s| && s[i] == x
    ensures forall j :: 0 <= j < i ==> s[j] != x
  {
    if s[0] == x then 0 else 1 + IndexOf(s[1..], x)
  }

  lemma {:induction false} SubsequenceOfItself<T>(s: seq<T>)
    ensures IsSubsequence(s, s)
  {
    if s != [] {
      SubsequenceOfItself(s[..|s| - 1]);
    }
  }

  lemma {:induction false} SubsequenceMembers<T>(r: seq<T>, s: seq<T>)
    requires IsSubsequence(r, s)
    ensures forall x :: x in r ==> x in s
    decreases |s|
  {
    if r != [] && s != [] {
      var s' := s[..|s| - 1];
      assert s == s' + [s[|s| - 1]];
      if r[|r| - 1] == s[|s| - 1] {
        var r' := r[..|r| - 1];
        SubsequenceMembers(r', s');
        assert r == r' + [r[|r| - 1]];
      } else {
        SubsequenceMembers(r, s');
      }
    }
  }

  /** Taking out the element at one position leaves the others in their order. */
  lemma {:induction false} RemoveAtIsSubsequence<T>(s: seq<T>, i: nat)
    requires i < |s|
    ensures IsSubsequence(s[..i] + s[i + 1..], s)
    decreases |s|
  {
    var n := |s|;
    var r := s[..i] + s[i + 1..];
    if i == n - 1 {
      assert r == s[..n - 1];
      var t := s[..n - 1];
      if t != [] && t[|t| - 1] == s[n - 1] {
        assert t[..|t| - 1] == s[..n - 1][..n - 2];
        RemoveAtIsSubsequence(t, |t| - 1);
        assert t[..|t| - 1] + t[|t|..] == t[..|t| - 1];
      } else {
        SubsequenceOfItself(t);
      }
    } else {
      var s' := s[..n - 1];
      assert r[|r| - 1] == s[n - 1];
      assert r[..|r| - 1] == s'[..i] + s'[i + 1..];
      RemoveAtIsSubsequence(s', i);
    }
  }

  /** Taking out the element at one position of a list without repeats leaves exactly the other elements, still without repeats. */
  lemma RemoveAtMembers<T>(s: seq<T>, i: nat)
    requires Distinct(s) && i < |s|
    ensures Distinct(s[..i] + s[i + 1..])
    ensures forall x :: x in s[..i] + s[i + 1..] <==> x in s && x != s[i]
  {
    var rest := s[..i] + s[i + 1..];
    assert forall j :: 0 <= j < |rest| ==> rest[j] == s[if j < i then j else j + 1];
    forall x | x in s && x != s[i]
      ensures x in rest
    {
      var p :| 0 <= p < |s| && s[p] == x;
      assert rest[if p < i then p else p - 1] == x;
    }
  }

  datatype Dict = Dict(quantities: map<string, int>, keys: seq<string>) {

    /** Every key is listed once in the iteration order, and only keys are listed. */
    ghost predicate Valid() {
      Distinct(keys) && forall k :: k in quantities <==> k in keys
    }

    /** `d.get(k, default)` */
    function Get(k: string, default: int): int {
      if k in quantities then quantities[k] else default
    }

    /** `d[k] = v` */
    function Set(k: string, v: int): (r: Dict)
      requires Valid()
      ensures r.Valid()
      ensures r.quantities == quantities[k := v]
      ensures k in quantities ==> r.keys == keys
      ensures k !in quantities ==> r.keys == keys + [k]
    {
      Dict(quantities[k := v], if k in quantities then keys else keys + [k])
    }

    /** `del d[k]` */
    function Delete(k: string): (r: Dict)
      requires Valid() && k in quantities
      ensures r.Valid()
      ensures r.quantities == quantities - {k}
      ensures |r.keys| == |keys| - 1
    {
      var i := IndexOf(keys, k);
      RemoveAtMembers(keys, i);
      Dict(quantities - {k}, keys[..i] + keys[i + 1..])
    }

    /** Deleting a key that was new before it was set gives back the dict it was set in. */
    lemma DeleteUndoesSetOfNewKey(k: string, v: int)
      requires Valid() && k !in quantities
      ensures Set(k, v).Delete(k) == this
    {
      var grown := Set(k, v);
      assert grown.keys == keys + [k];
      assert IndexOf(grown.keys, k) == |keys|;
      assert grown.quantities - {k} == quantities;
    }

    /** Deleting a key leaves the other keys in their order. */
    lemma DeleteKeepsOrder(k: string)
      requires Valid() && k in quantities
      ensures IsSubsequence(Delete(k).keys, keys)
    {
      RemoveAtIsSubsequence(keys, IndexOf(keys, k));
    }
  }
}
