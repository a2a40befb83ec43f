/** Sequence helpers shared by the model: first-match search, filtered views
    and the first-occurrence removal of `java.util.List.remove(Object)`. */
module Sequences {

  datatype Option<+T> = None | Some(value: T)

  /** The predicate "is equal to x", as `List.indexOf` and `List.remove` use it. */
  function EqualTo<T(==)>(x: T): T -> bool
  {
    y => y == x
  }

  /** Position of the first element of `s` that satisfies `p`, if there is one. */
  function IndexWhere<T>(s: seq<T>, p: T -> bool): (r: Option<nat>)
    ensures r.Some? ==> r.value < |s| && p(s[r.value])
    ensures r.Some? ==> forall j :: 0 <= j < r.value ==> !p(s[j])
    ensures r.None? <==> forall j :: 0 <= j < |s| ==> !p(s[j])
  {
    if |s| == 0 then None
    else if p(s[0]) then Some(0)
    else match IndexWhere(s[1..], p)
      case None => None
      case Some(i) => Some(i + 1)
  }

  /** The elements of `s` that satisfy `p`, in their original order. */
  function Select<T>(s: seq<T>, p: T -> bool): (r: seq<T>)
    ensures |r| <= |s|
    ensures forall i :: 0 <= i < |r| ==> p(r[i]) && r[i] in s
    ensures r == [] <==> IndexWhere(s, p).None?
    ensures r != [] ==> r[0] == s[IndexWhere(s, p).value]
    ensures (forall i :: 0 <= i < |s| ==> p(s[i])) ==> r == s
  {
    if |s| == 0 then []
    else if p(s[0]) then
      var rest := Select(s[1..], p);
      assert forall i :: 0 <= i < |rest| ==> rest[i] in s by {
        forall i | 0 <= i < |rest| ensures rest[i] in s {
          assert rest[i] in s[1..];
        }
      }
      [s[0]] + rest
    else Select(s[1..], p)
  }

  /** `s` without the first occurrence of `x`; `s` itself when `x` does not occur. */
  function RemoveFirst<T(==)>(s: seq<T>, x: T): (r: seq<T>)
    ensures x !in s ==> r == s
    ensures x in s ==> |r| == |s| - 1
  {
    if |s| == 0 then []
    else if s[0] == x then s[1..]
    else [s[0]] + RemoveFirst(s[1..], x)
  }

  /** Only the first occurrence goes; everything before and after it keeps its order. */
  lemma {:induction false} RemoveFirstAt<T>(s: seq<T>, x: T, i: nat)
    requires IndexWhere(s, EqualTo(x)) == Some(i)
    ensures RemoveFirst(s, x) == s[..i] + s[i + 1..]
  {
    if s[0] != x {
      assert EqualTo(x)(s[i]);
      assert !EqualTo(x)(s[0]);
      var t := s[1..];
      assert IndexWhere(t, EqualTo(x)) == Some(i - 1) by {
        assert EqualTo(x)(t[i - 1]);
        forall j | 0 <= j < i - 1 ensures !EqualTo(x)(t[j]) {
          assert t[j] == s[j + 1];
        }
      }
      RemoveFirstAt(t, x, i - 1);
      assert s[..i] == [s[0]] + t[..i - 1];
      assert s[i + 1..] == t[i..];
    }
  }

  /** Exactly one copy of `x` leaves the multiset of elements, and nothing else. */
  lemma {:induction false} RemoveFirstMultiset<T>(s: seq<T>, x: T)
    ensures multiset(RemoveFirst(s, x)) == multiset(s) - multiset{x}
  {
    if |s| > 0 {
      assert s == [s[0]] + s[1..];
      if s[0] != x {
        RemoveFirstMultiset(s[1..], x);
      }
    }
  }

  /** Removing the only copy of `x` leaves no copy behind. */
  lemma RemoveSoleCopy<T>(s: seq<T>, x: T)
    requires multiset(s)[x] == 1
    ensures x !in RemoveFirst(s, x)
  {
    RemoveFirstMultiset(s, x);
    assert multiset(RemoveFirst(s, x))[x] == 0;
  }
}
