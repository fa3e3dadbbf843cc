/** Order-preserving removal of elements, the specification of the bulk erase
    operations. */
module Sequences {

  /** `s` without the elements that satisfy `p`, in their original order. */
  function RemoveIf<T>(s: seq<T>, p: T -> bool): (r: seq<T>)
  {
    if s == [] then []
    else RemoveIf(s[..|s| - 1], p) + (if p(s[|s| - 1]) then [] else [s[|s| - 1]])
  }

  /** The test for being equal to `x`. */
  function EqualTo<T(==)>(x: T): (f: T -> bool)
  {
    e => e == x
  }

  /** `s` without the elements equal to `x`. */
  function Without<T(==)>(s: seq<T>, x: T): (r: seq<T>)
  {
    RemoveIf(s, EqualTo(x))
  }

  /** An element is kept exactly when it occurs in `s` and fails `p`. */
  lemma {:induction false} RemoveIfMembers<T>(s: seq<T>, p: T -> bool, x: T)
    ensures x in RemoveIf(s, p) <==> x in s && !p(x)
  {
    if s != [] {
      var init := s[..|s| - 1];
      RemoveIfMembers(init, p, x);
      assert s == init + [s[|s| - 1]];
    }
  }

  /** The kept elements are a multiset-subset of `s`; what was dropped all satisfies `p`. */
  lemma {:induction false} RemoveIfMultiset<T>(s: seq<T>, p: T -> bool, x: T)
    ensures multiset(RemoveIf(s, p))[x] == if p(x) then 0 else multiset(s)[x]
  {
    if s != [] {
      var init := s[..|s| - 1];
      RemoveIfMultiset(init, p, x);
      assert s == init + [s[|s| - 1]];
    }
  }

  /** When nothing in `s` satisfies `p`, nothing is removed. */
  lemma {:induction false} RemoveIfNone<T>(s: seq<T>, p: T -> bool)
    requires forall i :: 0 <= i < |s| ==> !p(s[i])
    ensures RemoveIf(s, p) == s
  {
    if s != [] {
      var init := s[..|s| - 1];
      assert forall i :: 0 <= i < |init| ==> init[i] == s[i];
      RemoveIfNone(init, p);
      assert s == init + [s[|s| - 1]];
    }
  }

  /** The number of elements removed from `s` is the number of occurrences of `x` in `s`. */
  lemma {:induction false} WithoutCount<T>(s: seq<T>, x: T)
    ensures |Without(s, x)| <= |s|
    ensures |s| - |Without(s, x)| == multiset(s)[x]
  {
    if s != [] {
      var init := s[..|s| - 1];
      WithoutCount(init, x);
      assert s == init + [s[|s| - 1]];
    }
  }

  /** Removal distributes over concatenation. */
  lemma {:induction false} RemoveIfAppend<T>(a: seq<T>, b: seq<T>, p: T -> bool)
    ensures RemoveIf(a + b, p) == RemoveIf(a, p) + RemoveIf(b, p)
  {
    if b == [] {
      assert a + b == a;
    } else {
      var init := b[..|b| - 1];
      RemoveIfAppend(a, init, p);
      assert (a + b)[..|a + b| - 1] == a + init;
      assert (a + b)[|a + b| - 1] == b[|b| - 1];
    }
  }

  /** Removal seen from the front: the first element is kept exactly when it
      fails `p`. */
  lemma RemoveIfFront<T>(s: seq<T>, p: T -> bool)
    requires s != []
    ensures RemoveIf(s, p) == (if p(s[0]) then [] else [s[0]]) + RemoveIf(s[1..], p)
  {
    assert s == [s[0]] + s[1..];
    RemoveIfAppend([s[0]], s[1..], p);
    assert [s[0]][..0] == [];
  }

  /** Cutting `kept + rest` around the first element of `rest`. */
  lemma SplitAround<T>(kept: seq<T>, rest: seq<T>)
    requires rest != []
    ensures (kept + rest)[|kept|] == rest[0]
    ensures (kept + rest)[..|kept|] + (kept + rest)[|kept| + 1..] == kept + rest[1..]
    ensures kept + rest == (kept + [rest[0]]) + rest[1..]
  {
    var s := kept + rest;
    assert s[..|kept|] == kept;
    assert s[|kept| + 1..] == rest[1..];
  }

  /** One step of an erase-while-scanning loop: the kept prefix grows by the
      first unexamined element exactly when that element fails `p`. */
  lemma KeepStep<T>(kept: seq<T>, rest: seq<T>, p: T -> bool)
    requires rest != []
    ensures (if p(rest[0]) then kept else kept + [rest[0]]) + RemoveIf(rest[1..], p)
            == kept + RemoveIf(rest, p)
  {
    RemoveIfFront(rest, p);
  }
}
