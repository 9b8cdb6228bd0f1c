/** Optional-chaining combinators and list flattening of Functional.swift:
    `<^>` is Map, `<*>` is Apply, `>>-` is Bind, Swift's `??` is OrElse. */
module Functional {

  datatype Option<T> = None | Some(value: T)

  /** `f <^> a` */
  function Map<A, B>(f: A -> B, a: Option<A>): (r: Option<B>)
    ensures a.None? ==> r == None
    ensures a.Some? ==> r == Some(f(a.value))
  {
    match a
    case Some(x) => Some(f(x))
    case None => None
  }

  /** `f <*> a` */
  function Apply<A, B>(f: Option<A -> B>, a: Option<A>): (r: Option<B>)
    ensures r.Some? <==> f.Some? && a.Some?
    ensures r.Some? ==> r.value == f.value(a.value)
  {
    match f
    case Some(fx) => Map(fx, a)
    case None => None
  }

  /** `a >>- f` */
  function Bind<A, B>(a: Option<A>, f: A -> Option<B>): (r: Option<B>)
    ensures a.None? ==> r == None
    ensures a.Some? ==> r == f(a.value)
  {
    match a
    case Some(x) => f(x)
    case None => None
  }

  /** Swift's `a ?? default` */
  function OrElse<T>(a: Option<T>, default: T): (r: T)
    ensures a.Some? ==> r == a.value
    ensures a.None? ==> r == default
  {
    match a
    case Some(x) => x
    case None => default
  }

  lemma MapIdentity<A>(a: Option<A>)
    ensures Map(x => x, a) == a
  {
  }

  lemma MapComposition<A, B, C>(f: A -> B, g: B -> C, a: Option<A>)
    ensures Map(g, Map(f, a)) == Map(x => g(f(x)), a)
  {
  }

  lemma ApplyOfSome<A, B>(f: A -> B, a: Option<A>)
    ensures Apply(Some(f), a) == Map(f, a)
  {
  }

  lemma BindRightIdentity<A>(a: Option<A>)
    ensures Bind(a, x => Some(x)) == a
  {
  }

  lemma BindAssociative<A, B, C>(a: Option<A>, f: A -> Option<B>, g: B -> Option<C>)
    ensures Bind(Bind(a, f), g) == Bind(a, x => Bind(f(x), g))
  {
  }

  /** `reduce(0..<count, initial, combine)`: `combine` folded over 0, 1, ..., count - 1. */
  function Reduce<A>(count: nat, initial: A, combine: (A, nat) -> A): A
  {
    if count == 0 then initial else combine(Reduce(count - 1, initial, combine), count - 1)
  }

  /** A property of the initial value that every step carries from `i` to `i + 1`
      holds after `count` steps. */
  lemma {:induction false} ReduceInvariant<A>(count: nat, initial: A, combine: (A, nat) -> A, inv: (A, nat) -> bool)
    requires inv(initial, 0)
    requires forall a, i :: 0 <= i < count && inv(a, i) ==> inv(combine(a, i), i + 1)
    ensures inv(Reduce(count, initial, combine), count)
  {
    if count > 0 {
      ReduceInvariant(count - 1, initial, combine, inv);
    }
  }

  /** A fold from `[]` whose every step appends one element builds `count`
      elements, and its first `k` steps build its first `k` elements. */
  lemma {:induction false} ReducePrefix<A>(combine: (seq<A>, nat) -> seq<A>, count: nat, k: nat)
    requires k <= count
    requires forall s, i :: |combine(s, i)| == |s| + 1 && combine(s, i)[..|s|] == s
    ensures |Reduce(count, [], combine)| == count
    ensures Reduce(k, [], combine) == Reduce(count, [], combine)[..k]
  {
    if count > 0 {
      var prev := Reduce(count - 1, [], combine);
      AppendStep(combine, prev, count - 1);
      if k < count {
        ReducePrefix(combine, count - 1, k);
        assert combine(prev, count - 1)[..k] == prev[..k];
      } else {
        ReducePrefix(combine, count - 1, 0);
      }
    }
  }

  /** Unfolding helper: instantiates the appending property of `combine` at one
      `s` and `i`, so that the fold proofs need not pick the instance themselves. */
  lemma AppendStep<A>(combine: (seq<A>, nat) -> seq<A>, s: seq<A>, i: nat)
    requires forall s, i :: |combine(s, i)| == |s| + 1 && combine(s, i)[..|s|] == s
    ensures |combine(s, i)| == |s| + 1 && combine(s, i)[..|s|] == s
  {
  }

  /** `reduce(sequence, [], +)`: a left fold of concatenation. */
  function Flatten<A>(s: seq<seq<A>>): seq<A>
  {
    if s == [] then [] else Flatten(s[..|s| - 1]) + s[|s| - 1]
  }

  function SumLengths<A>(s: seq<seq<A>>): nat
  {
    if s == [] then 0 else SumLengths(s[..|s| - 1]) + |s[|s| - 1]|
  }

  lemma {:induction false} FlattenAppend<A>(a: seq<seq<A>>, b: seq<seq<A>>)
    ensures Flatten(a + b) == Flatten(a) + Flatten(b)
  {
    if b == [] {
      assert a + b == a;
    } else {
      var b' := b[..|b| - 1];
      assert (a + b)[..|a + b| - 1] == a + b';
      FlattenAppend(a, b');
    }
  }

  lemma FlattenSingleton<A>(x: seq<A>)
    ensures Flatten([x]) == x
  {
    assert [x][..0] == [];
  }

  lemma {:induction false} FlattenLength<A>(s: seq<seq<A>>)
    ensures |Flatten(s)| == SumLengths(s)
  {
    if s != [] {
      FlattenLength(s[..|s| - 1]);
    }
  }

  lemma {:induction false} FlattenOfEmpties<A>(s: seq<seq<A>>)
    requires forall i :: 0 <= i < |s| ==> s[i] == []
    ensures Flatten(s) == []
  {
    if s != [] {
      FlattenOfEmpties(s[..|s| - 1]);
    }
  }

  /** An element is in the flattening exactly when it is in one of the inner lists. */
  lemma {:induction false} FlattenMembershipAt<A>(s: seq<seq<A>>, x: A)
    ensures x in Flatten(s) <==> exists i :: 0 <= i < |s| && x in s[i]
  {
    if s != [] {
      var s' := s[..|s| - 1];
      FlattenMembershipAt(s', x);
      if x in Flatten(s) && x !in s[|s| - 1] {
        var i :| 0 <= i < |s'| && x in s'[i];
        assert s[i] == s'[i];
      }
      if exists i :: 0 <= i < |s| && x in s[i] {
        var i :| 0 <= i < |s| && x in s[i];
        if i < |s| - 1 {
          assert s'[i] == s[i];
        }
      }
    }
  }

  lemma FlattenMembership<A>(s: seq<seq<A>>)
    ensures forall x :: x in Flatten(s) <==> exists i :: 0 <= i < |s| && x in s[i]
  {
    forall x {
      FlattenMembershipAt(s, x);
    }
  }
}
