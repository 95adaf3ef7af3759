/** Iterating a step and folding a step over a sequence. */
module Iteration {

  function Iter<T>(f: T -> T, x: T, n: nat): T {
    if n == 0 then x else f(Iter(f, x, n - 1))
  }

  function Foldl<T, B>(step: (T, B) -> T, x: T, s: seq<B>): T {
    if |s| == 0 then x else step(Foldl(step, x, s[..|s| - 1]), s[|s| - 1])
  }

  ghost predicate Injective<T(!new)>(f: T -> T) {
    forall x, y :: f(x) == f(y) ==> x == y
  }

  ghost predicate Linear<T(!new)>(f: T -> T, plus: (T, T) -> T) {
    forall x, y :: f(plus(x, y)) == plus(f(x), f(y))
  }

  ghost predicate InjectiveInState<T(!new), B(!new)>(step: (T, B) -> T) {
    forall x, y, b :: step(x, b) == step(y, b) ==> x == y
  }

  lemma {:induction false} IterLinear<T(!new)>(f: T -> T, plus: (T, T) -> T, a: T, b: T, n: nat)
    requires Linear(f, plus)
    ensures Iter(f, plus(a, b), n) == plus(Iter(f, a, n), Iter(f, b, n))
  {
    if n > 0 {
      IterLinear(f, plus, a, b, n - 1);
    }
  }

  lemma {:induction false} IterInjective<T(!new)>(f: T -> T, a: T, b: T, n: nat)
    requires Injective(f) && Iter(f, a, n) == Iter(f, b, n)
    ensures a == b
  {
    if n > 0 {
      IterInjective(f, a, b, n - 1);
    }
  }

  /** The first step can be taken first. */
  lemma {:induction false} IterFirst<T>(f: T -> T, a: T, n: nat)
    ensures Iter(f, f(a), n) == Iter(f, a, n + 1)
  {
    if n > 0 {
      IterFirst(f, a, n - 1);
    }
  }

  lemma {:induction false} IterSum<T>(f: T -> T, a: T, m: nat, n: nat)
    ensures Iter(f, Iter(f, a, m), n) == Iter(f, a, m + n)
  {
    if n > 0 {
      IterSum(f, a, m, n - 1);
    }
  }

  lemma {:induction false} FoldlAppend<T, B>(step: (T, B) -> T, x: T, s: seq<B>, t: seq<B>)
    ensures Foldl(step, x, s + t) == Foldl(step, Foldl(step, x, s), t)
  {
    if |t| == 0 {
      assert s + t == s;
    } else {
      assert (s + t)[..|s + t| - 1] == s + t[..|t| - 1];
      FoldlAppend(step, x, s, t[..|t| - 1]);
    }
  }

  lemma FoldlOne<T, B>(step: (T, B) -> T, x: T, b: B)
    ensures Foldl(step, x, [b]) == step(x, b)
  {
    assert [b][..0] == [];
    assert Foldl(step, x, []) == x;
  }

  lemma FoldlCons<T, B>(step: (T, B) -> T, x: T, b: B, s: seq<B>)
    ensures Foldl(step, x, [b] + s) == Foldl(step, step(x, b), s)
  {
    FoldlAppend(step, x, [b], s);
    FoldlOne(step, x, b);
  }

  /** One more element of `s` folded in. */
  lemma FoldlNext<T, B>(step: (T, B) -> T, x: T, s: seq<B>, i: nat)
    requires i < |s|
    ensures Foldl(step, x, s[..i + 1]) == step(Foldl(step, x, s[..i]), s[i])
  {
    assert s[..i + 1][..i] == s[..i];
  }

  lemma {:induction false} FoldlInjective<T(!new), B(!new)>(step: (T, B) -> T, x: T, y: T, s: seq<B>)
    requires InjectiveInState(step) && Foldl(step, x, s) == Foldl(step, y, s)
    ensures x == y
  {
    if |s| > 0 {
      FoldlInjective(step, x, y, s[..|s| - 1]);
    }
  }

  /** Two inputs whose middles fold differently from every state end in different states. */
  lemma WindowDecides<T(!new), B(!new)>(step: (T, B) -> T, x: T, pre: seq<B>, u: seq<B>, v: seq<B>, post: seq<B>)
    requires InjectiveInState(step)
    requires forall y :: Foldl(step, y, u) != Foldl(step, y, v)
    ensures Foldl(step, x, pre + u + post) != Foldl(step, x, pre + v + post)
  {
    FoldlAppend(step, x, pre + u, post);
    FoldlAppend(step, x, pre + v, post);
    FoldlAppend(step, x, pre, u);
    FoldlAppend(step, x, pre, v);
    var y := Foldl(step, x, pre);
    if Foldl(step, x, pre + u + post) == Foldl(step, x, pre + v + post) {
      FoldlInjective(step, Foldl(step, y, u), Foldl(step, y, v), post);
    }
  }
}
