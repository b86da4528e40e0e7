// Runs of a deterministic automaton over bits.  The checksum register is one; these
// facts about distinguishing runs need nothing of its arithmetic.
module Automata {
  function Run<S>(step: (S, bool) -> S, s: S, bits: seq<bool>): S
    decreases |bits|
  {
    if bits == [] then s else Run(step, step(s, bits[0]), bits[1..])
  }

  lemma {:induction false} RunAppend<S>(step: (S, bool) -> S, s: S, a: seq<bool>, b: seq<bool>)
    ensures Run(step, s, a + b) == Run(step, Run(step, s, a), b)
    decreases |a|
  {
    if a == [] {
      assert a + b == b;
    } else {
      assert (a + b)[1..] == a[1..] + b;
      RunAppend(step, step(s, a[0]), a[1..], b);
    }
  }

  // Different states stay different when no step merges two states.
  ghost predicate Injective<S(!new)>(step: (S, bool) -> S) {
    forall s, t, x :: step(s, x) == step(t, x) ==> s == t
  }

  lemma {:induction false} RunInjective<S(!new)>(step: (S, bool) -> S, s: S, t: S, bits: seq<bool>)
    requires Injective(step) && s != t
    ensures Run(step, s, bits) != Run(step, t, bits)
    decreases |bits|
  {
    if bits != [] {
      var x := bits[0];
      assert step(s, x) != step(t, x);
      RunInjective(step, step(s, x), step(t, x), bits[1..]);
    }
  }

  // agree(k, s, t) says how far two states must have agreed k steps before they met:
  // going back one step costs one level, ...
  ghost predicate StepsBack<S(!new)>(step: (S, bool) -> S, agree: (nat, S, S) -> bool, n: nat) {
    && (forall s :: agree(0, s, s))
    && (forall k: nat, s, t, x, y :: k < n && agree(k, step(s, x), step(t, y)) ==> agree(k + 1, s, t))
  }

  // ... and no state takes two different inputs to results that agree below level n.
  ghost predicate Splits<S(!new)>(step: (S, bool) -> S, agree: (nat, S, S) -> bool, n: nat) {
    forall k: nat, s, x, y :: k < n && x != y ==> !agree(k, step(s, x), step(s, y))
  }

  lemma {:induction false} RunBack<S(!new)>(
      step: (S, bool) -> S, agree: (nat, S, S) -> bool, n: nat, s: S, t: S, a: seq<bool>, b: seq<bool>)
    requires StepsBack(step, agree, n)
    requires |a| == |b| <= n && Run(step, s, a) == Run(step, t, b)
    ensures agree(|a|, s, t)
    decreases |a|
  {
    if a != [] {
      var k: nat, x, y := |a| - 1, a[0], b[0];
      RunBack(step, agree, n, step(s, x), step(t, y), a[1..], b[1..]);
      assert agree(k, step(s, x), step(t, y));
    }
  }

  // From one state, different inputs of at most n bits lead to different states.
  lemma {:induction false} WindowInjective<S(!new)>(
      step: (S, bool) -> S, agree: (nat, S, S) -> bool, n: nat, s: S, a: seq<bool>, b: seq<bool>)
    requires StepsBack(step, agree, n) && Splits(step, agree, n)
    requires |a| == |b| <= n && a != b
    ensures Run(step, s, a) != Run(step, s, b)
    decreases |a|
  {
    if a[0] == b[0] {
      assert a == [a[0]] + a[1..] && b == [b[0]] + b[1..];
      WindowInjective(step, agree, n, step(s, a[0]), a[1..], b[1..]);
    } else if Run(step, s, a) == Run(step, s, b) {
      RunBack(step, agree, n, step(s, a[0]), step(s, b[0]), a[1..], b[1..]);
    }
  }

  lemma RunTwo<S>(step: (S, bool) -> S, s: S, a: bool, b: bool)
    ensures Run(step, s, [a, b]) == step(step(s, a), b)
  {
    var s1 := step(s, a);
    assert Run(step, s, [a]) == Run(step, s1, []);
    assert Run(step, s1, [b]) == Run(step, step(s1, b), []);
    RunAppend(step, s, [a], [b]);
    assert [a, b] == [a] + [b];
  }

  lemma RunFour<S>(step: (S, bool) -> S, s: S, a: bool, b: bool, c: bool, d: bool)
    ensures Run(step, s, [a, b, c, d]) == step(step(step(step(s, a), b), c), d)
  {
    RunTwo(step, s, a, b);
    RunTwo(step, step(step(s, a), b), c, d);
    RunAppend(step, s, [a, b], [c, d]);
    assert [a, b, c, d] == [a, b] + [c, d];
  }

  lemma RunEight<S>(
      step: (S, bool) -> S, s: S, a: bool, b: bool, c: bool, d: bool, e: bool, f: bool, g: bool, h: bool)
    ensures Run(step, s, [a, b, c, d, e, f, g, h])
         == step(step(step(step(step(step(step(step(s, a), b), c), d), e), f), g), h)
  {
    RunFour(step, s, a, b, c, d);
    RunFour(step, step(step(step(step(s, a), b), c), d), e, f, g, h);
    RunAppend(step, s, [a, b, c, d], [e, f, g, h]);
    assert [a, b, c, d, e, f, g, h] == [a, b, c, d] + [e, f, g, h];
  }
}
