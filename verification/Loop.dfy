/** A loop seen as repeated steps of a function that gives None where the loop breaks out. */
module Loop {
  datatype Option<+T> = None | Some(value: T)

  /** The state after `n` turns, standing still once the loop has broken out. */
  ghost function After<S>(step: S -> Option<S>, s: S, n: nat): S {
    if n == 0 then s else
      var p := After(step, s, n - 1);
      if step(p).None? then p else step(p).value
  }

  ghost predicate Halts<S>(step: S -> Option<S>, s: S) {
    exists n: nat :: step(After(step, s, n)).None?
  }

  /** Where the loop breaks out. */
  ghost function Final<S>(step: S -> Option<S>, s: S): S
    requires Halts(step, s)
  {
    var n: nat :| step(After(step, s, n)).None?; After(step, s, n)
  }

  lemma {:induction false} AfterStill<S>(step: S -> Option<S>, s: S, n: nat, k: nat)
    requires n <= k && step(After(step, s, n)).None?
    ensures After(step, s, k) == After(step, s, n)
    decreases k
  {
    if n < k { AfterStill(step, s, n, k - 1); }
  }

  lemma FinalIs<S>(step: S -> Option<S>, s: S, n: nat)
    requires step(After(step, s, n)).None?
    ensures Halts(step, s) && Final(step, s) == After(step, s, n)
  {
    var k: nat :| step(After(step, s, k)).None? && Final(step, s) == After(step, s, k);
    if n <= k { AfterStill(step, s, n, k); } else { AfterStill(step, s, k, n); }
  }

  /** Before the turn that breaks out, every turn advances. */
  lemma Turn<S>(step: S -> Option<S>, s: S, n: nat, last: nat)
    requires n <= last && step(After(step, s, last)).None?
    ensures step(After(step, s, n)).None? ==> Halts(step, s) && Final(step, s) == After(step, s, n)
    ensures step(After(step, s, n)).Some? ==> n < last && After(step, s, n + 1) == step(After(step, s, n)).value
  {
    if step(After(step, s, n)).None? { FinalIs(step, s, n); }
  }

  /** What every turn keeps holds after any number of turns, and what every turn raises never falls. */
  lemma {:induction false} Monotone<S(!new)>(step: S -> Option<S>, s: S, ok: S -> bool, height: S -> int, n: nat, k: nat)
    requires ok(s) && n <= k
    requires forall p :: ok(p) && step(p).Some? ==> ok(step(p).value) && height(p) <= height(step(p).value)
    ensures ok(After(step, s, n)) && height(After(step, s, n)) <= height(After(step, s, k))
    decreases k
  {
    if n < k {
      Monotone(step, s, ok, height, n, k - 1);
      Monotone(step, s, ok, height, k - 1, k - 1);
    } else if n > 0 {
      Monotone(step, s, ok, height, n - 1, n - 1);
    }
  }
}
