/** Loops that stop the first time a test holds. */
module FirstStop {

  /** From `n` on the loop `run` ends with `at(n)` if it stops there, and as it does from `n + 1` if not. */
  ghost predicate Loops<T(!new)>(at: nat -> T, run: nat -> T, stop: nat -> bool, n: nat) {
    run(n) == if stop(n) then at(n) else run(n + 1)
  }

  ghost predicate Before(stop: nat -> bool, n: nat) {
    forall j: nat {:trigger stop(j)} :: j < n ==> !stop(j)
  }

  lemma {:induction false} StopsFirst<T(!new)>(at: nat -> T, run: nat -> T, stop: nat -> bool, n: nat, bound: nat)
    returns (r: nat)
    requires n <= bound && stop(bound) && Before(stop, n)
    requires forall j: nat {:trigger Loops(at, run, stop, j)} :: Loops(at, run, stop, j)
    ensures n <= r <= bound && run(n) == at(r) && stop(r) && Before(stop, r)
    decreases bound - n
  {
    assert Loops(at, run, stop, n);
    if stop(n) {
      r := n;
    } else {
      r := StopsFirst(at, run, stop, n + 1, bound);
    }
  }
}
