/** The rotating tagline (class TaglineRotator in script.js). Statements are shown one
    at a time; each carries an `active` and an `exit` flag (CSS classes). On every
    tick the current statement is sent out (`exit` on, `active` off), the index moves
    to the next statement modulo their number, and that statement is brought in
    (`exit` off, `active` on). Ticks run only when there is at least one statement. */
module Tagline {

  import opened Remainders

  /** The index after one rotation among `n` statements. */
  function Next(i: nat, n: nat): (r: nat)
    requires n > 0
    ensures r < n
    ensures i + 1 < n ==> r == i + 1
    ensures i + 1 == n ==> r == 0
  {
    (i + 1) % n
  }

  /** The index after `k` rotations. */
  function AfterRotations(i: nat, n: nat, k: nat): (r: nat)
    requires n > 0
    ensures k > 0 ==> r < n
    ensures i < n ==> r < n
  {
    if k == 0 then i else Next(AfterRotations(i, n, k - 1), n)
  }

  /** The `active` flags after a rotation from index `cur`. */
  function RotateActive(active: seq<bool>, cur: nat): (r: seq<bool>)
    requires cur < |active|
    ensures |r| == |active|
    ensures r[Next(cur, |active|)]
    ensures |active| >= 2 ==> !r[cur]
    ensures forall j :: 0 <= j < |active| && j != cur && j != Next(cur, |active|) ==> r[j] == active[j]
  {
    active[cur := false][Next(cur, |active|) := true]
  }

  /** The `exit` flags after a rotation from index `cur`. */
  function RotateExit(exit: seq<bool>, cur: nat): (r: seq<bool>)
    requires cur < |exit|
    ensures |r| == |exit|
    ensures !r[Next(cur, |exit|)]
    ensures |exit| >= 2 ==> r[cur]
    ensures forall j :: 0 <= j < |exit| && j != cur && j != Next(cur, |exit|) ==> r[j] == exit[j]
  {
    exit[cur := true][Next(cur, |exit|) := false]
  }

  /** One rotation from `x % n` lands on `(x + 1) % n`. */
  lemma NextOfRemainder(x: nat, n: nat)
    requires n > 0
    ensures Next(x % n, n) == (x + 1) % n
  {
    RemainderStep(x, n);
  }

  /** `k` rotations move the index `k` places forward, modulo `n`. */
  lemma {:induction false} RotationsAdvance(i: nat, n: nat, k: nat)
    requires i < n
    ensures AfterRotations(i, n, k) == (i + k) % n
  {
    if k == 0 {
      DivisionUnique(i, n, 0, i);
    } else {
      RotationsAdvance(i, n, k - 1);
      NextOfRemainder(i + k - 1, n);
    }
  }

  /** `n` rotations bring the index back to where it started, and no fewer do. */
  lemma FullCycle(i: nat, n: nat, k: nat)
    requires i < n && 0 < k <= n
    ensures AfterRotations(i, n, k) == i <==> k == n
  {
    RotationsAdvance(i, n, k);
    if k < n {
      if i + k < n {
        DivisionUnique(i + k, n, 0, i + k);
      } else {
        DivisionUnique(i + k, n, 1, i + k - n);
      }
    } else {
      DivisionUnique(i + n, n, 1, i);
    }
  }

  /** With a single statement, a rotation leaves it active and not exiting. */
  lemma SingleStatement(active: seq<bool>, exit: seq<bool>)
    requires |active| == 1 && |exit| == 1
    ensures RotateActive(active, 0) == [true]
    ensures RotateExit(exit, 0) == [false]
  {
  }

  /** If exactly the current statement is active, then after a rotation exactly the
      next one is. */
  lemma RotateKeepsOneActive(active: seq<bool>, cur: nat)
    requires cur < |active|
    requires forall j :: 0 <= j < |active| ==> (active[j] <==> j == cur)
    ensures forall j :: 0 <= j < |active| ==> (RotateActive(active, cur)[j] <==> j == Next(cur, |active|))
  {
  }

  /** The TaglineRotator component. */
  class TaglineRotator {
    const active: array<bool>
    const exit: array<bool>
    /** Whether `start` ran, that is whether the rotation timer is set. */
    const started: bool
    var currentIndex: nat
    /** How many times the timer has run `rotate`. */
    ghost var ticks: nat

    ghost predicate Valid()
      reads this
    {
      active != exit && active.Length == exit.Length &&
      (started <==> active.Length > 0) &&
      (started ==> currentIndex < active.Length && currentIndex == AfterRotations(0, active.Length, ticks)) &&
      (!started ==> ticks == 0)
    }

    /** The flags start as the page has them; the timer is set only when there is a statement. */
    constructor (initialActive: seq<bool>, initialExit: seq<bool>)
      requires |initialActive| == |initialExit|
      ensures Valid() && fresh(active) && fresh(exit)
      ensures active[..] == initialActive && exit[..] == initialExit
      ensures currentIndex == 0 && ticks == 0
      ensures started == (|initialActive| > 0)
    {
      active := new bool[|initialActive|](i requires 0 <= i < |initialActive| => initialActive[i]);
      exit := new bool[|initialExit|](i requires 0 <= i < |initialExit| => initialExit[i]);
      currentIndex := 0;
      ticks := 0;
      started := |initialActive| > 0;
    }

    /** `rotate`, run by the timer. */
    method Rotate()
      requires Valid() && started
      modifies this, active, exit
      ensures Valid() && ticks == old(ticks) + 1
      ensures currentIndex == Next(old(currentIndex), active.Length)
      ensures currentIndex == ticks % active.Length
      ensures active[..] == RotateActive(old(active[..]), old(currentIndex))
      ensures exit[..] == RotateExit(old(exit[..]), old(currentIndex))
    {
      var n := active.Length;
      var cur := currentIndex;
      active[cur] := false;
      exit[cur] := true;
      currentIndex := (currentIndex + 1) % n;
      exit[currentIndex] := false;
      active[currentIndex] := true;
      ticks := ticks + 1;
      RotationsAdvance(0, n, ticks);
    }

    /** The delayed clean-up a rotation schedules for the statement it sent out. */
    method ExitFinished(i: nat)
      requires Valid() && i < exit.Length
      modifies exit
      ensures Valid() && ticks == old(ticks)
      ensures exit[..] == old(exit[..])[i := false]
    {
      exit[i] := false;
    }
  }
}
