/** A fixed-window rate limiter on agent spawns. */
module SpawnLimiter {

  const SPAWN_MAX_PER_WINDOW: nat := 10
  /** Milliseconds. */
  const SPAWN_WINDOW: nat := 10_000

  datatype Window = Window(start: int, count: nat)

  /** The window a check at `now` counts against: a new one once the last has elapsed. */
  function Rolled(w: Window, now: int): Window {
    if now - w.start >= SPAWN_WINDOW then Window(now, 0) else w
  }

  predicate Admits(w: Window, now: int) {
    Rolled(w, now).count < SPAWN_MAX_PER_WINDOW
  }

  function Checked(w: Window, now: int): Window {
    var rolled := Rolled(w, now);
    if Admits(w, now) then rolled.(count := rolled.count + 1) else rolled
  }

  class SpawnRateLimiter {
    var start: int
    var count: nat

    function View(): Window
      reads this
    {
      Window(start, count)
    }

    constructor (now: int)
      ensures View() == Window(now, 0)
    {
      start, count := now, 0;
    }

    method Check(now: int) returns (admitted: bool)
      modifies this
      ensures admitted == Admits(old(View()), now)
      ensures View() == Checked(old(View()), now)
    {
      if now - start >= SPAWN_WINDOW {
        start := now;
        count := 0;
      }
      if count >= SPAWN_MAX_PER_WINDOW {
        return false;
      }
      count := count + 1;
      return true;
    }
  }

  // ---------------------------------------------------------------- whole runs

  /** The window after checks at these instants, the limiter having been made at `made`. */
  function After(made: int, checks: seq<int>): Window
    decreases |checks|
  {
    if checks == [] then Window(made, 0)
    else Checked(After(made, checks[..|checks| - 1]), checks[|checks| - 1])
  }

  /** No check is before the limiter was made. They are in the order of the lock, which need not be the clock's. */
  predicate SinceMade(made: int, checks: seq<int>) {
    forall i | 0 <= i < |checks| :: made <= checks[i]
  }

  /** The instants of a stretch of checks, however they are ordered, span less than so long. */
  predicate Spans(checks: seq<int>, lo: nat, hi: nat, length: int)
    requires lo <= hi <= |checks|
  {
    forall i, j | lo <= i < hi && lo <= j < hi :: checks[j] - checks[i] < length
  }

  predicate AdmittedAt(made: int, checks: seq<int>, i: nat)
    requires i < |checks|
  {
    Admits(After(made, checks[..i]), checks[i])
  }

  /** How many of the checks from `lo` up to `hi` were admitted. */
  function Admissions(made: int, checks: seq<int>, lo: nat, hi: nat): nat
    requires lo <= hi <= |checks|
    decreases hi
  {
    if lo == hi then 0
    else Admissions(made, checks, lo, hi - 1) + (if AdmittedAt(made, checks, hi - 1) then 1 else 0)
  }

  lemma AfterNext(made: int, checks: seq<int>, i: nat)
    requires i < |checks|
    ensures After(made, checks[..i + 1]) == Checked(After(made, checks[..i]), checks[i])
  {
    assert checks[..i + 1][..i] == checks[..i];
  }

  /** The window in force after `i` checks is one the last of them has not outlived, and holds at most what it may. */
  lemma {:induction false} WindowInForce(made: int, checks: seq<int>, i: nat)
    requires i <= |checks|
    ensures var w := After(made, checks[..i]);
            && w.count <= SPAWN_MAX_PER_WINDOW
            && (i > 0 ==> checks[i - 1] < w.start + SPAWN_WINDOW)
            && (i == 0 ==> w.start == made)
    decreases i
  {
    if i == 0 {
      assert checks[..0] == [];
    } else {
      WindowInForce(made, checks, i - 1);
      AfterNext(made, checks, i - 1);
    }
  }

  /** How many of the checks from `lo` up to `hi` began a new window. */
  function Rollovers(made: int, checks: seq<int>, lo: nat, hi: nat): nat
    requires lo <= hi <= |checks|
    decreases hi
  {
    if lo == hi then 0
    else Rollovers(made, checks, lo, hi - 1) + (if Begins(made, checks, hi - 1) then 1 else 0)
  }

  /** The check begins a new window. */
  predicate Begins(made: int, checks: seq<int>, i: nat)
    requires i < |checks|
  {
    checks[i] - After(made, checks[..i]).start >= SPAWN_WINDOW
  }

  /** Windows begin a window's length apart: so many since check `lo` span that many lengths, but for one. */
  lemma {:induction false} WindowsAreApart(made: int, checks: seq<int>, lo: nat, hi: nat)
    returns (first: nat, last: nat)
    requires lo <= hi <= |checks|
    ensures var n := Rollovers(made, checks, lo, hi);
            var before, now := After(made, checks[..lo]), After(made, checks[..hi]);
            if n == 0 then now.start == before.start
            else
              && lo <= first <= last < hi && now.start == checks[last]
              && checks[last] - checks[first] >= (n - 1) * SPAWN_WINDOW
    decreases hi
  {
    first, last := lo, lo;
    if lo < hi {
      first, last := WindowsAreApart(made, checks, lo, hi - 1);
      AfterNext(made, checks, hi - 1);
      if Begins(made, checks, hi - 1) {
        if Rollovers(made, checks, lo, hi - 1) == 0 {
          first := hi - 1;
        }
        last := hi - 1;
      }
    }
  }

  /** What each window of a stretch admitted: no more than a cap for each that closed, and what the last holds. */
  lemma {:induction false} AdmissionsByWindow(made: int, checks: seq<int>, lo: nat, hi: nat)
    requires lo <= hi <= |checks|
    ensures var before, now := After(made, checks[..lo]), After(made, checks[..hi]);
            var n := Rollovers(made, checks, lo, hi);
            && Admissions(made, checks, lo, hi) + before.count <= n * SPAWN_MAX_PER_WINDOW + now.count
            && (n == 0 ==> Admissions(made, checks, lo, hi) + before.count == now.count)
    decreases hi
  {
    if lo < hi {
      AdmissionsByWindow(made, checks, lo, hi - 1);
      AfterNext(made, checks, hi - 1);
      WindowInForce(made, checks, hi - 1);
    }
  }

  /** A stretch of checks that spans less than so many windows' lengths admits no more than one cap more than that. */
  lemma CapsForASpan(made: int, checks: seq<int>, lo: nat, hi: nat, windows: nat)
    requires lo <= hi <= |checks| && windows > 0 && Spans(checks, lo, hi, windows * SPAWN_WINDOW)
    ensures Rollovers(made, checks, lo, hi) <= windows
    ensures Admissions(made, checks, lo, hi) <= (windows + 1) * SPAWN_MAX_PER_WINDOW
  {
    var first, last := WindowsAreApart(made, checks, lo, hi);
    AdmissionsByWindow(made, checks, lo, hi);
    WindowInForce(made, checks, hi);
  }

  /** No stretch that spans less than the window admits more than two windows may. */
  lemma TwiceTheCapAtMost(made: int, checks: seq<int>, lo: nat, hi: nat)
    requires lo <= hi <= |checks| && Spans(checks, lo, hi, SPAWN_WINDOW)
    ensures Admissions(made, checks, lo, hi) <= 2 * SPAWN_MAX_PER_WINDOW
  {
    CapsForASpan(made, checks, lo, hi, 1);
  }

  lemma {:induction false} AdmissionsSplit(made: int, checks: seq<int>, lo: nat, mid: nat, hi: nat)
    requires lo <= mid <= hi <= |checks|
    ensures Admissions(made, checks, lo, hi) == Admissions(made, checks, lo, mid) + Admissions(made, checks, mid, hi)
    ensures Rollovers(made, checks, lo, hi) == Rollovers(made, checks, lo, mid) + Rollovers(made, checks, mid, hi)
    decreases hi
  {
    if mid < hi {
      AdmissionsSplit(made, checks, lo, mid, hi - 1);
    }
  }

  /**
   A stretch that spans less than the window passes the cap exactly when a window begins at one of its
   checks, and what that one has taken with what the window before took of the stretch is past the cap.
   */
  lemma PassesTheCapIff(made: int, checks: seq<int>, lo: nat, hi: nat)
    requires lo <= hi <= |checks| && Spans(checks, lo, hi, SPAWN_WINDOW)
    ensures Admissions(made, checks, lo, hi) > SPAWN_MAX_PER_WINDOW
            <==> exists mid :: lo <= mid < hi && PassesAt(made, checks, lo, mid, hi)
  {
    CapsForASpan(made, checks, lo, hi, 1);
    if Rollovers(made, checks, lo, hi) == 0 {
      AdmissionsByWindow(made, checks, lo, hi);
      WindowInForce(made, checks, hi);
      forall mid | lo <= mid < hi ensures !PassesAt(made, checks, lo, mid, hi) {
        AdmissionsSplit(made, checks, lo, mid + 1, hi);
      }
    } else {
      var mid := TheRollover(made, checks, lo, hi);
      AdmissionsSplit(made, checks, lo, mid, hi);
      AdmissionsSplit(made, checks, mid, mid + 1, hi);
      AdmissionsByWindow(made, checks, lo, mid);
      NewWindowHolds(made, checks, mid, hi);
      assert Admissions(made, checks, lo, hi) > SPAWN_MAX_PER_WINDOW <==> PassesAt(made, checks, lo, mid, hi);
      forall other | lo <= other < hi && PassesAt(made, checks, lo, other, hi) ensures other == mid {
        OnlyRollover(made, checks, lo, mid, other, hi);
      }
    }
  }

  /** A window begins at `mid`, and it and the one before have together taken more than the cap since `lo`. */
  predicate PassesAt(made: int, checks: seq<int>, lo: nat, mid: nat, hi: nat)
    requires lo <= mid < hi <= |checks|
  {
    var before, closing, now := After(made, checks[..lo]), After(made, checks[..mid]), After(made, checks[..hi]);
    Begins(made, checks, mid) && closing.count - before.count + now.count > SPAWN_MAX_PER_WINDOW
  }

  lemma {:induction false} TheRollover(made: int, checks: seq<int>, lo: nat, hi: nat) returns (mid: nat)
    requires lo <= hi <= |checks| && Rollovers(made, checks, lo, hi) == 1
    ensures lo <= mid < hi && Begins(made, checks, mid) && Rollovers(made, checks, lo, mid) == 0
    decreases hi
  {
    mid := hi - 1;
    if !Begins(made, checks, mid) {
      mid := TheRollover(made, checks, lo, hi - 1);
    }
  }

  lemma OnlyRollover(made: int, checks: seq<int>, lo: nat, mid: nat, other: nat, hi: nat)
    requires lo <= mid < hi <= |checks| && lo <= other < hi
    requires Rollovers(made, checks, lo, hi) == 1 && Rollovers(made, checks, lo, mid) == 0
    requires Begins(made, checks, mid) && Begins(made, checks, other)
    ensures other == mid
  {
    AdmissionsSplit(made, checks, lo, mid, hi);
    AdmissionsSplit(made, checks, mid, mid + 1, hi);
    NoneBegins(made, checks, lo, mid);
    NoneBegins(made, checks, mid + 1, hi);
  }

  lemma {:induction false} NoneBegins(made: int, checks: seq<int>, lo: nat, hi: nat)
    requires lo <= hi <= |checks| && Rollovers(made, checks, lo, hi) == 0
    ensures forall i | lo <= i < hi :: !Begins(made, checks, i)
    decreases hi
  {
    if lo < hi {
      NoneBegins(made, checks, lo, hi - 1);
    }
  }

  /** What the window that began at `mid` has admitted is what it holds. */
  lemma NewWindowHolds(made: int, checks: seq<int>, mid: nat, hi: nat)
    requires mid < hi <= |checks| && Begins(made, checks, mid) && Rollovers(made, checks, mid + 1, hi) == 0
    ensures Admissions(made, checks, mid, hi) == After(made, checks[..hi]).count
  {
    AfterNext(made, checks, mid);
    AdmissionsSplit(made, checks, mid, mid + 1, hi);
    AdmissionsByWindow(made, checks, mid + 1, hi);
    assert Admissions(made, checks, mid, mid + 1) == Admissions(made, checks, mid, mid) + 1;
  }

  /** Where the window in force after `i` checks began, and that all it has admitted was admitted since. */
  lemma {:induction false} WindowBegan(made: int, checks: seq<int>, i: nat) returns (began: nat)
    requires SinceMade(made, checks) && i <= |checks|
    ensures began <= i && (i > 0 ==> began < i)
    ensures began < i ==> checks[began] >= After(made, checks[..i]).start
    ensures Admissions(made, checks, began, i) == After(made, checks[..i]).count
    decreases i
  {
    if i == 0 {
      began := 0;
      assert checks[..0] == [];
    } else {
      began := WindowBegan(made, checks, i - 1);
      AfterNext(made, checks, i - 1);
      WindowInForce(made, checks, i - 1);
      if Begins(made, checks, i - 1) {
        began := i - 1;
        assert Admissions(made, checks, i - 1, i - 1) == 0;
      }
    }
  }

  lemma {:induction false} AdmissionsAreChecks(made: int, checks: seq<int>, lo: nat, hi: nat)
    requires lo <= hi <= |checks|
    ensures Admissions(made, checks, lo, hi) <= hi - lo
    decreases hi
  {
    if lo < hi {
      AdmissionsAreChecks(made, checks, lo, hi - 1);
    }
  }

  /** A check is refused only when a whole window's worth was admitted since one less than a window ago. */
  lemma RefusedOnlyWhenFull(made: int, checks: seq<int>, i: nat) returns (began: nat)
    requires SinceMade(made, checks) && i < |checks| && !AdmittedAt(made, checks, i)
    ensures began < i && checks[i] - checks[began] < SPAWN_WINDOW
    ensures Admissions(made, checks, began, i) == SPAWN_MAX_PER_WINDOW
  {
    assert Admissions(made, checks, i, i) == 0;
    began := WindowBegan(made, checks, i);
    WindowInForce(made, checks, i);
  }

  /** A caller that keeps below the cap in every window's length of time is never refused. */
  lemma SubCapIsNeverRefused(made: int, checks: seq<int>)
    requires SinceMade(made, checks)
    requires forall i, j | 0 <= i <= j < |checks| && checks[j] - checks[i] < SPAWN_WINDOW ::
               j - i < SPAWN_MAX_PER_WINDOW
    ensures forall i | 0 <= i < |checks| :: AdmittedAt(made, checks, i)
  {
    forall i | 0 <= i < |checks| ensures AdmittedAt(made, checks, i) {
      if !AdmittedAt(made, checks, i) {
        var began := RefusedOnlyWhenFull(made, checks, i);
        AdmissionsAreChecks(made, checks, began, i);
        assert false;
      }
    }
  }

  // ---------------------------------------------------------------- the bound is met

  /** As many checks as the cap just before a window elapses, and as many again as it does. */
  function Straddling(n: nat): seq<int> {
    seq(n, i requires 0 <= i < n => if i < SPAWN_MAX_PER_WINDOW then SPAWN_WINDOW - 1 else SPAWN_WINDOW)
  }

  lemma {:induction false} StraddlingAdmitted(n: nat, i: nat)
    requires i <= n <= 2 * SPAWN_MAX_PER_WINDOW
    ensures After(0, Straddling(n)[..i])
            == if i <= SPAWN_MAX_PER_WINDOW then Window(0, i) else Window(SPAWN_WINDOW, i - SPAWN_MAX_PER_WINDOW)
    ensures Admissions(0, Straddling(n), 0, i) == i
    decreases i
  {
    if i == 0 {
      assert Straddling(n)[..0] == [];
    } else {
      StraddlingAdmitted(n, i - 1);
      AfterNext(0, Straddling(n), i - 1);
    }
  }

  /**
   The cap is on windows that begin where the limiter says, not on every stretch as long: twice the
   cap can be admitted within one millisecond.
   */
  lemma TwiceTheCapWithinAMillisecond()
    ensures var checks := Straddling(2 * SPAWN_MAX_PER_WINDOW);
            && SinceMade(0, checks) && (forall i, j | 0 <= i <= j < |checks| :: checks[i] <= checks[j])
            && checks[|checks| - 1] - checks[0] == 1
            && Admissions(0, checks, 0, |checks|) == 2 * SPAWN_MAX_PER_WINDOW
  {
    StraddlingAdmitted(2 * SPAWN_MAX_PER_WINDOW, 2 * SPAWN_MAX_PER_WINDOW);
  }
}
