/**
 * The timespec helpers and the link-state test that mdnsd's compatibility
 * header supplies where the system does not: timespeccmp, timespecsub and
 * LINK_STATE_IS_UP.
 *
 * The fields are unbounded integers here; the overflow of time_t and long
 * is not part of this model.
 */
module Compat {

  const NSEC_PER_SEC := 1000000000

  /** The value of a struct timespec. */
  datatype Time = Time(sec: int, nsec: int)

  /** The instant a timespec denotes, in nanoseconds. */
  function Nanos(t: Time): int {
    t.sec * NSEC_PER_SEC + t.nsec
  }

  /** The nanosecond field is within one second. */
  predicate Normal(t: Time) {
    0 <= t.nsec < NSEC_PER_SEC
  }

  /** The comparison operator passed to timespeccmp. */
  datatype Cmp = Lt | Le | Eq | Ne | Ge | Gt

  predicate Holds(op: Cmp, x: int, y: int) {
    match op
    case Lt => x < y
    case Le => x <= y
    case Eq => x == y
    case Ne => x != y
    case Ge => x >= y
    case Gt => x > y
  }

  /** The order of normal timespecs is the order of the instants they denote. */
  lemma NormalOrder(a: Time, b: Time)
    ensures Normal(a) && Normal(b) && a.sec < b.sec ==> Nanos(a) < Nanos(b)
    ensures Normal(a) && Normal(b) && a.sec > b.sec ==> Nanos(a) > Nanos(b)
  {
    if Normal(a) && Normal(b) && a.sec < b.sec {
      assert Nanos(b) - Nanos(a) == (b.sec - a.sec) * NSEC_PER_SEC + b.nsec - a.nsec;
      assert (b.sec - a.sec) * NSEC_PER_SEC >= NSEC_PER_SEC;
    }
    if Normal(a) && Normal(b) && a.sec > b.sec {
      assert Nanos(a) - Nanos(b) == (a.sec - b.sec) * NSEC_PER_SEC + a.nsec - b.nsec;
      assert (a.sec - b.sec) * NSEC_PER_SEC >= NSEC_PER_SEC;
    }
  }

  /**
   * timespeccmp(tsp, usp, cmp): the seconds decide unless they are equal,
   * and then the nanoseconds do. On normal timespecs that is the comparison
   * of the instants they denote.
   */
  function TimespecCmp(a: Time, b: Time, op: Cmp): (r: bool)
    ensures Normal(a) && Normal(b) ==> (r <==> Holds(op, Nanos(a), Nanos(b)))
  {
    NormalOrder(a, b);
    if a.sec == b.sec then Holds(op, a.nsec, b.nsec) else Holds(op, a.sec, b.sec)
  }

  /** On timespecs that are not normal the macro does not order instants:
      two seconds written as 0 s + 2e9 ns compare below one second. */
  lemma CmpNeedsNormalInputs()
    ensures var a := Time(0, 2 * NSEC_PER_SEC); var b := Time(1, 0);
      TimespecCmp(a, b, Lt) && Nanos(a) > Nanos(b)
  {
  }

  /**
   * The value timespecsub stores: the field-wise difference, with one second
   * borrowed when the nanoseconds went negative.
   */
  function Diff(a: Time, b: Time): (r: Time)
    ensures Nanos(r) == Nanos(a) - Nanos(b)
    ensures Normal(a) && Normal(b) ==> Normal(r)
    ensures r.sec == a.sec - b.sec - 1 <==> a.nsec < b.nsec
    ensures r.sec == a.sec - b.sec || r.sec == a.sec - b.sec - 1
  {
    var s := a.sec - b.sec;
    var n := a.nsec - b.nsec;
    if n < 0 then Time(s - 1, n + NSEC_PER_SEC) else Time(s, n)
  }

  /** A normal timespec is determined by the instant it denotes. */
  lemma NormalUnique(x: Time, y: Time)
    requires Normal(x) && Normal(y) && Nanos(x) == Nanos(y)
    ensures x == y
  {
    NormalOrder(x, y);
    assert x.sec == y.sec;
  }

  /** For normal inputs the difference is THE normal timespec for the
      difference of the instants. */
  lemma DiffIsNormalForm(a: Time, b: Time, v: Time)
    requires Normal(a) && Normal(b) && Normal(v)
    requires Nanos(v) == Nanos(a) - Nanos(b)
    ensures Diff(a, b) == v
  {
    NormalUnique(Diff(a, b), v);
  }

  /** For normal inputs, the first is earlier exactly when the difference is negative. */
  lemma EarlierIffNegativeDiff(a: Time, b: Time)
    requires Normal(a) && Normal(b)
    ensures TimespecCmp(a, b, Lt) <==> Diff(a, b).sec < 0
  {
    var d := Diff(a, b);
    if d.sec < 0 {
      assert d.sec * NSEC_PER_SEC <= -NSEC_PER_SEC;
    } else {
      assert d.sec * NSEC_PER_SEC >= 0;
    }
  }

  /** A struct timespec whose fields are written in place. */
  class Timespec {
    var sec: int
    var nsec: int

    constructor (sec: int, nsec: int)
      ensures this.sec == sec && this.nsec == nsec
    {
      this.sec := sec;
      this.nsec := nsec;
    }

    function Value(): Time
      reads this
    {
      Time(sec, nsec)
    }
  }

  /**
   * timespecsub(tsp, usp, vsp), statement by statement. Only vsp is written,
   * and vsp may be tsp or usp: each input field is read before it could be
   * overwritten, so the result is the difference of the old values.
   */
  method TimespecSub(tsp: Timespec, usp: Timespec, vsp: Timespec)
    modifies vsp
    ensures vsp.Value() == Diff(old(tsp.Value()), old(usp.Value()))
  {
    vsp.sec := tsp.sec - usp.sec;
    vsp.nsec := tsp.nsec - usp.nsec;
    if vsp.nsec < 0 {
      vsp.sec := vsp.sec - 1;
      vsp.nsec := vsp.nsec + NSEC_PER_SEC;
    }
  }

  /** LINK_STATE_UP in OpenBSD's <net/if.h>; the states above it are the
      half- and full-duplex variants of an up link. */
  const LINK_STATE_UNKNOWN := 0
  const LINK_STATE_INVALID := 1
  const LINK_STATE_DOWN := 2
  const LINK_STATE_KALIVE_DOWN := 3
  const LINK_STATE_UP := 4
  const LINK_STATE_HALF_DUPLEX := 5
  const LINK_STATE_FULL_DUPLEX := 6

  /** LINK_STATE_IS_UP(s). */
  predicate LinkStateIsUp(s: int) {
    s >= LINK_STATE_UP
  }

  /** The up states are exactly up and its duplex variants among the named ones. */
  lemma LinkStatesUp()
    ensures LinkStateIsUp(LINK_STATE_UP) && LinkStateIsUp(LINK_STATE_HALF_DUPLEX) && LinkStateIsUp(LINK_STATE_FULL_DUPLEX)
    ensures !LinkStateIsUp(LINK_STATE_UNKNOWN) && !LinkStateIsUp(LINK_STATE_INVALID)
    ensures !LinkStateIsUp(LINK_STATE_DOWN) && !LinkStateIsUp(LINK_STATE_KALIVE_DOWN)
  {
  }
}
