/** `struct timeval` and the three macros that the event loop falls back to. */
module Timevals {

  const USEC_PER_SEC := 1000000

  datatype Timeval = Timeval(sec: int, usec: int) {

    /** tv_usec is a proper fraction of a second. */
    predicate Normal() {
      0 <= usec < USEC_PER_SEC
    }

    /** The instant or duration as one integer number of microseconds. */
    function Micros(): int {
      sec * USEC_PER_SEC + usec
    }
  }

  const ZERO := Timeval(0, 0)

  /** `timeradd(a, b, result)`. */
  function TimerAdd(a: Timeval, b: Timeval): (r: Timeval)
    ensures r.Micros() == a.Micros() + b.Micros()
    ensures a.Normal() && b.Normal() ==> r.Normal()
  {
    var sec, usec := a.sec + b.sec, a.usec + b.usec;
    if usec >= USEC_PER_SEC then Timeval(sec + 1, usec - USEC_PER_SEC) else Timeval(sec, usec)
  }

  /** `timersub(a, b, result)`. */
  function TimerSub(a: Timeval, b: Timeval): (r: Timeval)
    ensures r.Micros() == a.Micros() - b.Micros()
    ensures a.Normal() && b.Normal() ==> r.Normal()
  {
    var sec, usec := a.sec - b.sec, a.usec - b.usec;
    if usec < 0 then Timeval(sec - 1, usec + USEC_PER_SEC) else Timeval(sec, usec)
  }

  /** `timercmp(a, b, <)`; `timercmp(a, b, >)` is `TimerLess(b, a)`. */
  predicate TimerLess(a: Timeval, b: Timeval)
    ensures a.Normal() && b.Normal() ==> (TimerLess(a, b) <==> a.Micros() < b.Micros())
  {
    if a.sec == b.sec then a.usec < b.usec else a.sec < b.sec
  }

  /** A normalised timeval is determined by its microseconds, so sums and differences have one normal form. */
  lemma NormalFormIsUnique(a: Timeval, b: Timeval)
    requires a.Normal() && b.Normal() && a.Micros() == b.Micros()
    ensures a == b
  {
    assert a.sec * USEC_PER_SEC + a.usec == b.sec * USEC_PER_SEC + b.usec;
  }
}
