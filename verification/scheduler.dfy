/** The per-iteration draw of a deadline and a window size. The process-wide
    random generator is not modelled: each draw is an arbitrary source value
    reduced into the range rand.Intn promises. */
module Scheduler {

  /** rand.Intn(1 * 1024 * 1024): the window size is below one MiB. */
  const MaxWindow: nat := 1048576

  /** rand.Intn(200): the deadline is below 200 microseconds. */
  const MaxDeadlineMicros: nat := 200

  /** time.Microsecond, in nanoseconds (the unit of time.Duration). */
  const Microsecond: nat := 1000

  /** rand.Intn(n) for n > 0: some value in [0, n); every such value can be
      drawn. rand.Intn panics when n <= 0, so n > 0 is the caller's duty. */
  function Intn(raw: nat, n: int): (r: nat)
    requires 0 < n
    ensures r < n
    ensures raw < n ==> r == raw
  {
    raw % n
  }

  /** The two source values consumed by one iteration. */
  datatype Draw = Draw(deadlineRaw: nat, sizeRaw: nat)

  /** One TransferWindow: the relative deadline as a time.Duration in
      nanoseconds, and the number of bytes to request. */
  datatype Window = Window(timeout: nat, size: nat)

  predicate ValidWindow(w: Window) {
    && w.timeout < MaxDeadlineMicros * Microsecond
    && w.timeout % Microsecond == 0
    && w.size < MaxWindow
  }

  /** `time.Duration(rand.Intn(200)) * time.Microsecond` and
      `rand.Intn(1 * 1024 * 1024)`, as both loops compute them. */
  function Schedule(d: Draw): (w: Window)
    ensures ValidWindow(w)
  {
    Window(Intn(d.deadlineRaw, MaxDeadlineMicros) * Microsecond, Intn(d.sizeRaw, MaxWindow))
  }

  /** Every window within the bounds, the zero-size window and the zero
      deadline included, is drawn by some pair of source values. */
  lemma ScheduleCoversEveryWindow(w: Window)
    requires ValidWindow(w)
    ensures exists d :: Schedule(d) == w
  {
    var d := Draw(w.timeout / Microsecond, w.size);
    assert Schedule(d) == w;
  }
}
