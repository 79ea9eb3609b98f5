/** requestFrame's repaint coalescing: one flag, and the animation-frame
    callbacks it has scheduled that have not run yet. */
module Frames {

  datatype Scheduler = Scheduler(isRequestingFrame: bool, scheduled: nat)

  /** The flag is set exactly while one callback is pending, and never more
      than one is. */
  predicate Coalesced(s: Scheduler) {
    s.scheduled <= 1 && (s.isRequestingFrame <==> s.scheduled == 1)
  }

  /** Nothing requested. */
  const Idle: Scheduler := Scheduler(false, 0)

  /** requestFrame: returns at once while the flag is set; otherwise sets the
      flag and schedules one callback. */
  function RequestFrame(s: Scheduler): (r: Scheduler)
    ensures Coalesced(s) ==> Coalesced(r) && r.scheduled == 1
    ensures s.isRequestingFrame ==> r == s
  {
    if s.isRequestingFrame then s else Scheduler(true, s.scheduled + 1)
  }

  /** One animation-frame tick of the host: every scheduled callback runs
      once, clearing the flag and painting. Returns the new state and the
      number of paints. */
  function Tick(s: Scheduler): (r: (Scheduler, nat))
    ensures Coalesced(s) ==> r.0 == Idle && r.1 <= 1
    ensures r.1 > 0 <==> s.scheduled > 0
  {
    if s.scheduled == 0 then (s, 0) else (Scheduler(false, 0), s.scheduled)
  }

  /** n requests in a row. */
  function RequestMany(s: Scheduler, n: nat): Scheduler
    decreases n
  {
    if n == 0 then s else RequestMany(RequestFrame(s), n - 1)
  }

  /** Any number of requests between two ticks yields exactly one paint. */
  lemma {:induction false} RequestsCoalesce(s: Scheduler, n: nat)
    requires Coalesced(s) && n >= 1
    ensures Coalesced(RequestMany(s, n))
    ensures Tick(RequestMany(s, n)).1 == 1
    decreases n
  {
    if n > 1 {
      RequestsCoalesce(RequestFrame(s), n - 1);
    }
  }
}
