/** The poll interest mask of the server socket (sock.events) and how one pass
    through the `default:` branch of the main loop changes it. */
module Events {

  /** The <poll.h> flag values on Linux. */
  const POLLIN: bv16 := 0x001
  const POLLPRI: bv16 := 0x002
  const POLLOUT: bv16 := 0x004

  /** sock.events as set before the loop starts. */
  const INITIAL_EVENTS: bv16 := POLLIN | POLLPRI

  /** handleIncomingMessage returns 0 for an accepted request, -1 otherwise. */
  predicate IsHandlerResult(rc: int) {
    rc == 0 || rc == -1
  }

  /** The mask after one `default:` pass, as written: when the socket was
      readable and the datagram not dropped, `events |= POLLOUT & ~POLLIN` runs
      if the handler's result is below 1; when it was writable,
      `events |= POLLIN & ~POLLOUT` runs. */
  function NextEvents(events: bv16, revents: bv16, dropped: bool, rc: int): (e: bv16)
    requires IsHandlerResult(rc)
    ensures events & e == events
    ensures revents & POLLIN != 0 && !dropped ==> e & POLLOUT == POLLOUT
    ensures revents & POLLOUT != 0 ==> e & POLLIN == POLLIN
    ensures (revents & POLLIN == 0 || dropped) && revents & POLLOUT == 0 ==> e == events
  {
    var afterRead := if revents & POLLIN != 0 && !dropped && rc < 1
                     then events | (POLLOUT & !POLLIN) else events;
    if revents & POLLOUT != 0 then afterRead | (POLLIN & !POLLOUT) else afterRead
  }

  /** handleIncomingMessage only ever returns 0 or -1, so the `< 1` test on
      its result always passes: the mask does not depend on which it was. */
  lemma HandlerResultIrrelevant(events: bv16, revents: bv16, dropped: bool, rc: int)
    requires IsHandlerResult(rc)
    ensures NextEvents(events, revents, dropped, rc) == NextEvents(events, revents, dropped, 0)
  {
  }

  /** What one pass leaves alone: it touches no bit other than POLLIN and
      POLLOUT, it sets POLLOUT only when it handled a datagram, and it sets
      POLLIN only when the socket was writable. */
  lemma NextEventsFrame(events: bv16, revents: bv16, dropped: bool, rc: int)
    requires IsHandlerResult(rc)
    ensures var e := NextEvents(events, revents, dropped, rc);
            e & !(POLLIN | POLLOUT) == events & !(POLLIN | POLLOUT)
    ensures revents & POLLIN == 0 || dropped ==>
              NextEvents(events, revents, dropped, rc) & POLLOUT == events & POLLOUT
    ensures revents & POLLOUT == 0 ==>
              NextEvents(events, revents, dropped, rc) & POLLIN == events & POLLIN
  {
  }

  /** The mask after a run of passes, each given by its revents, its drop
      decision and its handler result. */
  function RunEvents(events: bv16, passes: seq<(bv16, bool, int)>): bv16
    requires forall i | 0 <= i < |passes| :: IsHandlerResult(passes[i].2)
    decreases |passes|
  {
    if passes == [] then events
    else RunEvents(NextEvents(events, passes[0].0, passes[0].1, passes[0].2), passes[1..])
  }

  /** No pass ever clears a bit: every bit of the mask stays set for ever. */
  lemma {:induction false} EventsOnlyGrow(events: bv16, passes: seq<(bv16, bool, int)>)
    requires forall i | 0 <= i < |passes| :: IsHandlerResult(passes[i].2)
    ensures events & RunEvents(events, passes) == events
    decreases |passes|
  {
    if passes != [] {
      var e1 := FirstPass(events, passes);
      EventsOnlyGrow(e1, passes[1..]);
      BitsCarryOver(events, e1, RunEvents(e1, passes[1..]));
    }
  }

  /** The mask after the first of a run of passes, and what the rest of the run
      makes of it. Kept apart so that the bit reasoning in EventsOnlyGrow does
      not see the unfolding of RunEvents. */
  lemma FirstPass(events: bv16, passes: seq<(bv16, bool, int)>) returns (e1: bv16)
    requires passes != []
    requires forall i | 0 <= i < |passes| :: IsHandlerResult(passes[i].2)
    ensures events & e1 == events
    ensures RunEvents(events, passes) == RunEvents(e1, passes[1..])
  {
    e1 := NextEvents(events, passes[0].0, passes[0].1, passes[0].2);
  }

  /** Set inclusion of bit masks is transitive. */
  lemma BitsCarryOver(a: bv16, b: bv16, c: bv16)
    requires a & b == a && b & c == b
    ensures a & c == a
  {
  }

  /** Every mask the loop can reach from the initial one: POLLIN and POLLPRI
      always, POLLOUT once the first datagram has been handled. */
  lemma {:induction false} ReachableEvents(passes: seq<(bv16, bool, int)>)
    requires forall i | 0 <= i < |passes| :: IsHandlerResult(passes[i].2)
    ensures var e := RunEvents(INITIAL_EVENTS, passes);
            e == INITIAL_EVENTS || e == INITIAL_EVENTS | POLLOUT
  {
    ReachableFrom(INITIAL_EVENTS, passes);
  }

  lemma {:induction false} ReachableFrom(events: bv16, passes: seq<(bv16, bool, int)>)
    requires events == INITIAL_EVENTS || events == INITIAL_EVENTS | POLLOUT
    requires forall i | 0 <= i < |passes| :: IsHandlerResult(passes[i].2)
    ensures var e := RunEvents(events, passes);
            e == INITIAL_EVENTS || e == INITIAL_EVENTS | POLLOUT
    decreases |passes|
  {
    if passes != [] {
      ReachableFrom(NextEvents(events, passes[0].0, passes[0].1, passes[0].2), passes[1..]);
    }
  }

  /** Before the first handled datagram the socket is never watched for
      writability: a run in which every readable datagram was dropped, or no
      datagram was readable, leaves POLLOUT clear. */
  lemma {:induction false} NoWritingBeforeFirstDatagram(events: bv16, passes: seq<(bv16, bool, int)>)
    requires events & POLLOUT == 0
    requires forall i | 0 <= i < |passes| :: IsHandlerResult(passes[i].2)
    requires forall i | 0 <= i < |passes| :: passes[i].0 & POLLIN == 0 || passes[i].1
    ensures RunEvents(events, passes) & POLLOUT == 0
    decreases |passes|
  {
    if passes != [] {
      NextEventsFrame(events, passes[0].0, passes[0].1, passes[0].2);
      NoWritingBeforeFirstDatagram(NextEvents(events, passes[0].0, passes[0].1, passes[0].2), passes[1..]);
    }
  }

  /** As written, once one datagram has been handled the socket is watched for
      writability on every later poll: POLLOUT is never taken out again. */
  lemma {:induction false} WritingNeverEnds(events: bv16, revents: bv16, rc: int,
                                            passes: seq<(bv16, bool, int)>)
    requires IsHandlerResult(rc) && revents & POLLIN != 0
    requires forall i | 0 <= i < |passes| :: IsHandlerResult(passes[i].2)
    ensures RunEvents(NextEvents(events, revents, false, rc), passes) & POLLOUT == POLLOUT
  {
    var e1 := NextEvents(events, revents, false, rc);
    EventsOnlyGrow(e1, passes);
    var e := RunEvents(e1, passes);
    assert e1 & POLLOUT == POLLOUT;
    assert e & POLLOUT == ((e1 & e) & POLLOUT);
  }

  /** The read/write toggle the loop evidently intends: after handling a
      datagram watch only for writability, after flushing only for
      readability (POLLPRI is left as it is). */
  function IntendedNextEvents(events: bv16, revents: bv16, dropped: bool): (e: bv16)
    ensures revents & POLLOUT != 0 ==> e & POLLIN == POLLIN && e & POLLOUT == 0
    ensures revents & POLLOUT == 0 && revents & POLLIN != 0 && !dropped ==>
              e & POLLOUT == POLLOUT && e & POLLIN == 0
  {
    var afterRead := if revents & POLLIN != 0 && !dropped
                     then (events & !POLLIN) | POLLOUT else events;
    if revents & POLLOUT != 0 then (afterRead & !POLLOUT) | POLLIN else afterRead
  }

  /** Under the intended toggle the mask, started from the initial one, always
      waits for exactly one of reading and writing. */
  lemma {:induction false} IntendedAlternates(events: bv16, passes: seq<(bv16, bool)>)
    requires events == INITIAL_EVENTS || events == POLLOUT | POLLPRI
    ensures var e := IntendedRunEvents(events, passes);
            e == INITIAL_EVENTS || e == POLLOUT | POLLPRI
    decreases |passes|
  {
    if passes != [] {
      IntendedAlternates(IntendedNextEvents(events, passes[0].0, passes[0].1), passes[1..]);
    }
  }

  function IntendedRunEvents(events: bv16, passes: seq<(bv16, bool)>): bv16
    decreases |passes|
  {
    if passes == [] then events
    else IntendedRunEvents(IntendedNextEvents(events, passes[0].0, passes[0].1), passes[1..])
  }
}
