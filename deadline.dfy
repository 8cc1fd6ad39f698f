/** The deadline actor of SocketClient: the value of `deadline_` and what one run of
    check_deadline does to it.  In this version of the client the actor never closes the
    socket (that statement is commented out), so the deadline is all it changes. */
module Deadlines {
  import opened Events

  /** An absolute instant, or boost::posix_time::pos_infin ("no active deadline"). */
  datatype Deadline = Infinite | At(instant: nat)

  /** `deadline_.expires_at() <= now`: positive infinity is never at or before a finite time. */
  predicate Expired(d: Deadline, now: nat) {
    d.At? && d.instant <= now
  }

  /** The deadline after one run of check_deadline at time `now`. */
  function Checked(d: Deadline, now: nat): (r: Deadline)
    ensures r == Infinite || now < r.instant
    ensures r == d || r == Infinite
    ensures d == Infinite ==> r == Infinite
    ensures r == Infinite <==> d == Infinite || d.instant <= now
  {
    if Expired(d, now) then Infinite else d
  }

  /** The handler `e` is a run of the actor that finds `d` expired. */
  predicate ExpiredBy<T>(d: Deadline, e: Event<T>) {
    e.Tick? && Expired(d, e.now)
  }

  /** The deadline after the actor ran once for every Tick among the dispatched handlers. */
  function AfterTicks<T>(d: Deadline, events: seq<Event<T>>): Deadline {
    if events == [] then d
    else
      var last := events[|events| - 1];
      var before := AfterTicks(d, events[..|events| - 1]);
      if last.Tick? then Checked(before, last.now) else before
  }

  /** One more dispatched handler: only a Tick moves the deadline. */
  lemma AfterTicksSnoc<T>(d: Deadline, events: seq<Event<T>>, i: nat)
    requires i < |events|
    ensures AfterTicks(d, events[..i + 1]) ==
            if events[i].Tick? then Checked(AfterTicks(d, events[..i]), events[i].now)
            else AfterTicks(d, events[..i])
  {
    assert events[..i + 1][..i] == events[..i];
  }

  /** However many times the actor runs while an operation is blocked, it either leaves the
      deadline the operation armed alone or retires it to infinity, and it retires it exactly
      when one of its runs came at or after the instant.  A deadline still finite afterwards
      lies strictly after every run of the actor. */
  lemma {:induction false} AfterTicksOutcome<T>(d: Deadline, events: seq<Event<T>>)
    ensures AfterTicks(d, events) == d || AfterTicks(d, events) == Infinite
    ensures AfterTicks(d, events) == Infinite <==>
            d == Infinite || exists i :: 0 <= i < |events| && ExpiredBy(d, events[i])
    ensures AfterTicks(d, events).At? ==>
            forall i :: 0 <= i < |events| && events[i].Tick? ==>
              events[i].now < AfterTicks(d, events).instant
  {
    if events != [] {
      var n := |events| - 1;
      var init := events[..n];
      AfterTicksOutcome(d, init);
      assert forall i :: 0 <= i < n ==> init[i] == events[i];
      if AfterTicks(d, init) == Infinite {
        if d != Infinite {
          var i :| 0 <= i < |init| && ExpiredBy(d, init[i]);
          assert ExpiredBy(d, events[i]);
        }
      } else if ExpiredBy(d, events[n]) {
        assert AfterTicks(d, events) == Infinite;
      } else {
        assert AfterTicks(d, events) == d;
        forall i | 0 <= i < |events| ensures !ExpiredBy(d, events[i]) {
          if i < n {
            assert init[i] == events[i];
          }
        }
      }
    }
  }
}
