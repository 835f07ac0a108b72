/**
 What a host reads over a whole connection: the forwarder's sends and lag notices as they reach the USB
 port, given write by write to a framer like the firmware's own.
 */
module TaskHost {
  import opened Bytes
  import Framers
  import opened FrameScan
  import opened FrameStreams
  import opened FramePrinting
  import opened UsbSender
  import opened TextMessages
  import opened NodeDatabases
  import opened PacketIds
  import opened Tasks
  import opened ConfigAnswers

  /** The text "[PACKET FORWARDER LAGGED]" and a line feed. */
  const LAG_NOTICE: seq<byte> :=
    [0x5b, 0x50, 0x41, 0x43, 0x4b, 0x45, 0x54, 0x20, 0x46, 0x4f, 0x52, 0x57, 0x41,
     0x52, 0x44, 0x45, 0x52, 0x20, 0x4c, 0x41, 0x47, 0x47, 0x45, 0x44, 0x5d, 0x0a]

  /** The writes of an event that the port took. */
  function EventWrites(env: Env, e: Event): seq<seq<byte>> {
    match e
    case Sent(a) => var writes := WritesOf(env, a.id, a.item); writes[..Min(a.written, |writes|)]
    case Notice(taken) => if taken then [LAG_NOTICE] else []
  }

  function Wire(env: Env, events: seq<Event>): seq<seq<byte>> {
    if events == [] then []
    else Wire(env, events[..|events| - 1]) + EventWrites(env, events[|events| - 1])
  }

  /** The sends among the events. */
  function SentOf(events: seq<Event>): seq<Attempt> {
    if events == [] then []
    else
      match events[|events| - 1]
      case Sent(a) => SentOf(events[..|events| - 1]) + [a]
      case Notice(_) => SentOf(events[..|events| - 1])
  }

  /** The messages sent completely; one encoded to no bytes at all is no message to a framer. */
  function Arriving(env: Env, attempts: seq<Attempt>): seq<seq<byte>> {
    if attempts == [] then []
    else Arriving(env, attempts[..|attempts| - 1]) + Arrival(env, attempts[|attempts| - 1])
  }

  function Arrival(env: Env, a: Attempt): seq<seq<byte>> {
    var m := env.encode(a.id, a.item);
    if a.ok && m != [] then [m] else []
  }

  /** The event was not cut off partway: a send got out completely or not at all. */
  predicate Whole(e: Event) {
    e.Sent? ==> e.attempt.ok || e.attempt.written == 0
  }

  predicate AllWhole(events: seq<Event>) {
    forall i :: 0 <= i < |events| ==> Whole(events[i])
  }

  /** A send succeeded exactly if all its writes were taken. */
  predicate WrittenOk(env: Env, a: Attempt) {
    && a.written <= |WritesOf(env, a.id, a.item)|
    && (a.ok <==> Complete(env, a.id, a.item, a.written))
  }

  predicate AllWrittenOk(env: Env, attempts: seq<Attempt>) {
    forall i :: 0 <= i < |attempts| ==> WrittenOk(env, attempts[i])
  }

  // The events of a run.

  /** The events since the forwarder connected hold just the sends since then. */
  ghost predicate HostInv(s: Sys, env: Env) {
    && AllWrittenOk(env, s.attempts)
    && s.sentBefore <= |s.attempts|
    && SentOf(s.events) == s.attempts[s.sentBefore..]
  }

  /** How a step extends what was sent and what has happened on the connection. */
  lemma EventStep(s: Sys, step: Step, env: Env)
    requires Enabled(s, step, env)
    ensures var t := Next(s, step, env);
            || (t.attempts == s.attempts && t.sentBefore == s.sentBefore
                && (t.events == s.events || exists taken: bool :: t.events == s.events + [Notice(taken)]))
            || (t.attempts == s.attempts && t.sentBefore == |s.attempts| && t.events == [])
            || (exists a: Attempt ::
                  WrittenOk(env, a) && t.attempts == s.attempts + [a] && t.events == s.events + [Sent(a)]
                  && t.sentBefore == s.sentBefore)
  {
    hide WritesOf, Complete, Received, Record, Lookup, NodeItems, Call;
    var t := Next(s, step, env);
    match step {
      case Notify(taken) =>
        assert t.events == s.events + [Notice(taken)];
      case Send(_) =>
        var a := t.attempts[|s.attempts|];
        assert WrittenOk(env, a) && t.attempts == s.attempts + [a] && t.events == s.events + [Sent(a)];
      case _ =>
    }
  }

  lemma HostKept(s: Sys, step: Step, env: Env)
    requires HostInv(s, env) && Enabled(s, step, env)
    ensures HostInv(Next(s, step, env), env)
  {
    hide Next, Enabled, WrittenOk, SentOf;
    var t := Next(s, step, env);
    EventStep(s, step, env);
    SentOfStep(s.events);
    assert t.events == [] ==> SentOf(t.events) == [];
  }

  lemma SentOfStep(events: seq<Event>)
    ensures SentOf([]) == []
    ensures forall a: Attempt :: SentOf(events + [Sent(a)]) == SentOf(events) + [a]
    ensures forall taken: bool :: SentOf(events + [Notice(taken)]) == SentOf(events)
  {
    assert forall e: Event :: (events + [e])[..|events|] == events;
  }

  lemma {:induction false} SentOfPrefix(events: seq<Event>, n: nat)
    requires n <= |events|
    ensures SentOf(events[..n]) <= SentOf(events)
  {
    if n < |events| {
      var m := |events| - 1;
      SentOfPrefix(events[..m], n);
      assert events[..m][..n] == events[..n];
    } else {
      assert events[..n] == events;
    }
  }

  /** The sends among the first events are the first ones since the forwarder connected. */
  lemma EventsSent(s: Sys, env: Env, n: nat)
    requires HostInv(s, env) && n <= |s.events|
    ensures s.sentBefore <= |s.attempts| && SentOf(s.events[..n]) <= s.attempts[s.sentBefore..]
    ensures n == |s.events| ==> SentOf(s.events[..n]) == s.attempts[s.sentBefore..]
    ensures AllWrittenOk(env, SentOf(s.events[..n]))
  {
    SentOfPrefix(s.events, n);
    assert s.events[..|s.events|] == s.events;
  }

  // What is read from them.

  lemma NoticeIsSkipped()
    ensures Calls([], [LAG_NOTICE]) == ([], [])
  {
    assert NoMagicBefore(LAG_NOTICE, |LAG_NOTICE|);
    NoiseIsHarmless(LAG_NOTICE);
    OneCall([], LAG_NOTICE);
    assert [] + LAG_NOTICE == LAG_NOTICE;
  }

  /** From an idle framer an event that was not cut off gives its message, if it has one, and nothing else. */
  lemma WholeEventIsRead(env: Env, e: Event)
    requires Whole(e) && (e.Sent? ==> WrittenOk(env, e.attempt))
    ensures Calls([], EventWrites(env, e)) == (if e.Sent? then Arrival(env, e.attempt) else [], [])
  {
    match e {
      case Notice(taken) =>
        NoticeIsSkipped();
      case Sent(a) =>
        var m := env.encode(a.id, a.item);
        hide FrameWrites;
        if a.ok {
          assert EventWrites(env, e) == FrameWrites(m);
          if m == [] {
            EmptyFrameIsSkipped();
          } else {
            SentFrameIsReadBack(m, 0);
          }
        } else {
          assert EventWrites(env, e) == [];
        }
    }
  }

  /** A connection on which nothing was cut off: the host reads the messages sent, once each, in order,
      whatever sends failed before their first write and whatever notices came between. */
  lemma {:induction false} WholeEventsAreRead(env: Env, events: seq<Event>)
    requires AllWhole(events) && AllWrittenOk(env, SentOf(events))
    ensures Calls([], Wire(env, events)) == (Arriving(env, SentOf(events)), [])
  {
    if events != [] {
      var init, e := events[..|events| - 1], events[|events| - 1];
      assert AllWrittenOk(env, SentOf(init)) && (e.Sent? ==> WrittenOk(env, e.attempt)) by {
        hide WrittenOk;
        if e.Sent? {
          assert SentOf(events)[|SentOf(init)|] == e.attempt;
          assert SentOf(events)[..|SentOf(init)|] == SentOf(init);
        }
      }
      WholeEventsAreRead(env, init);
      WholeEventIsRead(env, e);
      CallsAppend([], Wire(env, init), EventWrites(env, e));
      ArrivingOneMore(env, SentOf(init));
    }
  }

  lemma ArrivingSnoc(env: Env, attempts: seq<Attempt>, a: Attempt)
    ensures Arriving(env, attempts + [a]) == Arriving(env, attempts) + Arrival(env, a)
  {
    assert (attempts + [a])[..|attempts|] == attempts;
  }

  lemma ArrivingOneMore(env: Env, attempts: seq<Attempt>)
    ensures forall a: Attempt :: Arriving(env, attempts + [a]) == Arriving(env, attempts) + Arrival(env, a)
    ensures Arriving(env, attempts) + [] == Arriving(env, attempts)
  {
    assert forall a: Attempt :: (attempts + [a])[..|attempts|] == attempts;
  }

  /** One more send: it delivers its message only if it is complete, and the frame after it is read where
      it stands if and only if the send was not cut off. */
  lemma NextFrameIntactIff(env: Env, events: seq<Event>, a: Attempt, payload: seq<byte>, after: seq<byte>)
    requires AllWhole(events) && AllWrittenOk(env, SentOf(events)) && WrittenOk(env, a)
    requires GoodLength(|payload|)
    ensures var (packets, residue) := Calls([], Wire(env, events + [Sent(a)]));
            && packets == Arriving(env, SentOf(events) + [a])
            && (Scan(residue + (Printed(payload) + after)) == Frame(payload, after) <==> Whole(Sent(a)))
  {
    hide Scan, Call;
    var residue := SendIsRead(env, a);
    assert (events + [Sent(a)])[..|events|] == events;
    WholeEventsAreRead(env, events);
    CallsAppend([], Wire(env, events), EventWrites(env, Sent(a)));
    ArrivingOneMore(env, SentOf(events));
    FrameIntactIff(residue, payload, after);
  }

  /** The same, of the events of a run. */
  lemma KeepsUpIff(s: Sys, env: Env, n: nat, payload: seq<byte>, after: seq<byte>)
    requires HostInv(s, env) && n < |s.events| && s.events[n].Sent?
    requires AllWhole(s.events[..n]) && GoodLength(|payload|)
    ensures var (packets, residue) := Calls([], Wire(env, s.events[..n + 1]));
            && packets == Arriving(env, SentOf(s.events[..n + 1]))
            && (Scan(residue + (Printed(payload) + after)) == Frame(payload, after) <==> Whole(s.events[n]))
  {
    hide Scan, Calls, Printed, Wire, Arriving, HostInv, SentOf, WrittenOk, AllWhole;
    var events, a := s.events[..n], s.events[n].attempt;
    EventsSent(s, env, n);
    EventsSent(s, env, n + 1);
    assert s.events[..n + 1] == events + [Sent(a)];
    SentOfStep(events);
    assert SentOf(events + [Sent(a)])[|SentOf(events)|] == a;
    NextFrameIntactIff(env, events, a, payload, after);
  }

  lemma EmptyHasOneWrite()
    ensures |FrameWrites([])| == 1
  {
  }

  /** What a send leaves with an idle framer: nothing, or at least four bytes of a frame cut off. */
  lemma SendIsRead(env: Env, a: Attempt) returns (residue: seq<byte>)
    requires WrittenOk(env, a)
    ensures Calls([], EventWrites(env, Sent(a))) == (Arrival(env, a), residue)
    ensures Scan(residue) == Pending(residue)
    ensures if Whole(Sent(a)) then residue == [] else |residue| >= 4
  {
    if Whole(Sent(a)) {
      WholeEventIsRead(env, Sent(a));
      Framers.ScanNothing();
      residue := [];
    } else {
      var m := env.encode(a.id, a.item);
      assert m != [] by { EmptyHasOneWrite(); }
      CutSendIsPending(m, a.written);
      residue := Flatten(FrameWrites(m)[..a.written]);
    }
  }

  // An answer among them.

  lemma {:induction false} ArrivingAppend(env: Env, a: seq<Attempt>, b: seq<Attempt>)
    ensures Arriving(env, a + b) == Arriving(env, a) + Arriving(env, b)
    decreases |b|
  {
    hide Arrival;
    if b == [] {
      assert a + b == a;
      ArrivingOneMore(env, a);
    } else {
      var n := |b| - 1;
      ArrivingAppend(env, a, b[..n]);
      assert (a + b)[..|a + b| - 1] == a + b[..n];
    }
  }

  lemma {:induction false} NonEmptyOneMore(messages: seq<seq<byte>>, m: seq<byte>)
    ensures NonEmpty(messages + [m]) == NonEmpty(messages) + (if m == [] then [] else [m])
  {
    if messages == [] {
      assert messages + [m] == [m] && [m][1..] == [];
    } else {
      NonEmptyOneMore(messages[1..], m);
      assert (messages + [m])[1..] == messages[1..] + [m];
    }
  }

  /** Successful sends of a list of items under successive ids. */
  ghost predicate SentAs(attempts: seq<Attempt>, items: seq<Item>, drawn: nat) {
    && |attempts| == |items|
    && forall i :: 0 <= i < |items| ==>
                     attempts[i].ok && attempts[i].item == items[i] && attempts[i].id == NthId(drawn + i)
  }

  lemma SentAsBefore(attempts: seq<Attempt>, items: seq<Item>, drawn: nat)
    requires SentAs(attempts, items, drawn) && items != []
    ensures SentAs(attempts[..|items| - 1], items[..|items| - 1], drawn)
  {
  }

  /** They arrive as the messages of that list. */
  lemma {:induction false} BurstArrives(env: Env, attempts: seq<Attempt>, items: seq<Item>, drawn: nat)
    requires SentAs(attempts, items, drawn)
    ensures Arriving(env, attempts) == NonEmpty(Messages(items, drawn, env.encode))
  {
    if items == [] {
      assert Messages(items, drawn, env.encode) == [];
    } else {
      var n := |items| - 1;
      var last, m := attempts[n], env.encode(NthId(drawn + n), items[n]);
      assert Arrival(env, last) == if m == [] then [] else [m];
      SentAsBefore(attempts, items, drawn);
      hide *;
      BurstArrives(env, attempts[..n], items[..n], drawn);
      MessagesOneMore(items, drawn, env.encode);
      NonEmptyOneMore(Messages(items[..n], drawn, env.encode), m);
      ArrivingSnoc(env, attempts[..n], last);
      assert attempts == attempts[..n] + [last];
    }
  }

  lemma MessagesOneMore(items: seq<Item>, drawn: nat, encode: Encoder)
    requires items != []
    ensures var n := |items| - 1;
            Messages(items, drawn, encode) == Messages(items[..n], drawn, encode) + [encode(NthId(drawn + n), items[n])]
  {
  }

  /** Stretches of sends arrive one after the other; a burst sent successfully among them, as a burst. */
  lemma BurstArrivesAmong(env: Env, attempts: seq<Attempt>, start: nat, from: nat, upTo: nat, end: nat,
                          items: seq<Item>)
    requires start <= from <= upTo <= end <= |attempts| && |items| == upTo - from
    requires forall i :: from <= i < upTo ==>
                           attempts[i].ok && attempts[i].item == items[i - from] && attempts[i].id == NthId(i)
    ensures Arriving(env, attempts[start..end])
            == Arriving(env, attempts[start..from]) + NonEmpty(Messages(items, from, env.encode))
               + Arriving(env, attempts[upTo..end])
  {
    hide Arriving, NonEmpty, Messages, NthId;
    var before, burst, behind := attempts[start..from], attempts[from..upTo], attempts[upTo..end];
    assert attempts[start..end] == (before + burst) + behind;
    ArrivingAppend(env, before + burst, behind);
    ArrivingAppend(env, before, burst);
    BurstArrives(env, burst, items, from);
  }
}
