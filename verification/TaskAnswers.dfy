/**
 The forwarder's answers to config requests, over every run of the step system: each is a prefix of
 the one canonical burst, whole unless a send fails, with nothing in between, and lists one consistent
 state of the database.
 */
module TaskAnswers {
  import opened Bytes
  import opened Options
  import opened TextMessages
  import opened Nodes
  import opened NodeDatabases
  import opened NodeHistory
  import opened FrameStreams
  import opened Tasks
  import opened TaskInvariants

  /** The attempts of an answer are the first items of its burst, in order and without a gap; all of
      them succeeded, except that the last attempt of a broken answer failed; and what comes behind the
      greeting comes with a listing. */
  ghost predicate AnswerOk(attempts: seq<Attempt>, a: Answer) {
    var burst := Canonical(a.configId, a.listed);
    && a.from <= a.upTo <= |attempts|
    && a.upTo - a.from <= |burst|
    && (forall i :: a.from <= i < a.upTo ==> attempts[i].item == burst[i - a.from])
    && (forall i :: a.from <= i < a.upTo ==> (attempts[i].ok <==> !(a.outcome.Broken? && i == a.upTo - 1)))
    && (a.outcome.Finished? ==> a.upTo - a.from == |burst|)
    && (a.outcome.Broken? ==> a.upTo > a.from)
    && (a.upTo - a.from > |GREETING| ==> a.listed.Some?)
  }

  /** All answers are so, one after the other, and only the last may still be running. */
  ghost predicate AnswersOk(attempts: seq<Attempt>, answers: seq<Answer>) {
    && (forall i :: 0 <= i < |answers| ==> AnswerOk(attempts, answers[i]))
    && (forall i, j :: 0 <= i < j < |answers| ==> answers[i].upTo <= answers[j].from)
    && (forall i :: 0 <= i < |answers| - 1 ==> !answers[i].outcome.Running?)
  }

  /** The part of the burst sent by the end of a phase. */
  function UntilEnd(phase: Phase, configId: u32, listed: Option<seq<NodeInfo>>): seq<Item> {
    match phase
    case Greeting => GREETING
    case Listing => GREETING + ListedItems(listed)
    case Closing => Canonical(configId, listed)
  }

  /** Where a running answer stands. */
  ghost predicate Underway(f: Forwarder, a: Answer, sent: nat)
    requires f.Answering?
  {
    var items := UntilEnd(f.phase, a.configId, a.listed);
    && a.outcome.Running?
    && a.from <= a.upTo == sent
    && a.upTo - a.from <= |items|
    && f.todo == items[a.upTo - a.from..]
    && (f.phase.Greeting? <==> a.listed.None?)
    && (f.phase.Closing? ==> a.upTo - a.from >= |GREETING + ListedItems(a.listed)|)
  }

  ghost predicate AnswersInv(s: Sys) {
    && AnswersOk(s.attempts, s.answers)
    && (s.forwarder.Answering? ==> s.answers != [] && Underway(s.forwarder, LastAnswer(s), |s.attempts|))
    && (!s.forwarder.Answering? && s.answers != [] ==> !LastAnswer(s).outcome.Running?)
  }

  lemma UntilEndIsPrefix(phase: Phase, configId: u32, listed: Option<seq<NodeInfo>>)
    ensures UntilEnd(phase, configId, listed) <= Canonical(configId, listed)
  {
  }

  /** Attempts after an answer do not matter to it. */
  lemma AnswersStayOk(attempts: seq<Attempt>, longer: seq<Attempt>, answers: seq<Answer>)
    requires AnswersOk(attempts, answers) && attempts <= longer
    ensures AnswersOk(longer, answers)
  {
    hide Canonical;
    forall i | 0 <= i < |answers| ensures AnswerOk(longer, answers[i]) {
      assert AnswerOk(attempts, answers[i]);
    }
  }

  lemma ReplaceLast(attempts: seq<Attempt>, answers: seq<Answer>, a: Answer)
    requires AnswersOk(attempts, answers) && answers != []
    requires AnswerOk(attempts, a) && a.from == answers[|answers| - 1].from
    ensures AnswersOk(attempts, WithLast(answers, a))
  {
    hide AnswerOk;
  }

  lemma OneMoreAnswer(attempts: seq<Attempt>, answers: seq<Answer>, configId: u32)
    requires AnswersOk(attempts, answers)
    requires answers != [] ==> !answers[|answers| - 1].outcome.Running?
    ensures AnswersOk(attempts, answers + [Answer(configId, |attempts|, |attempts|, None, 0, Running)])
  {
    hide Canonical;
    var a := Answer(configId, |attempts|, |attempts|, None, 0, Running);
    assert AnswerOk(attempts, a);
    forall i | 0 <= i < |answers| ensures answers[i].upTo <= |attempts| {
      assert AnswerOk(attempts, answers[i]);
    }
    hide AnswerOk;
  }

  /** One more send of a running answer, as far as the answer goes. */
  lemma SentOneMore(attempts: seq<Attempt>, a: Answer, sent: Attempt)
    requires AnswerOk(attempts, a) && a.outcome.Running? && a.upTo == |attempts|
    requires a.upTo - a.from < |Canonical(a.configId, a.listed)|
    requires sent.item == Canonical(a.configId, a.listed)[a.upTo - a.from]
    requires a.upTo - a.from >= |GREETING| ==> a.listed.Some?
    ensures AnswerOk(attempts + [sent], a.(upTo := a.upTo + 1, outcome := if sent.ok then Running else Broken))
  {
    hide Canonical;
  }

  /** The same, as far as what is left to send goes. */
  lemma OneLessToDo(f: Forwarder, a: Answer, sent: nat)
    requires f.Answering? && Underway(f, a, sent) && f.todo != []
    ensures a.upTo - a.from < |Canonical(a.configId, a.listed)|
    ensures f.todo[0] == Canonical(a.configId, a.listed)[a.upTo - a.from]
    ensures a.upTo - a.from >= |GREETING| ==> a.listed.Some?
    ensures forall g: Forwarder :: g.Answering? && g.phase == f.phase && g.todo == f.todo[1..] ==>
                                     Underway(g, a.(upTo := a.upTo + 1), sent + 1)
  {
    UntilEndIsPrefix(f.phase, a.configId, a.listed);
    var items, k := UntilEnd(f.phase, a.configId, a.listed), a.upTo - a.from;
    hide Canonical, UntilEnd;
    assert items[k..][0] == items[k];
    assert items[k..][1..] == items[k + 1..];
  }

  /** Taking the snapshot fixes the middle of the burst; what was sent is the same beginning. */
  lemma ListedLater(attempts: seq<Attempt>, a: Answer, listed: Option<seq<NodeInfo>>, epoch: nat)
    requires AnswerOk(attempts, a) && a.outcome.Running? && a.upTo - a.from <= |GREETING|
    ensures AnswerOk(attempts, a.(listed := listed, epoch := epoch))
  {
    UntilEndIsPrefix(Greeting, a.configId, a.listed);
    UntilEndIsPrefix(Greeting, a.configId, listed);
    hide Canonical;
  }

  lemma AnswersKept(s: Sys, step: Step, env: Env)
    requires ChannelInv(s) && LockInv(s) && AnswersInv(s) && Enabled(s, step, env)
    ensures AnswersInv(Next(s, step, env))
  {
    hide WritesOf, Complete, Received, Record, Lookup, NodeItems, Call, AnswersOk, AnswerOk, Underway;
    var t := Next(s, step, env);
    match step {
      case UsbRead(data) =>
        ReadKeepsAnswers(s, data, env);
      case Send(written) =>
        if s.forwarder.Forwarding? {
          AnswersStayOk(s.attempts, t.attempts, s.answers);
        } else {
          SendKeepsAnswers(s, written, env);
        }
      case DrawId =>
        if s.forwarder.Answering? {
          UnderwayIgnoresId(s.forwarder, t.forwarder, LastAnswer(s), |s.attempts|);
        }
      case TrySnapshot =>
        SnapshotKeepsAnswers(s, env);
      case EndListing =>
        EndListingKeepsAnswers(s, env);
      case EndAnswer =>
        EndKeepsAnswers(s, env);
      case _ =>
    }
  }

  lemma ReadKeepsAnswers(s: Sys, data: seq<byte>, env: Env)
    requires AnswersInv(s) && Enabled(s, UsbRead(data), env)
    ensures AnswersInv(ForwarderReads(s, data, env))
  {
    hide Call, AnswersOk;
    var t := ForwarderReads(s, data, env);
    if t.forwarder.Answering? {
      OneMoreAnswer(s.attempts, s.answers, LastAnswer(t).configId);
    }
  }

  lemma UnderwayIgnoresId(f: Forwarder, g: Forwarder, a: Answer, sent: nat)
    requires f.Answering? && g.Answering? && g.phase == f.phase && g.todo == f.todo
    requires Underway(f, a, sent)
    ensures Underway(g, a, sent)
  {
    hide UntilEnd;
  }

  lemma SendKeepsAnswers(s: Sys, written: nat, env: Env)
    requires AnswersInv(s) && Enabled(s, Send(written), env) && s.forwarder.Answering?
    ensures AnswersInv(AnswerSent(s, written, env))
  {
    hide Underway, AnswerOk, Complete, WritesOf;
    var f, a := s.forwarder, LastAnswer(s);
    var ok := Complete(env, f.drawn.value, f.todo[0], written);
    var sent := Attempt(f.drawn.value, f.todo[0], written, ok, a.epoch, None);
    var a' := a.(upTo := a.upTo + 1, outcome := if ok then Running else Broken);
    UnderwayRuns(f, a, |s.attempts|);
    hide Canonical;
    assert AnswerOk(s.attempts, a);
    OneLessToDo(f, a, |s.attempts|);
    SentOneMore(s.attempts, a, sent);
    AnswersStayOk(s.attempts, s.attempts + [sent], s.answers);
    ReplaceLast(s.attempts + [sent], s.answers, a');
  }

  lemma UnderwayRuns(f: Forwarder, a: Answer, sent: nat)
    requires f.Answering? && Underway(f, a, sent)
    ensures a.outcome == Running && a.upTo == sent
    ensures f.phase.Greeting? <==> a.listed.None?
  {
  }

  /** Nobody else ever holds the database when the forwarder tries it, and it is there by then. */
  lemma TryLockSucceeds(s: Sys)
    requires ChannelInv(s) && LockInv(s)
    requires s.forwarder.Idle? || (s.forwarder.Answering? && s.forwarder.phase.Greeting?)
    ensures s.lock.Free? && s.db.Some?
  {
  }

  lemma SnapshotKeepsAnswers(s: Sys, env: Env)
    requires ChannelInv(s) && LockInv(s) && AnswersInv(s) && Enabled(s, TrySnapshot, env)
    ensures AnswersInv(Snapshot(s))
  {
    hide AnswersOk, AnswerOk, NodeItems;
    var a, t := LastAnswer(s), Snapshot(s);
    LastIsOk(s.attempts, s.answers);
    TryLockSucceeds(s);
    ListedLater(s.attempts, a, LastAnswer(t).listed, LastAnswer(t).epoch);
    ReplaceLast(s.attempts, s.answers, LastAnswer(t));
    assert (GREETING + ListedItems(s.db))[2..] == ListedItems(s.db);
  }

  lemma LastIsOk(attempts: seq<Attempt>, answers: seq<Answer>)
    requires AnswersOk(attempts, answers) && answers != []
    ensures AnswerOk(attempts, answers[|answers| - 1])
    ensures answers == WithLast(answers, answers[|answers| - 1])
  {
  }

  lemma EndListingKeepsAnswers(s: Sys, env: Env)
    requires AnswersInv(s) && Enabled(s, EndListing, env)
    ensures AnswersInv(Next(s, EndListing, env))
  {
    hide NodeItems, AnswersOk;
    var a := LastAnswer(s);
    var listing := GREETING + ListedItems(a.listed);
    assert a.upTo - a.from == |listing|;
    assert Canonical(a.configId, a.listed)[|listing|..] == Farewell(a.configId);
  }

  lemma EndKeepsAnswers(s: Sys, env: Env)
    requires AnswersInv(s) && Enabled(s, EndAnswer, env)
    ensures AnswersInv(Next(s, EndAnswer, env))
  {
    hide NodeItems, Canonical;
    var a := LastAnswer(s);
    assert AnswerOk(s.attempts, a);
    assert AnswerOk(s.attempts, a.(outcome := Finished));
    hide AnswerOk;
    ReplaceLast(s.attempts, s.answers, a.(outcome := Finished));
  }

  // What is listed.

  ghost predicate ListedFromEpoch(s: Sys, env: Env, a: Answer) {
    a.listed.Some? ==>
      a.epoch <= |AppliedPackets(s)| && a.listed.value == Fold(s.delivered[..a.epoch], env.decoders)
  }

  /** A listing that is being sent is still what the database holds. */
  ghost predicate StillCurrent(s: Sys) {
    s.forwarder.Answering? && s.forwarder.phase.Listing? ==> s.answers != [] && s.db == LastAnswer(s).listed
  }

  /** Every listing is the database as it was at one moment, and stays current while it is being sent. */
  ghost predicate ListedInv(s: Sys, env: Env) {
    (forall i :: 0 <= i < |s.answers| ==> ListedFromEpoch(s, env, s.answers[i])) && StillCurrent(s)
  }

  lemma ListedKept(s: Sys, step: Step, env: Env)
    requires ChannelInv(s) && DeliveryInv(s) && LockInv(s) && DatabaseInv(s, env) && ListedInv(s, env)
    requires Enabled(s, step, env)
    ensures ListedInv(Next(s, step, env), env)
  {
    hide Next, Enabled, Fold, Deliveries, AppliedPackets, StillCurrent, ChannelInv, LockInv;
    var t := Next(s, step, env);
    HistoryGrows(s, step, env);
    StillCurrentKept(s, step, env);
    ListingStep(s, step, env);
    AppliedIsPrefix(s);
    forall i | 0 <= i < |t.answers| && t.answers[i].listed.Some? ensures ListedFromEpoch(t, env, t.answers[i]) {
      var a := t.answers[i];
      assert i < |s.answers| && SameListing(a, s.answers[i]) ==> ListedFromEpoch(s, env, s.answers[i]);
      assert t.delivered[..a.epoch] == s.delivered[..a.epoch];
    }
  }

  predicate SameListing(a: Answer, b: Answer) {
    a.listed == b.listed && a.epoch == b.epoch
  }

  /** What an answer lists stays what it was, except that the snapshot may fill it in. */
  lemma ListingStep(s: Sys, step: Step, env: Env)
    requires Enabled(s, step, env)
    ensures var answers := Next(s, step, env).answers;
            forall i :: 0 <= i < |answers| ==>
                          || (i < |s.answers| && SameListing(answers[i], s.answers[i]))
                          || answers[i].listed.None?
                          || (answers[i].listed == s.db && answers[i].epoch == AppliedCount(s))
  {
    hide WritesOf, Complete, Received, Record, Lookup, NodeItems, Call;
  }

  lemma StillCurrentKept(s: Sys, step: Step, env: Env)
    requires ChannelInv(s) && LockInv(s) && StillCurrent(s) && Enabled(s, step, env)
    ensures StillCurrent(Next(s, step, env))
  {
    hide WritesOf, Complete, Received, Record, Lookup, NodeItems, Call;
  }
}
