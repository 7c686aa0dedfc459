/** Any number of threads sharing the pool of benchmarks/client.py and one server, as a state machine
    whose steps interleave freely. The server may answer a request with any well-formed reply. */
module PoolProtocol {
  import opened Bytes
  import opened Replies
  import opened Client

  /** Where a thread is in its `with pool.acquire()` block. */
  datatype Thread =
    | Outside
    | Holding(conn: nat)                       // in the block, between calls
    | Waiting(conn: nat, op: Op, since: nat)   // request sent after since answers, no reply yet
    | Answered(conn: nat, op: Op, since: nat, at: nat)  // the at-th answer is on the connection
    | Replacing                                // connection closed, dialling its replacement
  {
    predicate HasConn() { Holding? || Waiting? || Answered? }
  }

  /** One request the server executed and its reply; one call that the caller saw return or raise. */
  datatype Served = Served(op: Op, reply: Reply)
  datatype Completed = Completed(caller: nat, op: Op, result: Result<Answer>, since: nat, at: nat)

  datatype State = State(
    size: nat, idle: seq<nat>, threads: seq<Thread>,
    unread: map<nat, bytes>, nextConn: nat,          // open connections and their unread reply bytes
    orphans: multiset<Op>,                           // requests sent whose callers gave up waiting
    history: seq<Served>, log: seq<Completed>)

  datatype Step =
    | Acquire(t: nat)
    | Send(t: nat, op: Op)
    | Serve(t: nat, reply: Reply)
    | ServeLate(op: Op, reply: Reply)  // an orphan is executed; nobody reads the reply
    | Receive(t: nat)
    | Release(t: nat)
    | Fail(t: nat)        // any Exception in the block: I/O, packing, or the caller's own
    | Replenish(t: nat)
    | GiveUp(t: nat)      // dialling the replacement failed
    | Abandon(t: nat)     // leaving by a BaseException that is not an Exception
    | CloseIdle           // close() draining one connection
  {
    predicate ByThread() { !ServeLate? && !CloseIdle? }
  }

  // ---------- Steps ----------

  predicate Init(s: State) {
    && |s.idle| == s.size
    && (forall i, j :: 0 <= i < j < |s.idle| ==> s.idle[i] != s.idle[j])
    && (forall c <- s.idle :: c < s.nextConn && c in s.unread && s.unread[c] == [])
    && (forall t :: 0 <= t < |s.threads| ==> s.threads[t] == Outside)
    && s.history == [] && s.log == [] && s.orphans == multiset{}
  }

  predicate Enabled(s: State, step: Step) {
    match step
    case Acquire(t) => t < |s.threads| && s.threads[t].Outside? && s.idle != []
    case Send(t, op) => t < |s.threads| && s.threads[t].Holding? && Sends(op) && FrameOf(op).Some?
    case Serve(t, reply) =>
      t < |s.threads| && s.threads[t].Waiting? && s.threads[t].conn in s.unread
      && WellFormed(s.threads[t].op, reply)
    case ServeLate(op, reply) => op in s.orphans && WellFormed(op, reply)
    case Receive(t) =>
      t < |s.threads| && s.threads[t].Answered? && s.threads[t].conn in s.unread
      && Read(s.threads[t].op, s.unread[s.threads[t].conn]).Some?
    case Release(t) => t < |s.threads| && s.threads[t].Holding? && |s.idle| < s.size
    case Fail(t) => t < |s.threads| && s.threads[t].HasConn()
    case Replenish(t) => t < |s.threads| && s.threads[t].Replacing?
    case GiveUp(t) => t < |s.threads| && s.threads[t].Replacing?
    case Abandon(t) => t < |s.threads| && s.threads[t].HasConn()
    case CloseIdle => s.idle != []
  }

  /** The request a thread is waiting on: the server may still execute it when the thread gives up. */
  function Unanswered(th: Thread): multiset<Op> {
    if th.Waiting? then multiset{th.op} else multiset{}
  }

  function Apply(s: State, step: Step): State
    requires Enabled(s, step)
  {
    match step
    case Acquire(t) =>
      s.(idle := s.idle[1..], threads := s.threads[t := Holding(s.idle[0])])
    case Send(t, op) =>
      s.(threads := s.threads[t := Waiting(s.threads[t].conn, op, |s.history|)])
    case Serve(t, reply) =>
      var th := s.threads[t];
      s.(threads := s.threads[t := Answered(th.conn, th.op, th.since, |s.history|)],
         unread := s.unread[th.conn := s.unread[th.conn] + ReplyFrame(reply)],
         history := s.history + [Served(th.op, reply)])
    case ServeLate(op, reply) =>
      s.(orphans := s.orphans - multiset{op}, history := s.history + [Served(op, reply)])
    case Receive(t) =>
      var th := s.threads[t];
      var (result, rest) := Read(th.op, s.unread[th.conn]).value;
      var s' := s.(log := s.log + [Completed(t, th.op, result, th.since, th.at)]);
      if result.Ok? then s'.(threads := s.threads[t := Holding(th.conn)], unread := s.unread[th.conn := rest])
      else s'.(threads := s.threads[t := Replacing], unread := s.unread - {th.conn})
    case Release(t) =>
      s.(idle := s.idle + [s.threads[t].conn], threads := s.threads[t := Outside])
    case Fail(t) =>
      s.(threads := s.threads[t := Replacing], unread := s.unread - {s.threads[t].conn},
         orphans := s.orphans + Unanswered(s.threads[t]))
    case Replenish(t) =>
      if |s.idle| < s.size then
        s.(idle := s.idle + [s.nextConn], threads := s.threads[t := Outside],
           unread := s.unread[s.nextConn := []], nextConn := s.nextConn + 1)
      else s.(threads := s.threads[t := Outside])
    case GiveUp(t) => s.(threads := s.threads[t := Outside])
    case Abandon(t) =>
      s.(threads := s.threads[t := Outside], orphans := s.orphans + Unanswered(s.threads[t]))
    case CloseIdle => s.(idle := s.idle[1..])
  }

  ghost predicate Next(s: State, s': State) {
    exists step :: Enabled(s, step) && s' == Apply(s, step)
  }

  ghost predicate StepAt(run: seq<State>, i: nat) {
    0 < i < |run| ==> Next(run[i - 1], run[i])
  }

  ghost predicate IsRun(run: seq<State>) {
    run != [] && Init(run[0]) && forall i: nat :: StepAt(run, i)
  }

  // ---------- Invariants ----------

  /** Threads inside their block, dialling included: each keeps one place in the queue reserved. */
  function Inside(threads: seq<Thread>): nat {
    if threads == [] then 0 else (if threads[0].Outside? then 0 else 1) + Inside(threads[1..])
  }

  function Slots(s: State): nat { |s.idle| + Inside(s.threads) }

  /** Threads that have a connection at this moment. */
  function Held(threads: seq<Thread>): nat {
    if threads == [] then 0 else (if threads[0].HasConn() then 1 else 0) + Held(threads[1..])
  }

  /** Every connection is idle at most once, or held by at most one thread, never both. */
  ghost predicate Exclusive(idle: seq<nat>, threads: seq<Thread>, nextConn: nat) {
    && (forall i, j :: 0 <= i < j < |idle| ==> idle[i] != idle[j])
    && (forall t, c :: 0 <= t < |threads| && c in idle && threads[t].HasConn() ==> threads[t].conn != c)
    && (forall t, u :: 0 <= t < u < |threads| && threads[t].HasConn() && threads[u].HasConn() ==>
          threads[t].conn != threads[u].conn)
    && (forall c <- idle :: c < nextConn)
    && (forall t :: 0 <= t < |threads| && threads[t].HasConn() ==> threads[t].conn < nextConn)
  }

  /** Connections not in the middle of an exchange have nothing unread; those that are hold exactly the
      reply to the request of the thread that owns them. */
  ghost predicate InStep(s: State) {
    && (forall c <- s.idle :: c in s.unread && s.unread[c] == [])
    && (forall t :: 0 <= t < |s.threads| && s.threads[t].HasConn() ==> ThreadInStep(s, s.threads[t]))
  }

  ghost predicate ThreadInStep(s: State, th: Thread)
    requires th.HasConn()
  {
    && th.conn in s.unread
    && match th
       case Answered(c, op, since, at) =>
         && since <= at < |s.history| && s.history[at].op == op && WellFormed(op, s.history[at].reply)
         && s.unread[c] == ReplyFrame(s.history[at].reply)
       case Waiting(c, _, since) => since <= |s.history| && s.unread[c] == []
       case _ => s.unread[th.conn] == []
  }

  /** Calls returned what the replies to their own requests say. */
  ghost predicate Faithful(s: State) {
    forall e <- s.log :: IsAnswer(s.history, e)
  }

  ghost predicate IsAnswer(history: seq<Served>, e: Completed) {
    && e.since <= e.at < |history| && history[e.at].op == e.op && WellFormed(e.op, history[e.at].reply)
    && e.result == Expected(e.op, history[e.at].reply)
  }

  /** No answer of the server is used by two calls. */
  ghost predicate UsedOnce(threads: seq<Thread>, log: seq<Completed>, n: nat) {
    && (forall i, j :: 0 <= i < j < |log| ==> log[i].at != log[j].at)
    && (forall t, u :: 0 <= t < u < |threads| && threads[t].Answered? && threads[u].Answered? ==>
          threads[t].at != threads[u].at)
    && (forall t, i :: 0 <= t < |threads| && threads[t].Answered? && 0 <= i < |log| ==> threads[t].at != log[i].at)
    && (forall t :: 0 <= t < |threads| && threads[t].Answered? ==> threads[t].at < n)
    && (forall i :: 0 <= i < |log| ==> log[i].at < n)
  }

  ghost predicate Inv(s: State) {
    && Exclusive(s.idle, s.threads, s.nextConn) && InStep(s) && Faithful(s)
    && UsedOnce(s.threads, s.log, |s.history|) && Slots(s) <= s.size
  }

  lemma {:induction false} InsideUpdate(threads: seq<Thread>, t: nat, th: Thread)
    requires t < |threads|
    ensures Inside(threads[t := th])
         == Inside(threads) - (if threads[t].Outside? then 0 else 1) + (if th.Outside? then 0 else 1)
  {
    if t > 0 {
      InsideUpdate(threads[1..], t - 1, th);
      assert threads[t := th][1..] == threads[1..][t - 1 := th];
    }
  }

  lemma {:induction false} NobodyInside(threads: seq<Thread>)
    requires forall t :: 0 <= t < |threads| ==> threads[t] == Outside
    ensures Inside(threads) == 0
  {
    if threads != [] {
      NobodyInside(threads[1..]);
    }
  }

  lemma InitInv(s: State)
    requires Init(s)
    ensures Inv(s)
  {
    NobodyInside(s.threads);
  }

  /** Idle connections and threads inside their block never increase in number. */
  lemma SlotsNeverIncrease(s: State, step: Step)
    requires Enabled(s, step)
    ensures Slots(Apply(s, step)) <= Slots(s)
    ensures Apply(s, step).size == s.size
  {
    var s' := Apply(s, step);
    if step.ByThread() {
      InsideUpdate(s.threads, step.t, s'.threads[step.t]);
      assert s.threads[step.t := s'.threads[step.t]] == s'.threads;
    }
  }

  // A thread's connection changes hands in four ways.

  lemma Extended(idle: seq<nat>, c: nat)
    requires c !in idle && forall i, j :: 0 <= i < j < |idle| ==> idle[i] != idle[j]
    ensures forall i, j :: 0 <= i < j < |idle + [c]| ==> (idle + [c])[i] != (idle + [c])[j]
    ensures forall d <- idle + [c] :: d in idle || d == c
  {
    forall i, j | 0 <= i < j < |idle + [c]| ensures (idle + [c])[i] != (idle + [c])[j] {
      assert idle[i] in idle;
    }
  }

  lemma TakeKeepsExclusive(idle: seq<nat>, threads: seq<Thread>, n: nat, t: nat)
    requires Exclusive(idle, threads, n) && t < |threads| && !threads[t].HasConn() && idle != []
    ensures Exclusive(idle[1..], threads[t := Holding(idle[0])], n)
  {
    assert idle[0] in idle;
    assert forall i :: 0 <= i < |idle| - 1 ==> idle[1..][i] == idle[i + 1];
    assert forall c <- idle[1..] :: c in idle && c != idle[0];
  }

  lemma PassKeepsExclusive(idle: seq<nat>, threads: seq<Thread>, n: nat, t: nat, th: Thread)
    requires Exclusive(idle, threads, n) && t < |threads|
    requires th.HasConn() ==> threads[t].HasConn() && th.conn == threads[t].conn
    ensures Exclusive(idle, threads[t := th], n)
  {
  }

  lemma PutKeepsExclusive(idle: seq<nat>, threads: seq<Thread>, n: nat, t: nat)
    requires Exclusive(idle, threads, n) && t < |threads| && threads[t].HasConn()
    ensures Exclusive(idle + [threads[t].conn], threads[t := Outside], n)
  {
    Extended(idle, threads[t].conn);
  }

  lemma NewKeepsExclusive(idle: seq<nat>, threads: seq<Thread>, n: nat, t: nat)
    requires Exclusive(idle, threads, n) && t < |threads|
    ensures Exclusive(idle + [n], threads[t := Outside], n + 1)
  {
    Extended(idle, n);
  }

  lemma ExclusiveKept(s: State, step: Step)
    requires Exclusive(s.idle, s.threads, s.nextConn) && Enabled(s, step)
    ensures var s' := Apply(s, step); Exclusive(s'.idle, s'.threads, s'.nextConn)
  {
    match step
    case Acquire(t) => TakeKeepsExclusive(s.idle, s.threads, s.nextConn, t);
    case Release(t) => PutKeepsExclusive(s.idle, s.threads, s.nextConn, t);
    case Replenish(t) =>
      NewKeepsExclusive(s.idle, s.threads, s.nextConn, t);
      PassKeepsExclusive(s.idle, s.threads, s.nextConn, t, Outside);
    case CloseIdle => assert forall c <- s.idle[1..] :: c in s.idle;
    case ServeLate(_, _) =>
    case _ =>
      PassKeepsExclusive(s.idle, s.threads, s.nextConn, step.t, Apply(s, step).threads[step.t]);
  }

  /** Only serving adds to the history; only receiving adds to the log. */
  lemma Recorded(s: State, step: Step)
    requires Enabled(s, step)
    ensures var s' := Apply(s, step);
            && s.history <= s'.history && s.log <= s'.log
            && |s'.history| == |s.history| + (if step.Serve? || step.ServeLate? then 1 else 0)
            && |s'.log| == |s.log| + (if step.Receive? then 1 else 0)
            && (step.Receive? ==>
                  var e, th := s'.log[|s.log|], s.threads[step.t];
                  e.at == th.at && e.since == th.since && e.caller == step.t)
  {
  }

  lemma AnswerKeepsOnce(threads: seq<Thread>, log: seq<Completed>, n: nat, t: nat, th: Thread)
    requires UsedOnce(threads, log, n) && t < |threads| && (th.Answered? ==> th.at == n)
    ensures UsedOnce(threads[t := th], log, n + 1)
    ensures !th.Answered? ==> UsedOnce(threads[t := th], log, n)
  {
  }

  lemma CompletionKeepsOnce(threads: seq<Thread>, log: seq<Completed>, n: nat, t: nat, th: Thread, e: Completed)
    requires UsedOnce(threads, log, n) && t < |threads| && threads[t].Answered?
    requires !th.Answered? && e.at == threads[t].at
    ensures UsedOnce(threads[t := th], log + [e], n)
  {
    assert forall i :: 0 <= i < |log| ==> (log + [e])[i] == log[i];
  }

  lemma UsedOnceKept(s: State, step: Step)
    requires UsedOnce(s.threads, s.log, |s.history|) && Enabled(s, step)
    ensures var s' := Apply(s, step); UsedOnce(s'.threads, s'.log, |s'.history|)
  {
    var s', n := Apply(s, step), |s.history|;
    Recorded(s, step);
    if step.Receive? {
      var e := s'.log[|s.log|];
      assert s'.log == s.log + [e];
      CompletionKeepsOnce(s.threads, s.log, n, step.t, s'.threads[step.t], e);
    } else if step.ByThread() {
      AnswerKeepsOnce(s.threads, s.log, n, step.t, s'.threads[step.t]);
    }
  }

  /** The reply on an answered thread's connection is well formed and read to its expected result. */
  lemma AnsweredReads(s: State, t: nat)
    requires Inv(s) && t < |s.threads| && s.threads[t].Answered?
    ensures var th := s.threads[t];
            th.conn in s.unread && th.since <= th.at < |s.history| && WellFormed(th.op, s.history[th.at].reply)
            && Read(th.op, s.unread[th.conn])
               == Some((Expected(th.op, s.history[th.at].reply), Leftover(th.op, s.history[th.at].reply)))
  {
    var th := s.threads[t];
    assert ThreadInStep(s, th);
    var reply := s.history[th.at].reply;
    ReadInverts(th.op, reply, []);
    assert ReplyFrame(reply) + [] == ReplyFrame(reply);
    assert Leftover(th.op, reply) + [] == Leftover(th.op, reply);
  }

  /** A step touches no connection but its own thread's and a brand-new one. */
  lemma OthersUntouched(s: State, step: Step, c: nat)
    requires Enabled(s, step) && c in s.unread && c < s.nextConn
    requires step.ByThread() && s.threads[step.t].HasConn() ==> s.threads[step.t].conn != c
    ensures c in Apply(s, step).unread && Apply(s, step).unread[c] == s.unread[c]
    ensures s.history <= Apply(s, step).history
  {
  }

  lemma OwnThreadInStep(s: State, step: Step)
    requires Inv(s) && Enabled(s, step) && step.ByThread()
    ensures var s' := Apply(s, step); s'.threads[step.t].HasConn() ==> ThreadInStep(s', s'.threads[step.t])
    ensures step.Release? ==> s.threads[step.t].conn in s.unread && s.unread[s.threads[step.t].conn] == []
  {
    if s.threads[step.t].HasConn() {
      assert ThreadInStep(s, s.threads[step.t]);
    }
    if step.Receive? {
      AnsweredReads(s, step.t);
    }
  }

  lemma IdleInStep(s: State, step: Step, c: nat)
    requires Inv(s) && Enabled(s, step) && c in Apply(s, step).idle
    ensures c in Apply(s, step).unread && Apply(s, step).unread[c] == []
  {
    if c in s.idle {
      OthersUntouched(s, step, c);
    } else if step.Release? {
      OwnThreadInStep(s, step);
    }
  }

  lemma OtherThreadInStep(s: State, step: Step, u: nat)
    requires Inv(s) && Enabled(s, step) && u < |s.threads| && s.threads[u].HasConn()
    requires step.ByThread() ==> u != step.t
    ensures ThreadInStep(Apply(s, step), s.threads[u]) && Apply(s, step).threads[u] == s.threads[u]
  {
    assert ThreadInStep(s, s.threads[u]);
    OthersUntouched(s, step, s.threads[u].conn);
  }

  lemma InStepKept(s: State, step: Step)
    requires Inv(s) && Enabled(s, step)
    ensures InStep(Apply(s, step))
  {
    var s' := Apply(s, step);
    forall c <- s'.idle ensures c in s'.unread && s'.unread[c] == [] {
      IdleInStep(s, step, c);
    }
    forall u | 0 <= u < |s'.threads| && s'.threads[u].HasConn() ensures ThreadInStep(s', s'.threads[u]) {
      if step.ByThread() && step.t == u {
        OwnThreadInStep(s, step);
      } else {
        OtherThreadInStep(s, step, u);
      }
    }
  }

  lemma FaithfulKept(s: State, step: Step)
    requires Inv(s) && Enabled(s, step)
    ensures Faithful(Apply(s, step))
  {
    var s' := Apply(s, step);
    Recorded(s, step);
    assert s.history <= s'.history;
    forall e <- s'.log ensures IsAnswer(s'.history, e) {
      if e in s.log {
        assert IsAnswer(s.history, e);
      } else {
        AnsweredReads(s, step.t);
      }
    }
  }

  /** Every step of every thread keeps the invariant. */
  lemma {:induction false} StepKeepsInv(s: State, s': State)
    requires Inv(s) && Next(s, s')
    ensures Inv(s')
  {
    var step :| Enabled(s, step) && s' == Apply(s, step);
    ExclusiveKept(s, step);
    InStepKept(s, step);
    FaithfulKept(s, step);
    UsedOnceKept(s, step);
    SlotsNeverIncrease(s, step);
  }

  lemma {:induction false} RunKeepsInv(run: seq<State>, i: nat)
    requires IsRun(run) && i < |run|
    ensures Inv(run[i])
  {
    if i == 0 {
      InitInv(run[0]);
    } else {
      RunKeepsInv(run, i - 1);
      assert StepAt(run, i);
      StepKeepsInv(run[i - 1], run[i]);
    }
  }

  // ---------- What holds in every reachable state ----------

  lemma {:induction false} HeldAreInside(threads: seq<Thread>)
    ensures Held(threads) <= Inside(threads)
  {
    if threads != [] {
      HeldAreInside(threads[1..]);
    }
  }

  lemma {:induction false} SomebodyInside(threads: seq<Thread>, t: nat)
    requires t < |threads| && !threads[t].Outside?
    ensures Inside(threads) >= 1
  {
    if t > 0 {
      SomebodyInside(threads[1..], t - 1);
    }
  }

  /** Idle connections are in step, exclusively owned, and never outnumber the pool together with the
      held ones; a releasing thread always finds room in the queue, so its put never waits, and a
      thread whose reply is there is never stuck reading it. */
  lemma {:induction false} PoolIsSafe(run: seq<State>, i: nat)
    requires IsRun(run) && i < |run|
    ensures forall c <- run[i].idle :: c in run[i].unread && run[i].unread[c] == []
    ensures Exclusive(run[i].idle, run[i].threads, run[i].nextConn)
    ensures |run[i].idle| + Held(run[i].threads) <= run[i].size
    ensures forall t :: 0 <= t < |run[i].threads| && run[i].threads[t].Holding? ==> Enabled(run[i], Release(t))
    ensures forall t :: 0 <= t < |run[i].threads| && run[i].threads[t].Answered? ==> Enabled(run[i], Receive(t))
    ensures forall t :: 0 <= t < |run[i].threads| && run[i].threads[t].Replacing? ==> |run[i].idle| < run[i].size
  {
    RunKeepsInv(run, i);
    var s := run[i];
    HeldAreInside(s.threads);
    forall t | 0 <= t < |s.threads| && !s.threads[t].Outside? ensures |s.idle| < s.size {
      SomebodyInside(s.threads, t);
    }
    forall t | 0 <= t < |s.threads| && s.threads[t].Answered? ensures Enabled(s, Receive(t)) {
      AnsweredReads(s, t);
    }
  }

  /** Every completed call returned what the reply to its own request says, whatever the server replies. */
  lemma {:induction false} CallsGetTheirOwnReplies(run: seq<State>, i: nat, e: Completed)
    requires IsRun(run) && i < |run| && e in run[i].log
    ensures IsAnswer(run[i].history, e)
  {
    RunKeepsInv(run, i);
  }

  /** No two completed calls ever use the same answer of the server. */
  lemma {:induction false} AnswersAreUsedOnce(run: seq<State>, i: nat, j: nat, k: nat)
    requires IsRun(run) && i < |run| && j < k < |run[i].log|
    ensures run[i].log[j].at != run[i].log[k].at
  {
    RunKeepsInv(run, i);
  }

  lemma {:induction false} HeldUpdate(threads: seq<Thread>, t: nat, th: Thread)
    requires t < |threads|
    ensures Held(threads[t := th])
         == Held(threads) - (if threads[t].HasConn() then 1 else 0) + (if th.HasConn() then 1 else 0)
  {
    if t > 0 {
      HeldUpdate(threads[1..], t - 1, th);
      assert threads[t := th][1..] == threads[1..][t - 1 := th];
    }
  }

  function Connections(s: State): nat { |s.idle| + Held(s.threads) }

  /** A call that raises, any other exception, or close() takes a connection away. */
  predicate Loses(s: State, step: Step)
    requires Enabled(s, step)
  {
    step.Fail? || step.Abandon? || step.CloseIdle?
    || (step.Receive? && Read(s.threads[step.t].op, s.unread[s.threads[step.t].conn]).value.0.Raised?)
  }

  /** The connections idle or held grow in number exactly when a replacement is put into a queue with
      room for it, fall exactly when one is lost, each time by one, and otherwise stay. */
  lemma {:induction false} OnlyReplacementsAdd(s: State, step: Step)
    requires Enabled(s, step)
    ensures Connections(Apply(s, step)) ==
            Connections(s) + (if step.Replenish? && |s.idle| < s.size then 1 else if Loses(s, step) then -1 else 0)
  {
    if step.ByThread() {
      OneThreadMoves(s, step);
      HeldUpdate(s.threads, step.t, Apply(s, step).threads[step.t]);
    }
  }

  lemma OneThreadMoves(s: State, step: Step)
    requires Enabled(s, step) && step.ByThread()
    ensures Apply(s, step).threads == s.threads[step.t := Apply(s, step).threads[step.t]]
    ensures Apply(s, step).threads[step.t].HasConn() <==>
            if step.Receive? then !Loses(s, step) else step.Acquire? || step.Send? || step.Serve?
  {
  }

  /** Connections are taken from the head of the queue and put at its end: a step removes the head or
      nothing, and adds at the end its own thread's connection, a new one or nothing. */
  lemma {:induction false} QueueIsFifo(s: State, step: Step)
    requires Enabled(s, step)
    ensures var s' := Apply(s, step);
            && (step.Acquire? ==> s'.threads[step.t] == Holding(s.idle[0]) && [s.idle[0]] + s'.idle == s.idle)
            && (step.CloseIdle? ==> [s.idle[0]] + s'.idle == s.idle)
            && (step.Release? ==> s'.idle == s.idle + [s.threads[step.t].conn])
            && (step.Replenish? && |s.idle| < s.size ==>
                  exists c :: s'.idle == s.idle + [c] && s.nextConn <= c < s'.nextConn)
            && (!step.Acquire? && !step.CloseIdle? && !step.Release? && !step.Replenish? ==> s'.idle == s.idle)
  {
    if step.Replenish? && |s.idle| < s.size {
      assert Apply(s, step).idle == s.idle + [s.nextConn];
    }
  }

  /** Threads whose call has an answer it has not read. */
  function Answering(threads: seq<Thread>): nat {
    if threads == [] then 0 else (if threads[0].Answered? then 1 else 0) + Answering(threads[1..])
  }

  lemma {:induction false} AnsweringUpdate(threads: seq<Thread>, t: nat, th: Thread)
    requires t < |threads|
    ensures Answering(threads[t := th])
         == Answering(threads) - (if threads[t].Answered? then 1 else 0) + (if th.Answered? then 1 else 0)
  {
    if t > 0 {
      AnsweringUpdate(threads[1..], t - 1, th);
      assert threads[t := th][1..] == threads[1..][t - 1 := th];
    }
  }

  /** Answers whose callers did not read them. */
  function Wasted(s: State): int { |s.history| - |s.log| - Answering(s.threads) }

  predicate GivesUpAnswer(s: State, step: Step)
    requires Enabled(s, step)
  {
    (step.Fail? || step.Abandon?) && s.threads[step.t].Answered?
  }

  /** Every answer is logged as one completed call, or about to be, except that an answer is wasted when its
      caller gave up, before it came or after. */
  lemma {:induction false} AnswersAreAccounted(s: State, step: Step)
    requires Enabled(s, step)
    ensures Wasted(Apply(s, step)) ==
            Wasted(s) + (if step.ServeLate? || GivesUpAnswer(s, step) then 1 else 0)
  {
    var s' := Apply(s, step);
    Recorded(s, step);
    if step.ByThread() {
      OneThreadMoves(s, step);
      AnsweringUpdate(s.threads, step.t, s'.threads[step.t]);
    }
  }

  // ---------- Runs that lose nothing ----------

  ghost predicate CleanNext(s: State, s': State) {
    exists step :: Enabled(s, step) && s' == Apply(s, step) && !Loses(s, step)
  }

  ghost predicate CleanAt(run: seq<State>, i: nat) {
    0 < i < |run| ==> CleanNext(run[i - 1], run[i])
  }

  /** A run whose blocks are all left normally. */
  ghost predicate IsCleanRun(run: seq<State>) {
    run != [] && Init(run[0]) && forall i: nat :: CleanAt(run, i)
  }

  predicate Present(s: State, c: nat) {
    c in s.idle || exists t :: 0 <= t < |s.threads| && s.threads[t].HasConn() && s.threads[t].conn == c
  }

  predicate NobodyDials(s: State) {
    forall t :: 0 <= t < |s.threads| ==> !s.threads[t].Replacing?
  }

  lemma CleanStep(s: State, step: Step, c: nat)
    requires Enabled(s, step) && !Loses(s, step) && NobodyDials(s) && s.orphans == multiset{}
    ensures NobodyDials(Apply(s, step)) && Connections(Apply(s, step)) == Connections(s)
    ensures Apply(s, step).orphans == multiset{} && Wasted(Apply(s, step)) == Wasted(s)
    ensures Present(s, c) ==> Present(Apply(s, step), c)
  {
    OnlyReplacementsAdd(s, step);
    AnswersAreAccounted(s, step);
    if Present(s, c) {
      CleanStepKeeps(s, step, c);
    }
  }

  lemma CleanStepKeeps(s: State, step: Step, c: nat)
    requires Enabled(s, step) && !Loses(s, step) && NobodyDials(s) && Present(s, c)
    ensures Present(Apply(s, step), c)
  {
    var s' := Apply(s, step);
    if c in s.idle {
      if step.Acquire? && c == s.idle[0] {
        assert s'.threads[step.t].conn == c;
      } else {
        assert c in s'.idle;
      }
    } else {
      var t :| 0 <= t < |s.threads| && s.threads[t].HasConn() && s.threads[t].conn == c;
      if step.Release? && step.t == t {
        assert s'.idle[|s.idle|] == c;
      } else {
        assert s'.threads[t].HasConn() && s'.threads[t].conn == c;
      }
    }
  }

  lemma {:induction false} NobodyHolds(threads: seq<Thread>)
    requires forall t :: 0 <= t < |threads| ==> threads[t] == Outside
    ensures Held(threads) == Answering(threads) == 0
  {
    if threads != [] {
      NobodyHolds(threads[1..]);
    }
  }

  lemma {:induction false} CleanRunKeeps(run: seq<State>, i: nat, c: nat)
    requires IsCleanRun(run) && i < |run|
    ensures NobodyDials(run[i]) && Connections(run[i]) == run[i].size == run[0].size
    ensures c in run[0].idle ==> Present(run[i], c)
    ensures run[i].orphans == multiset{} && Wasted(run[i]) == 0
  {
    if i == 0 {
      NobodyHolds(run[0].threads);
    } else {
      CleanRunKeeps(run, i - 1, c);
      assert CleanAt(run, i);
      var step :| Enabled(run[i - 1], step) && run[i] == Apply(run[i - 1], step) && !Loses(run[i - 1], step);
      CleanStep(run[i - 1], step, c);
      SlotsNeverIncrease(run[i - 1], step);
    }
  }

  /** As long as every block is left normally, every connection of the pool is idle or held, none is lost
      and none added; so a thread finds one to acquire whenever fewer than pool_size are held. And every
      answer of the server is the result of one completed call, or still to be read by its caller. */
  lemma {:induction false} CleanExitsLoseNothing(run: seq<State>, i: nat)
    requires IsCleanRun(run) && i < |run|
    ensures |run[i].idle| + Held(run[i].threads) == run[0].size
    ensures forall c <- run[0].idle :: Present(run[i], c)
    ensures |run[i].history| == |run[i].log| + Answering(run[i].threads)
    ensures Held(run[i].threads) < run[0].size ==>
              forall t :: 0 <= t < |run[i].threads| && run[i].threads[t].Outside? ==> Enabled(run[i], Acquire(t))
  {
    CleanRunKeeps(run, i, 0);
    forall c <- run[0].idle ensures Present(run[i], c) {
      CleanRunKeeps(run, i, c);
    }
  }

  // ---------- Real time ----------

  predicate InCall(th: Thread) { th.Waiting? || th.Answered? }

  /** Thread t's call in progress, and its calls completed after the first n in the log, were sent when
      the server had given at least h answers. */
  ghost predicate SentSince(s: State, t: nat, n: nat, h: nat) {
    && t < |s.threads| && n <= |s.log| && h <= |s.history|
    && (InCall(s.threads[t]) ==> s.threads[t].since >= h)
    && (forall m :: n <= m < |s.log| && s.log[m].caller == t ==> s.log[m].since >= h)
  }

  lemma SentSinceStep(s: State, step: Step, t: nat, n: nat, h: nat)
    requires Enabled(s, step) && SentSince(s, t, n, h)
    ensures SentSince(Apply(s, step), t, n, h)
  {
    Recorded(s, step);
  }

  lemma SentSinceKept(s: State, s': State, t: nat, n: nat, h: nat)
    requires Next(s, s') && SentSince(s, t, n, h)
    ensures SentSince(s', t, n, h)
  {
    var step :| Enabled(s, step) && s' == Apply(s, step);
    SentSinceStep(s, step, t, n, h);
  }

  lemma {:induction false} SentSinceLater(run: seq<State>, j: nat, k: nat, t: nat, n: nat, h: nat)
    requires IsRun(run) && j <= k < |run| && SentSince(run[j], t, n, h)
    ensures SentSince(run[k], t, n, h)
  {
    if j < k {
      SentSinceLater(run, j, k - 1, t, n, h);
      assert StepAt(run, k);
      SentSinceKept(run[k - 1], run[k], t, n, h);
    }
  }

  /** The order of the server's answers respects real time: a call that thread t sends after some state,
      still in progress or completed, has its answer after those of all calls completed by that state. */
  lemma {:induction false} OrderRespectsRealTime(run: seq<State>, j: nat, k: nat, t: nat, earlier: Completed)
    requires IsRun(run) && j <= k < |run| && earlier in run[j].log
    requires t < |run[j].threads| && !InCall(run[j].threads[t])
    ensures t < |run[k].threads|
    ensures run[k].threads[t].Answered? ==> earlier.at < run[k].threads[t].at
    ensures forall m :: |run[j].log| <= m < |run[k].log| && run[k].log[m].caller == t ==>
              earlier.at < run[k].log[m].at
  {
    RunKeepsInv(run, j);
    RunKeepsInv(run, k);
    SentSinceLater(run, j, k, t, |run[j].log|, |run[j].history|);
    assert IsAnswer(run[j].history, earlier);
    var s := run[k];
    if s.threads[t].Answered? {
      assert ThreadInStep(s, s.threads[t]);
    }
    forall m | |run[j].log| <= m < |s.log| && s.log[m].caller == t ensures earlier.at < s.log[m].at {
      assert IsAnswer(s.history, s.log[m]);
    }
  }
}
