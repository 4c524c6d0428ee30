/** SizedQueue (mrbgems/thread/src/sized_queue.c) as a protocol of threads between locked sections. */
module SizedQueue {
  import opened Options

  // Threads push to and pop from a bounded queue. A call looks at the length in one locked section,
  // possibly waits, changes the queue in a second one, and signals afterwards; other threads may
  // move between any two of these steps.

  // ---- The context, and what the locked sections do to it ----

  datatype Context<V> = Context(queue: seq<V>, readsWaiting: int, writesWaiting: int, sizeLimit: nat)

  function Entered<V>(c: Context<V>, writing: bool): Context<V> {
    if writing then c.(writesWaiting := c.writesWaiting + 1) else c.(readsWaiting := c.readsWaiting + 1)
  }

  // push and unshift
  function Written<V>(c: Context<V>, front: bool, value: V): Context<V> {
    c.(writesWaiting := c.writesWaiting - 1, queue := if front then [value] + c.queue else c.queue + [value])
  }

  // What pop and shift take: nothing from an empty queue.
  function Taken<V>(queue: seq<V>, front: bool): Option<V> {
    if queue == [] then None else Some(if front then queue[0] else queue[|queue| - 1])
  }

  function Read<V>(c: Context<V>, front: bool): Context<V> {
    c.(readsWaiting := c.readsWaiting - 1,
       queue := if c.queue == [] then [] else if front then c.queue[1..] else c.queue[..|c.queue| - 1])
  }

  function Cleared<V>(c: Context<V>): Context<V> {
    c.(queue := [])
  }

  // The locked sections as they run on the shared fields.
  class SharedContext<V> {
    var queue: seq<V>
    var readsWaiting: int
    var writesWaiting: int
    const sizeLimit: nat

    ghost function Now(): Context<V>
      reads this
    {
      Context(queue, readsWaiting, writesWaiting, sizeLimit)
    }

    constructor (limit: nat)
      requires limit > 0
      ensures Now() == Context([], 0, 0, limit)
    {
      queue, readsWaiting, writesWaiting, sizeLimit := [], 0, 0, limit;
    }

    method EnterWrite() returns (len: nat)
      modifies this
      ensures Now() == Entered(old(Now()), true) && len == |old(queue)|
    {
      len := |queue|;
      writesWaiting := writesWaiting + 1;
    }

    method EnterRead() returns (len: nat)
      modifies this
      ensures Now() == Entered(old(Now()), false) && len == |old(queue)|
    {
      len := |queue|;
      readsWaiting := readsWaiting + 1;
    }

    method CommitPush(value: V)
      modifies this
      ensures Now() == Written(old(Now()), false, value)
    {
      writesWaiting := writesWaiting - 1;
      queue := queue + [value];
    }

    method CommitUnshift(value: V)
      modifies this
      ensures Now() == Written(old(Now()), true, value)
    {
      writesWaiting := writesWaiting - 1;
      queue := [value] + queue;
    }

    method CommitPop() returns (r: Option<V>)
      modifies this
      ensures Now() == Read(old(Now()), false) && r == Taken(old(queue), false)
    {
      readsWaiting := readsWaiting - 1;
      if queue == [] {
        return None;
      }
      r := Some(queue[|queue| - 1]);
      queue := queue[..|queue| - 1];
    }

    method CommitShift() returns (r: Option<V>)
      modifies this
      ensures Now() == Read(old(Now()), true) && r == Taken(old(queue), true)
    {
      readsWaiting := readsWaiting - 1;
      if queue == [] {
        return None;
      }
      r := Some(queue[0]);
      queue := queue[1..];
    }

    method Clear()
      modifies this
      ensures Now() == Cleared(old(Now()))
    {
      queue := [];
    }
  }

  /** mrb_sized_queue_init: a limit that is not positive is refused. */
  method Init<V>(limit: int) returns (c: SharedContext?<V>)
    ensures c == null <==> limit <= 0
    ensures c != null ==> fresh(c) && c.Now() == Context([], 0, 0, limit)
  {
    if limit <= 0 {
      return null;
    }
    c := new SharedContext<V>(limit);
  }

  // ---- Threads ----

  // Where a thread stands. A write to or read from the front is unshift or shift, otherwise push
  // or pop. The length is what the thread saw when it entered; it may be stale by now.
  datatype Thread<V> =
    | Idle
    | WriteEntered(front: bool, value: V, nonblock: bool, len: nat)
    | WriteWaiting(front: bool, value: V)
    | WriteReady(front: bool, value: V)
    | MustSignalRead
    | ReadEntered(front: bool, nonblock: bool, len: nat)
    | ReadWaiting(front: bool)
    | ReadReady(front: bool)
    | MustSignalWrite(result: Option<V>)

  // The queue, its threads, and what has happened so far: the values in the order in which they
  // were added, taken and cleared away, and the calls that raised.
  datatype State<V> = State(
    context: Context<V>,
    threads: seq<Thread<V>>,
    added: seq<V>,
    taken: seq<V>,
    cleared: seq<V>,
    raisedWrites: nat,
    raisedReads: nat
  )

  datatype Action<V> =
    | EnterWrite(t: nat, front: bool, value: V, nonblock: bool)
    | DecideWrite(t: nat)
    | CommitWrite(t: nat)
    | SignalRead(t: nat, woken: Option<nat>)
    | EnterRead(t: nat, front: bool, nonblock: bool)
    | DecideRead(t: nat)
    | CommitRead(t: nat)
    | SignalWrite(t: nat, woken: Option<nat>)
    | Clear(t: nat)

  predicate WaitsFor<V>(th: Thread<V>, writing: bool) {
    if writing then th.WriteWaiting? else th.ReadWaiting?
  }

  // A signal wakes one of the threads that wait for it, whichever it likes, or is lost if there is none.
  predicate Wakes<V>(threads: seq<Thread<V>>, woken: Option<nat>, writing: bool) {
    match woken
    case None => forall t | 0 <= t < |threads| :: !WaitsFor(threads[t], writing)
    case Some(t) => t < |threads| && WaitsFor(threads[t], writing)
  }

  predicate Enabled<V>(s: State<V>, a: Action<V>) {
    && a.t < |s.threads|
    && var me := s.threads[a.t];
       match a
       case EnterWrite(_, _, _, _) => me.Idle?
       case DecideWrite(_) => me.WriteEntered?
       case CommitWrite(_) => me.WriteReady?
       case SignalRead(_, woken) => me.MustSignalRead? && Wakes(s.threads, woken, false)
       case EnterRead(_, _, _) => me.Idle?
       case DecideRead(_) => me.ReadEntered?
       case CommitRead(_) => me.ReadReady?
       case SignalWrite(_, woken) => me.MustSignalWrite? && Wakes(s.threads, woken, true)
       case Clear(_) => me.Idle?
  }

  function Moved<V>(s: State<V>, t: nat, to: Thread<V>): State<V>
    requires t < |s.threads|
  {
    s.(threads := s.threads[t := to])
  }

  // if(len >= size_limit): raise or wait, otherwise go on.
  function AfterDecideWrite<V>(s: State<V>, t: nat): State<V>
    requires t < |s.threads| && s.threads[t].WriteEntered?
  {
    var me := s.threads[t];
    if me.len < s.context.sizeLimit then Moved(s, t, WriteReady(me.front, me.value))
    else if me.nonblock then Moved(s.(raisedWrites := s.raisedWrites + 1), t, Idle)
    else Moved(s, t, WriteWaiting(me.front, me.value))
  }

  function AfterDecideRead<V>(s: State<V>, t: nat): State<V>
    requires t < |s.threads| && s.threads[t].ReadEntered?
  {
    var me := s.threads[t];
    if me.len != 0 then Moved(s, t, ReadReady(me.front))
    else if me.nonblock then Moved(s.(raisedReads := s.raisedReads + 1), t, Idle)
    else Moved(s, t, ReadWaiting(me.front))
  }

  function AfterCommitWrite<V>(s: State<V>, t: nat): State<V>
    requires t < |s.threads| && s.threads[t].WriteReady?
  {
    var me := s.threads[t];
    Moved(s.(context := Written(s.context, me.front, me.value), added := s.added + [me.value]), t, MustSignalRead)
  }

  function AfterCommitRead<V>(s: State<V>, t: nat): State<V>
    requires t < |s.threads| && s.threads[t].ReadReady?
  {
    var me := s.threads[t];
    var r := Taken(s.context.queue, me.front);
    Moved(s.(context := Read(s.context, me.front), taken := s.taken + if r.Some? then [r.value] else []),
          t, MustSignalWrite(r))
  }

  function Do<V>(s: State<V>, a: Action<V>): State<V>
    requires Enabled(s, a)
  {
    match a
    case EnterWrite(t, front, value, nonblock) =>
      Moved(s.(context := Entered(s.context, true)), t, WriteEntered(front, value, nonblock, |s.context.queue|))
    case DecideWrite(t) => AfterDecideWrite(s, t)
    case CommitWrite(t) => AfterCommitWrite(s, t)
    case SignalRead(t, woken) =>
      var sent := Moved(s, t, Idle);
      if woken.None? then sent else Moved(sent, woken.value, ReadReady(s.threads[woken.value].front))
    case EnterRead(t, front, nonblock) =>
      Moved(s.(context := Entered(s.context, false)), t, ReadEntered(front, nonblock, |s.context.queue|))
    case DecideRead(t) => AfterDecideRead(s, t)
    case CommitRead(t) => AfterCommitRead(s, t)
    case SignalWrite(t, woken) =>
      var sent := Moved(s, t, Idle);
      if woken.None? then sent
      else
        var w := s.threads[woken.value];
        Moved(sent, woken.value, WriteReady(w.front, w.value))
    case Clear(t) =>
      s.(context := Cleared(s.context), cleared := s.cleared + s.context.queue)
  }

  function Start<V>(limit: nat, n: nat): State<V> {
    State(Context([], 0, 0, limit), seq(n, _ => Idle), [], [], [], 0, 0)
  }

  // The actions can be done one after the other from s, and lead to r.
  ghost predicate Leads<V>(s: State<V>, actions: seq<Action<V>>, r: State<V>)
    decreases |actions|
  {
    if actions == [] then s == r
    else Enabled(s, actions[0]) && Leads(Do(s, actions[0]), actions[1..], r)
  }

  // ---- Counting threads ----

  ghost function Count<V>(threads: seq<Thread<V>>, p: Thread<V> -> bool): (n: nat)
    ensures n <= |threads|
  {
    if threads == [] then 0 else (if p(threads[0]) then 1 else 0) + Count(threads[1..], p)
  }

  lemma {:induction false} CountMoved<V>(threads: seq<Thread<V>>, p: Thread<V> -> bool, t: nat, to: Thread<V>)
    requires t < |threads|
    ensures Count(threads[t := to], p) ==
            Count(threads, p) - (if p(threads[t]) then 1 else 0) + (if p(to) then 1 else 0)
    ensures !p(threads[t]) ==> Count(threads, p) < |threads|
  {
    var moved := threads[t := to];
    if t == 0 {
      assert moved[1..] == threads[1..];
    } else {
      CountMoved(threads[1..], p, t - 1, to);
      assert moved[1..] == threads[1..][t - 1 := to];
    }
  }

  // A writer that will add a value without looking again, or a reader that still has to let one in.
  ghost function HoldsRoom<V>(limit: nat): Thread<V> -> bool {
    (th: Thread<V>) => (th.WriteEntered? && th.len < limit) || th.WriteReady? || th.MustSignalWrite?
  }

  // A reader that will take a value without looking again, or a writer that still has to let one in.
  ghost function ClaimsValue<V>(): Thread<V> -> bool {
    (th: Thread<V>) => (th.ReadEntered? && th.len > 0) || th.ReadReady? || th.MustSignalRead?
  }

  ghost function InWrite<V>(): Thread<V> -> bool {
    (th: Thread<V>) => th.WriteEntered? || th.WriteWaiting? || th.WriteReady?
  }

  ghost function InRead<V>(): Thread<V> -> bool {
    (th: Thread<V>) => th.ReadEntered? || th.ReadWaiting? || th.ReadReady?
  }

  // ---- What every step keeps ----

  /** The length, the admitted writers and the unsent write signals together stay within
      limit - 1 + N; the admitted readers and unsent read signals within length - 1 + N. */
  ghost predicate Bounded<V>(s: State<V>) {
    var n := |s.threads|;
    && s.context.sizeLimit > 0
    && |s.context.queue| + Count(s.threads, HoldsRoom(s.context.sizeLimit)) <= s.context.sizeLimit - 1 + n
    && Count(s.threads, ClaimsValue()) <= |s.context.queue| + n - 1
  }

  /** The counters behind num_waiting count the calls between their two locked sections, and every
      call that ever raised. */
  ghost predicate Counted<V>(s: State<V>) {
    && s.context.writesWaiting == Count(s.threads, InWrite()) + s.raisedWrites
    && s.context.readsWaiting == Count(s.threads, InRead()) + s.raisedReads
  }

  /** No value is lost, duplicated or made up. */
  ghost predicate Conserved<V>(s: State<V>) {
    multiset(s.added) == multiset(s.context.queue) + multiset(s.taken) + multiset(s.cleared)
  }

  // How a step changes the number of threads of some kind: its own thread moves, and a signal may
  // move one more.
  ghost function Target<V>(s: State<V>, a: Action<V>): Thread<V>
    requires Enabled(s, a)
  {
    Do(s, a).threads[a.t]
  }

  ghost function Woken<V>(a: Action<V>): Option<nat> {
    if a.SignalRead? || a.SignalWrite? then a.woken else None
  }

  ghost function One(b: bool): int {
    if b then 1 else 0
  }

  lemma StepCounts<V>(s: State<V>, a: Action<V>, p: Thread<V> -> bool)
    requires Enabled(s, a)
    ensures var s', w := Do(s, a), Woken(a);
            && |s'.threads| == |s.threads|
            && (w.Some? ==> w.value != a.t && w.value < |s.threads|)
            && Count(s'.threads, p) == Count(s.threads, p) - One(p(s.threads[a.t])) + One(p(Target(s, a)))
               + if w.Some? then One(p(s'.threads[w.value])) - One(p(s.threads[w.value])) else 0
    ensures !p(s.threads[a.t]) ==> Count(s.threads, p) < |s.threads|
  {
    hide Count;
    var s', w := Do(s, a), Woken(a);
    var moved := s.threads[a.t := Target(s, a)];
    CountMoved(s.threads, p, a.t, Target(s, a));
    if w.Some? {
      CountMoved(moved, p, w.value, s'.threads[w.value]);
      assert s'.threads == moved[w.value := s'.threads[w.value]];
    } else {
      assert s'.threads == moved;
    }
  }

  lemma {:induction false} StepKeepsBounded<V>(s: State<V>, a: Action<V>)
    requires Enabled(s, a) && Bounded(s)
    ensures Bounded(Do(s, a))
  {
    hide Count;
    StepCounts(s, a, HoldsRoom(s.context.sizeLimit));
    StepCounts(s, a, ClaimsValue());
  }

  lemma {:induction false} StepKeepsCounted<V>(s: State<V>, a: Action<V>)
    requires Enabled(s, a) && Counted(s)
    ensures Counted(Do(s, a))
  {
    hide Count;
    StepCounts(s, a, InWrite());
    StepCounts(s, a, InRead());
  }

  lemma TakenAway<V>(queue: seq<V>, front: bool)
    requires queue != []
    ensures var rest := if front then queue[1..] else queue[..|queue| - 1];
            multiset(queue) == multiset(rest) + multiset([Taken(queue, front).value])
  {
    assert queue == [queue[0]] + queue[1..];
    assert queue == queue[..|queue| - 1] + [queue[|queue| - 1]];
  }

  lemma WriteConserves<V>(s: State<V>, t: nat)
    requires t < |s.threads| && s.threads[t].WriteReady? && Conserved(s)
    ensures Conserved(AfterCommitWrite(s, t))
  {
    var me, queue := s.threads[t], s.context.queue;
    assert multiset([me.value] + queue) == multiset([me.value]) + multiset(queue);
    assert multiset(queue + [me.value]) == multiset([me.value]) + multiset(queue);
    assert multiset(s.added + [me.value]) == multiset([me.value]) + multiset(s.added);
  }

  lemma ReadConserves<V>(s: State<V>, t: nat)
    requires t < |s.threads| && s.threads[t].ReadReady? && Conserved(s)
    ensures Conserved(AfterCommitRead(s, t))
  {
    var queue, front := s.context.queue, s.threads[t].front;
    if queue != [] {
      TakenAway(queue, front);
      var v := Taken(queue, front).value;
      assert multiset(s.taken + [v]) == multiset(s.taken) + multiset([v]);
    } else {
      assert s.taken + [] == s.taken;
    }
  }

  lemma ClearConserves<V>(s: State<V>, t: nat)
    requires Enabled(s, Clear(t)) && Conserved(s)
    ensures Conserved(Do(s, Clear(t)))
  {
    assert multiset(s.cleared + s.context.queue) == multiset(s.cleared) + multiset(s.context.queue);
  }

  lemma {:induction false} StepKeepsConserved<V>(s: State<V>, a: Action<V>)
    requires Enabled(s, a) && Conserved(s)
    ensures Conserved(Do(s, a))
  {
    hide AfterCommitWrite, AfterCommitRead;
    match a
    case CommitWrite(t) => WriteConserves(s, t);
    case CommitRead(t) => ReadConserves(s, t);
    case Clear(t) => ClearConserves(s, t);
    case _ =>
  }

  // ---- Over all runs ----

  ghost predicate Sound<V>(s: State<V>) {
    Bounded(s) && Counted(s) && Conserved(s)
  }

  lemma {:induction false} NoneCounts<V>(threads: seq<Thread<V>>, p: Thread<V> -> bool)
    requires forall t | 0 <= t < |threads| :: !p(threads[t])
    ensures Count(threads, p) == 0
  {
    if threads != [] {
      NoneCounts(threads[1..], p);
    }
  }

  lemma CountNone<V>(n: nat, p: Thread<V> -> bool)
    requires !p(Idle)
    ensures Count(seq(n, _ => Idle), p) == 0
  {
    NoneCounts(seq(n, _ => Thread<V>.Idle), p);
  }

  lemma StartIsSound<V>(limit: nat, n: nat)
    requires limit > 0 && n > 0
    ensures Sound(Start<V>(limit, n))
  {
    CountNone<V>(n, HoldsRoom(limit));
    CountNone<V>(n, ClaimsValue());
    CountNone<V>(n, InWrite());
    CountNone<V>(n, InRead());
  }

  lemma {:induction false} RunKeepsSound<V>(s: State<V>, actions: seq<Action<V>>, r: State<V>)
    requires Leads(s, actions, r) && Sound(s)
    ensures Sound(r) && |r.threads| == |s.threads| && r.context.sizeLimit == s.context.sizeLimit
    decreases |actions|
  {
    if actions != [] {
      StepKeepsBounded(s, actions[0]);
      StepKeepsCounted(s, actions[0]);
      StepKeepsConserved(s, actions[0]);
      StepKeepsShape(s, actions[0]);
      RunKeepsSound(Do(s, actions[0]), actions[1..], r);
    }
  }

  lemma StepKeepsShape<V>(s: State<V>, a: Action<V>)
    requires Enabled(s, a)
    ensures var s' := Do(s, a);
            |s'.threads| == |s.threads| && s'.context.sizeLimit == s.context.sizeLimit
  {
  }

  // Some run of n threads on a queue of the given limit ends in r.
  ghost predicate Reachable<V(!new)>(limit: nat, n: nat, r: State<V>) {
    exists actions :: Leads(Start(limit, n), actions, r)
  }

  /** Whatever N threads do, in whatever order, the queue never holds more than limit + N - 1
      values; nothing is lost; and num_waiting counts the calls in progress plus the raised ones. */
  lemma {:induction false} EveryRunIsBounded<V(!new)>(limit: nat, n: nat, r: State<V>)
    requires limit > 0 && n > 0 && Reachable(limit, n, r)
    ensures |r.context.queue| <= limit + n - 1
    ensures multiset(r.added) == multiset(r.context.queue) + multiset(r.taken) + multiset(r.cleared)
    ensures r.context.readsWaiting + r.context.writesWaiting ==
            Count(r.threads, InRead()) + Count(r.threads, InWrite()) + r.raisedReads + r.raisedWrites
  {
    StartIsSound<V>(limit, n);
    var actions :| Leads(Start(limit, n), actions, r);
    RunKeepsSound(Start(limit, n), actions, r);
  }

  // ---- Who raises and who waits ----

  // A call that was entered with the given flag and has not yet looked at the length it saw.
  ghost function Undecided<V>(writing: bool, nonblock: bool): Thread<V> -> bool {
    (th: Thread<V>) =>
      if writing then th.WriteEntered? && th.nonblock == nonblock else th.ReadEntered? && th.nonblock == nonblock
  }

  ghost function Waiting<V>(writing: bool): Thread<V> -> bool {
    (th: Thread<V>) => WaitsFor(th, writing)
  }

  ghost predicate Enters<V>(a: Action<V>, writing: bool, nonblock: bool) {
    if writing then a.EnterWrite? && a.nonblock == nonblock else a.EnterRead? && a.nonblock == nonblock
  }

  // How many calls were made with the given flag.
  ghost function Calls<V>(actions: seq<Action<V>>, writing: bool, nonblock: bool): nat {
    if actions == [] then 0
    else (if Enters(actions[0], writing, nonblock) then 1 else 0) + Calls(actions[1..], writing, nonblock)
  }

  function Raised<V>(s: State<V>, writing: bool): nat {
    if writing then s.raisedWrites else s.raisedReads
  }

  // Calls that raised, or may still raise; and calls that wait, or may still have to.
  ghost function MayRaise<V>(s: State<V>, writing: bool): nat {
    Raised(s, writing) + Count(s.threads, Undecided(writing, true))
  }

  ghost function MayWait<V>(s: State<V>, writing: bool): nat {
    Count(s.threads, Waiting(writing)) + Count(s.threads, Undecided(writing, false))
  }

  lemma StepRaises<V>(s: State<V>, a: Action<V>, writing: bool)
    requires Enabled(s, a)
    ensures MayRaise(Do(s, a), writing) <= MayRaise(s, writing) + if Enters(a, writing, true) then 1 else 0
  {
    hide Count;
    StepCounts(s, a, Undecided(writing, true));
  }

  lemma StepWaits<V>(s: State<V>, a: Action<V>, writing: bool)
    requires Enabled(s, a)
    ensures MayWait(Do(s, a), writing) <= MayWait(s, writing) + if Enters(a, writing, false) then 1 else 0
  {
    hide Count;
    StepCounts(s, a, Undecided(writing, false));
    StepCounts(s, a, Waiting(writing));
  }

  lemma {:induction false} RunRaisesOrWaits<V>(s: State<V>, actions: seq<Action<V>>, r: State<V>, writing: bool)
    requires Leads(s, actions, r)
    ensures MayRaise(r, writing) <= MayRaise(s, writing) + Calls(actions, writing, true)
    ensures MayWait(r, writing) <= MayWait(s, writing) + Calls(actions, writing, false)
    decreases |actions|
  {
    hide MayRaise, MayWait;
    if actions != [] {
      StepRaises(s, actions[0], writing);
      StepWaits(s, actions[0], writing);
      RunRaisesOrWaits(Do(s, actions[0]), actions[1..], r, writing);
    }
  }

  /** In every run no more calls raise than asked not to block, and no more wait than did not ask. */
  lemma {:induction false} NonblockRaisesOthersWait<V>(limit: nat, n: nat, actions: seq<Action<V>>, r: State<V>,
                                                     writing: bool)
    requires Leads(Start(limit, n), actions, r)
    ensures Raised(r, writing) <= Calls(actions, writing, true)
    ensures Count(r.threads, Waiting(writing)) <= Calls(actions, writing, false)
  {
    CountNone<V>(n, Undecided(writing, true));
    CountNone<V>(n, Undecided(writing, false));
    CountNone<V>(n, Waiting(writing));
    RunRaisesOrWaits(Start(limit, n), actions, r, writing);
  }

  lemma {:induction false} NoCalls<V>(actions: seq<Action<V>>, writing: bool, nonblock: bool)
    requires forall i | 0 <= i < |actions| :: !Enters(actions[i], writing, nonblock)
    ensures Calls(actions, writing, nonblock) == 0
  {
    if actions != [] {
      NoCalls(actions[1..], writing, nonblock);
    }
  }

  /** If every write, or every read, asks not to block, none ever waits; if none asks, none raises. */
  lemma {:induction false} FlagDecides<V>(limit: nat, n: nat, actions: seq<Action<V>>, r: State<V>, writing: bool)
    requires Leads(Start(limit, n), actions, r)
    ensures (forall i | 0 <= i < |actions| :: !Enters(actions[i], writing, false)) ==>
              forall t | 0 <= t < |r.threads| ::
                if writing then !r.threads[t].WriteWaiting? else !r.threads[t].ReadWaiting?
    ensures (forall i | 0 <= i < |actions| :: !Enters(actions[i], writing, true)) ==> Raised(r, writing) == 0
  {
    NonblockRaisesOthersWait(limit, n, actions, r, writing);
    if forall i | 0 <= i < |actions| :: !Enters(actions[i], writing, false) {
      NoCalls(actions, writing, false);
      forall t | 0 <= t < |r.threads|
        ensures if writing then !r.threads[t].WriteWaiting? else !r.threads[t].ReadWaiting?
      {
        if Waiting(writing)(r.threads[t]) {
          OneCounts(r.threads, Waiting(writing), t);
        }
      }
    }
    if forall i | 0 <= i < |actions| :: !Enters(actions[i], writing, true) {
      NoCalls(actions, writing, true);
    }
  }

  // A read gives back the value that it takes out of the queue, or nothing.
  ghost predicate Returns<V>(th: Thread<V>, taken: seq<V>, before: seq<V>) {
    th.MustSignalWrite? && taken == before + if th.result.Some? then [th.result.value] else []
  }

  /** What a pop or shift returns is what left the queue; it comes away with nothing only if there
      was nothing. A call that saw a free place or a value goes on without waiting, and clear leaves
      nothing in the queue and the calls in progress alone. */
  lemma {:induction false} CallsReturn<V>(s: State<V>, a: Action<V>)
    requires Enabled(s, a)
    ensures a.CommitRead? ==>
              && Returns(Do(s, a).threads[a.t], Do(s, a).taken, s.taken)
              && (Do(s, a).threads[a.t].result.None? <==> s.context.queue == [])
    ensures a.DecideWrite? && s.threads[a.t].len < s.context.sizeLimit ==> Do(s, a).threads[a.t].WriteReady?
    ensures a.DecideRead? && s.threads[a.t].len > 0 ==> Do(s, a).threads[a.t].ReadReady?
    ensures a.Clear? ==> Do(s, a).context.queue == [] && Do(s, a).threads == s.threads
  {
  }

  // ---- Every value that is added was passed to a call ----

  // How many calls were made with value v.
  ghost function Passed<V>(actions: seq<Action<V>>, v: V): nat {
    if actions == [] then 0
    else (if actions[0].EnterWrite? && actions[0].value == v then 1 else 0) + Passed(actions[1..], v)
  }

  // The writes in progress with value v.
  ghost function Holds<V(!new)>(v: V): Thread<V> -> bool {
    (th: Thread<V>) => (th.WriteEntered? || th.WriteWaiting? || th.WriteReady?) && th.value == v
  }

  ghost function AddedOrHeld<V(!new)>(s: State<V>, v: V): nat {
    multiset(s.added)[v] + Count(s.threads, Holds(v))
  }

  lemma StepAdds<V(!new)>(s: State<V>, a: Action<V>, v: V)
    requires Enabled(s, a)
    ensures multiset(Do(s, a).added)[v] ==
            multiset(s.added)[v] + if a.CommitWrite? && s.threads[a.t].value == v then 1 else 0
  {
    if a.CommitWrite? {
      var added := s.threads[a.t].value;
      assert multiset(s.added + [added]) == multiset(s.added) + multiset([added]);
    }
  }

  // A step that commits lets go of the value, and one that enters takes it up; a woken call holds what
  // it held.
  lemma StepHolds<V(!new)>(s: State<V>, a: Action<V>, v: V)
    requires Enabled(s, a)
    ensures var me, w := s.threads[a.t], Woken(a);
            && One(Holds(v)(Target(s, a))) + One(a.CommitWrite? && me.value == v) <=
               One(Holds(v)(me)) + One(a.EnterWrite? && a.value == v)
            && (w.Some? ==> w.value < |s.threads| && w.value < |Do(s, a).threads|
                            && Holds(v)(Do(s, a).threads[w.value]) == Holds(v)(s.threads[w.value]))
  {
  }

  lemma StepAddsWhatIsHeld<V(!new)>(s: State<V>, a: Action<V>, v: V)
    requires Enabled(s, a)
    ensures AddedOrHeld(Do(s, a), v) <= AddedOrHeld(s, v) + if a.EnterWrite? && a.value == v then 1 else 0
  {
    StepAdds(s, a, v);
    StepHolds(s, a, v);
    StepCounts(s, a, Holds(v));
    hide Count, Do, Target, Holds, Enabled;
  }

  lemma {:induction false} RunAddsWhatIsPassed<V(!new)>(s: State<V>, actions: seq<Action<V>>, r: State<V>, v: V)
    requires Leads(s, actions, r)
    ensures AddedOrHeld(r, v) <= AddedOrHeld(s, v) + Passed(actions, v)
    decreases |actions|
  {
    hide AddedOrHeld;
    if actions != [] {
      StepAddsWhatIsHeld(s, actions[0], v);
      RunAddsWhatIsPassed(Do(s, actions[0]), actions[1..], r, v);
    }
  }

  /** In every run each value added so far, and each of the writes in progress, was passed to a call of
      its own. */
  lemma {:induction false} AddedWerePassed<V(!new)>(limit: nat, n: nat, actions: seq<Action<V>>, r: State<V>, v: V)
    requires Leads(Start(limit, n), actions, r)
    ensures multiset(r.added)[v] + Count(r.threads, Holds(v)) <= Passed(actions, v)
  {
    CountNone<V>(n, Holds(v));
    RunAddsWhatIsPassed(Start(limit, n), actions, r, v);
  }

  // ---- Signals ----

  ghost function MustSignal<V>(writing: bool): Thread<V> -> bool {
    (th: Thread<V>) => if writing then th.MustSignalRead? else th.MustSignalWrite?
  }

  // How many writes, or reads, have changed the queue; and how many signals they have sent.
  ghost function Commits<V>(actions: seq<Action<V>>, writing: bool): nat {
    if actions == [] then 0
    else (if (if writing then actions[0].CommitWrite? else actions[0].CommitRead?) then 1 else 0)
         + Commits(actions[1..], writing)
  }

  ghost function Signals<V>(actions: seq<Action<V>>, writing: bool): nat {
    if actions == [] then 0
    else (if (if writing then actions[0].SignalRead? else actions[0].SignalWrite?) then 1 else 0)
         + Signals(actions[1..], writing)
  }

  lemma {:induction false} RunSignals<V>(s: State<V>, actions: seq<Action<V>>, r: State<V>, writing: bool)
    requires Leads(s, actions, r)
    ensures Count(r.threads, MustSignal(writing)) + Signals(actions, writing) ==
            Count(s.threads, MustSignal(writing)) + Commits(actions, writing)
    decreases |actions|
  {
    hide Count;
    if actions != [] {
      StepCounts(s, actions[0], MustSignal(writing));
      RunSignals(Do(s, actions[0]), actions[1..], r, writing);
    }
  }

  /** In every run each write and each read that changed the queue has sent one signal, or is about to. */
  lemma {:induction false} EveryChangeIsSignalled<V>(limit: nat, n: nat, actions: seq<Action<V>>, r: State<V>,
                                                     writing: bool)
    requires Leads(Start(limit, n), actions, r)
    ensures Commits(actions, writing) == Signals(actions, writing) + Count(r.threads, MustSignal(writing))
  {
    CountNone<V>(n, MustSignal(writing));
    RunSignals(Start(limit, n), actions, r, writing);
  }

  /** The signal of a write wakes a read, and that of a read wakes a write: exactly one, if any sleeps. */
  lemma {:induction false} SignalWakesOne<V>(s: State<V>, a: Action<V>)
    requires Enabled(s, a) && (a.SignalRead? || a.SignalWrite?)
    ensures var asleep := Count(s.threads, Waiting(a.SignalWrite?));
            Count(Do(s, a).threads, Waiting(a.SignalWrite?)) == if asleep == 0 then 0 else asleep - 1
  {
    var p := Waiting<V>(a.SignalWrite?);
    StepCounts(s, a, p);
    if a.woken.None? {
      NoneCounts(s.threads, p);
    } else {
      OneCounts(s.threads, p, a.woken.value);
    }
  }

  // ---- The bound is met ----

  lemma {:induction false} LeadsOn<V>(s: State<V>, actions: seq<Action<V>>, r: State<V>, a: Action<V>)
    requires Leads(s, actions, r) && Enabled(r, a)
    ensures Leads(s, actions + [a], Do(r, a))
    decreases |actions|
  {
    var more := actions + [a];
    if actions == [] {
      assert more[1..] == [];
    } else {
      LeadsOn(Do(s, actions[0]), actions[1..], r, a);
      assert more[1..] == actions[1..] + [a];
    }
  }

  lemma OneMore<V(!new)>(limit: nat, n: nat, s: State<V>, a: Action<V>)
    requires Reachable(limit, n, s) && Enabled(s, a)
    ensures Reachable(limit, n, Do(s, a))
  {
    var actions :| Leads(Start(limit, n), actions, s);
    LeadsOn(Start(limit, n), actions, s, a);
  }

  ghost predicate AllIdle<V>(s: State<V>, limit: nat, n: nat, length: nat) {
    && |s.threads| == n && s.context.sizeLimit == limit && |s.context.queue| == length
    && forall t | 0 <= t < n :: s.threads[t].Idle?
  }

  // One thread pushes k values, one call after the other.
  lemma PushOneByOne<V(!new)>(limit: nat, n: nat, v: V, k: nat) returns (s: State<V>)
    requires n > 0 && k <= limit
    ensures Reachable(limit, n, s) && AllIdle(s, limit, n, k)
  {
    hide Reachable;
    if k == 0 {
      s := Start(limit, n);
      StartIsReachable<V>(limit, n);
    } else {
      s := PushOneByOne(limit, n, v, k - 1);
      OneMore(limit, n, s, EnterWrite(0, false, v, false));
      s := Do(s, EnterWrite(0, false, v, false));
      OneMore(limit, n, s, DecideWrite(0));
      s := Do(s, DecideWrite(0));
      OneMore(limit, n, s, CommitWrite(0));
      s := Do(s, CommitWrite(0));
      OneMore(limit, n, s, SignalRead(0, None));
      s := Do(s, SignalRead(0, None));
    }
  }

  lemma StartIsReachable<V(!new)>(limit: nat, n: nat)
    ensures Reachable(limit, n, Start<V>(limit, n))
  {
    assert Leads(Start<V>(limit, n), [], Start<V>(limit, n));
  }

  // The first j threads have seen the one free place, one after the other.
  lemma AllSeeRoom<V(!new)>(limit: nat, n: nat, v: V, j: nat) returns (s: State<V>)
    requires limit > 0 && 0 < n && j <= n
    ensures Reachable(limit, n, s)
    ensures |s.threads| == n && s.context.sizeLimit == limit && |s.context.queue| == limit - 1
    ensures forall t | 0 <= t < j :: s.threads[t] == WriteEntered(false, v, false, limit - 1)
    ensures forall t | j <= t < n :: s.threads[t].Idle?
  {
    hide Reachable;
    if j == 0 {
      s := PushOneByOne(limit, n, v, limit - 1);
    } else {
      s := AllSeeRoom(limit, n, v, j - 1);
      OneMore(limit, n, s, EnterWrite(j - 1, false, v, false));
      s := Do(s, EnterWrite(j - 1, false, v, false));
    }
  }

  // ... and then the first j of them add their value.
  lemma AllCommit<V(!new)>(limit: nat, n: nat, v: V, j: nat) returns (s: State<V>)
    requires limit > 0 && 0 < n && j <= n
    ensures Reachable(limit, n, s)
    ensures |s.threads| == n && s.context.sizeLimit == limit && |s.context.queue| == limit - 1 + j
    ensures forall t | j <= t < n :: s.threads[t] == WriteEntered(false, v, false, limit - 1)
  {
    hide Reachable;
    if j == 0 {
      s := AllSeeRoom(limit, n, v, n);
    } else {
      s := AllCommit(limit, n, v, j - 1);
      OneMore(limit, n, s, DecideWrite(j - 1));
      s := Do(s, DecideWrite(j - 1));
      OneMore(limit, n, s, CommitWrite(j - 1));
      s := Do(s, CommitWrite(j - 1));
    }
  }

  /** For every limit and every number of threads, the bound is reached. */
  lemma {:induction false} BoundIsMet<V(!new)>(limit: nat, n: nat, v: V)
    requires limit > 0 && n > 0
    ensures exists r: State<V> :: Reachable(limit, n, r) && |r.context.queue| == limit + n - 1
  {
    var r := AllCommit(limit, n, v, n);
  }

  // ---- Reading from an empty queue ----

  // A pop or shift is about to take a value and there is none: it will return nil.
  ghost predicate ReadsNothing<V>(s: State<V>) {
    s.context.queue == [] && exists t :: 0 <= t < |s.threads| && s.threads[t].ReadReady?
  }

  lemma {:induction false} OneCounts<V>(threads: seq<Thread<V>>, p: Thread<V> -> bool, t: nat)
    requires t < |threads| && p(threads[t])
    ensures Count(threads, p) >= 1
  {
    if t > 0 {
      OneCounts(threads[1..], p, t - 1);
    }
  }

  // Two threads see the one value, and one of them takes it.
  lemma TwoReadersOneValue<V(!new)>(limit: nat, n: nat, v: V) returns (s: State<V>)
    requires limit > 0 && n > 1
    ensures Reachable(limit, n, s) && ReadsNothing(s)
  {
    hide Reachable;
    s := PushOneByOne(limit, n, v, 1);
    OneMore(limit, n, s, EnterRead(0, false, false));
    s := Do(s, EnterRead(0, false, false));
    OneMore(limit, n, s, EnterRead(1, false, false));
    s := Do(s, EnterRead(1, false, false));
    OneMore(limit, n, s, DecideRead(0));
    s := Do(s, DecideRead(0));
    OneMore(limit, n, s, DecideRead(1));
    s := Do(s, DecideRead(1));
    OneMore(limit, n, s, CommitRead(0));
    s := Do(s, CommitRead(0));
    assert s.threads[1].ReadReady?;
  }

  /** A pop or shift can come away with nothing exactly when there is more than one thread. */
  lemma {:induction false} ReadsNothingIffShared<V(!new)>(limit: nat, n: nat, v: V)
    requires limit > 0 && n > 0
    ensures (exists r: State<V> :: Reachable(limit, n, r) && ReadsNothing(r)) <==> n > 1
  {
    if n > 1 {
      var r := TwoReadersOneValue(limit, n, v);
    } else {
      forall r: State<V> | Reachable(limit, n, r)
        ensures !ReadsNothing(r)
      {
        StartIsSound<V>(limit, n);
        var actions :| Leads(Start(limit, n), actions, r);
        RunKeepsSound(Start(limit, n), actions, r);
        if ReadsNothing(r) {
          var t :| 0 <= t < |r.threads| && r.threads[t].ReadReady?;
          OneCounts(r.threads, ClaimsValue(), t);
        }
      }
    }
  }

  // ---- Signals that come too early ----

  // A read sleeps although there are values, or a write although there is room, and nobody is left
  // to wake it: all other threads are between their calls.
  ghost predicate LeftAsleep<V>(s: State<V>, t: nat, writing: bool) {
    && t < |s.threads| && WaitsFor(s.threads[t], writing)
    && (if writing then |s.context.queue| < s.context.sizeLimit else s.context.queue != [])
    && forall u | 0 <= u < |s.threads| && u != t :: s.threads[u].Idle?
  }

  // A read sees the empty queue, a write comes and signals, and then the read goes to sleep.
  lemma ReadSleepsTooLate<V(!new)>(limit: nat, n: nat, v: V) returns (s: State<V>)
    requires limit > 0 && n > 1
    ensures Reachable(limit, n, s) && LeftAsleep(s, 0, false)
  {
    hide Reachable;
    s := Start(limit, n);
    StartIsReachable<V>(limit, n);
    OneMore(limit, n, s, EnterRead(0, false, false));
    s := Do(s, EnterRead(0, false, false));
    OneMore(limit, n, s, EnterWrite(1, false, v, false));
    s := Do(s, EnterWrite(1, false, v, false));
    OneMore(limit, n, s, DecideWrite(1));
    s := Do(s, DecideWrite(1));
    OneMore(limit, n, s, CommitWrite(1));
    s := Do(s, CommitWrite(1));
    OneMore(limit, n, s, SignalRead(1, None));
    s := Do(s, SignalRead(1, None));
    OneMore(limit, n, s, DecideRead(0));
    s := Do(s, DecideRead(0));
  }

  lemma WriteSleepsTooLate<V(!new)>(limit: nat, n: nat, v: V) returns (s: State<V>)
    requires limit > 0 && n > 1
    ensures Reachable(limit, n, s) && LeftAsleep(s, 0, true)
  {
    hide Reachable;
    s := PushOneByOne(limit, n, v, limit);
    OneMore(limit, n, s, EnterWrite(0, false, v, false));
    s := Do(s, EnterWrite(0, false, v, false));
    OneMore(limit, n, s, EnterRead(1, false, false));
    s := Do(s, EnterRead(1, false, false));
    OneMore(limit, n, s, DecideRead(1));
    s := Do(s, DecideRead(1));
    OneMore(limit, n, s, CommitRead(1));
    s := Do(s, CommitRead(1));
    OneMore(limit, n, s, SignalWrite(1, None));
    s := Do(s, SignalWrite(1, None));
    OneMore(limit, n, s, DecideWrite(0));
    s := Do(s, DecideWrite(0));
  }

  // One thread alone: what it saw is still so.
  ghost predicate SeesTruly<V>(s: State<V>) {
    && |s.threads| == 1
    && match s.threads[0]
       case WriteEntered(_, _, _, len) => len == |s.context.queue|
       case WriteWaiting(_, _) => |s.context.queue| >= s.context.sizeLimit
       case ReadEntered(_, _, len) => len == |s.context.queue|
       case ReadWaiting(_) => s.context.queue == []
       case _ => true
  }

  lemma {:induction false} AloneSeesTruly<V>(s: State<V>, actions: seq<Action<V>>, r: State<V>)
    requires Leads(s, actions, r) && SeesTruly(s)
    ensures SeesTruly(r)
    decreases |actions|
  {
    if actions != [] {
      AloneSeesTruly(Do(s, actions[0]), actions[1..], r);
    }
  }

  /** Looking at the length and going to sleep are two steps: a call can be left asleep beside values,
      or beside room, exactly when there is more than one thread. */
  lemma {:induction false} LeftAsleepIffShared<V(!new)>(limit: nat, n: nat, v: V, writing: bool)
    requires limit > 0 && n > 0
    ensures (exists r: State<V>, t: nat :: Reachable(limit, n, r) && LeftAsleep(r, t, writing)) <==> n > 1
  {
    if n > 1 {
      if writing {
        var r := WriteSleepsTooLate(limit, n, v);
      } else {
        var r := ReadSleepsTooLate(limit, n, v);
      }
    } else {
      forall r: State<V>, t: nat | Reachable(limit, n, r)
        ensures !LeftAsleep(r, t, writing)
      {
        var actions :| Leads(Start(limit, n), actions, r);
        AloneSeesTruly(Start(limit, n), actions, r);
      }
    }
  }

  // ---- First in, first out ----

  // All writes go to one end and all reads to the other; nothing is cleared.
  ghost predicate OneWay<V>(a: Action<V>, front: bool) {
    match a
    case EnterWrite(_, f, _, _) => f == front
    case EnterRead(_, f, _) => f == !front
    case Clear(_) => false
    case _ => true
  }

  ghost predicate OneWayThread<V>(th: Thread<V>, front: bool) {
    match th
    case WriteEntered(f, _, _, _) => f == front
    case WriteWaiting(f, _) => f == front
    case WriteReady(f, _) => f == front
    case ReadEntered(f, _, _) => f == !front
    case ReadWaiting(f) => f == !front
    case ReadReady(f) => f == !front
    case _ => true
  }

  // The queue in the order in which it was filled, when writes go to the given end.
  function Oldest<V>(queue: seq<V>, front: bool): (r: seq<V>)
    ensures |r| == |queue|
    ensures forall i | 0 <= i < |queue| :: r[i] == if front then queue[|queue| - 1 - i] else queue[i]
  {
    if front then seq(|queue|, i requires 0 <= i < |queue| => queue[|queue| - 1 - i]) else queue
  }

  ghost predicate InOrder<V>(s: State<V>, front: bool) {
    && s.added == s.taken + Oldest(s.context.queue, front)
    && forall t | 0 <= t < |s.threads| :: OneWayThread(s.threads[t], front)
  }

  lemma WriteKeepsOrder<V>(s: State<V>, t: nat, front: bool)
    requires t < |s.threads| && s.threads[t].WriteReady? && InOrder(s, front)
    ensures InOrder(AfterCommitWrite(s, t), front)
  {
    var s', v := AfterCommitWrite(s, t), s.threads[t].value;
    assert Oldest(s'.context.queue, front) == Oldest(s.context.queue, front) + [v];
  }

  lemma OldestIsTaken<V>(queue: seq<V>, front: bool)
    requires queue != []
    ensures var rest := if front then queue[..|queue| - 1] else queue[1..];
            Oldest(queue, front) == [Taken(queue, !front).value] + Oldest(rest, front)
  {
    if front {
      var last, rest := |queue| - 1, queue[..|queue| - 1];
      forall i | 0 < i < |queue|
        ensures Oldest(queue, true)[i] == Oldest(rest, true)[i - 1]
      {
        assert Oldest(queue, true)[i] == queue[last - i] == rest[last - i];
      }
      assert Oldest(queue, true) == [queue[last]] + Oldest(rest, true);
    } else {
      assert queue == [queue[0]] + queue[1..];
    }
  }

  lemma ReadKeepsOrder<V>(s: State<V>, t: nat, front: bool)
    requires t < |s.threads| && s.threads[t].ReadReady? && InOrder(s, front)
    ensures InOrder(AfterCommitRead(s, t), front)
  {
    hide Oldest;
    var s', queue := AfterCommitRead(s, t), s.context.queue;
    assert s.threads[t].front == !front;
    if queue != [] {
      OldestIsTaken(queue, front);
    } else {
      assert s'.taken == s.taken;
    }
  }

  lemma StepKeepsOrder<V>(s: State<V>, a: Action<V>, front: bool)
    requires Enabled(s, a) && InOrder(s, front) && OneWay(a, front)
    ensures InOrder(Do(s, a), front)
  {
    hide AfterCommitWrite, AfterCommitRead, Oldest;
    match a
    case CommitWrite(t) => WriteKeepsOrder(s, t, front);
    case CommitRead(t) => ReadKeepsOrder(s, t, front);
    case _ =>
  }

  lemma {:induction false} RunKeepsOrder<V>(s: State<V>, actions: seq<Action<V>>, r: State<V>, front: bool)
    requires Leads(s, actions, r) && InOrder(s, front)
    requires forall i | 0 <= i < |actions| :: OneWay(actions[i], front)
    ensures InOrder(r, front)
    decreases |actions|
  {
    if actions != [] {
      StepKeepsOrder(s, actions[0], front);
      RunKeepsOrder(Do(s, actions[0]), actions[1..], r, front);
    }
  }

  /** With push and shift only (or with unshift and pop only, the aliases enq and deq), every run
      takes the values in the order in which they were added. */
  lemma {:induction false} FirstInFirstOut<V>(limit: nat, n: nat, actions: seq<Action<V>>, r: State<V>, front: bool)
    requires Leads(Start(limit, n), actions, r)
    requires forall i | 0 <= i < |actions| :: OneWay(actions[i], front)
    ensures r.taken <= r.added
    ensures r.added[|r.taken|..] == Oldest(r.context.queue, front)
  {
    RunKeepsOrder(Start(limit, n), actions, r, front);
  }
}
