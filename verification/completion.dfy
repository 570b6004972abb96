/** Completions: kactive/completion.c over the simple wait queue of kactive/swait.c. Each step runs
    under the queue's lock; between steps the threads interleave in any order. */
module Completions {
  import opened Common

  type Tid = nat

  const UINT_MAX := 0xffff_ffff
  const MAX_SCHEDULE_TIMEOUT := 0x7fff_ffff_ffff_ffff

  /** A thread inside the wait loop, without the lock: the timeout it went to sleep with, and whether
      a wake-up has taken it off the queue since. */
  datatype Wait = Wait(timeout: int, woken: bool)

  datatype State = State(done: nat, queue: seq<Tid>, waits: map<Tid, Wait>, completes: nat, taken: nat)

  /** How a call of wait_for_common returned: its value, and whether it took a token. */
  datatype Return = Waiting | Token(value: int) | NoToken(value: int)

  const INITIAL := State(0, [], map[], 0, 0)

  // ---------------------------------------------------------------- the atomic steps

  function Without(q: seq<Tid>, t: Tid): (r: seq<Tid>)
    ensures forall u :: u in r <==> u in q && u != t
    ensures Distinct(q) ==> Distinct(r)
  {
    if q == [] then []
    else
      assert forall u :: u in q <==> u == q[0] || u in q[1..];
      assert Distinct(q) ==> q[0] !in q[1..] && Distinct(q[1..]);
      var r := Without(q[1..], t);
      if q[0] == t then r else [q[0]] + r
  }

  predicate Distinct(q: seq<Tid>) {
    forall i, j :: 0 <= i < j < |q| ==> q[i] != q[j]
  }

  function Incremented(done: nat): nat { if done != UINT_MAX then done + 1 else done }

  /** complete(). */
  function CompleteStep(s: State): State {
    var s1 := s.(done := Incremented(s.done), completes := s.completes + 1);
    if s.queue == [] then s1
    else
      var t := s.queue[|s.queue| - 1];
      s1.(queue := s.queue[..|s.queue| - 1],
          waits := if t in s.waits then s.waits[t := s.waits[t].(woken := true)] else s.waits)
  }

  function Taken(s: State): State {
    s.(done := if s.done != UINT_MAX && s.done > 0 then s.done - 1 else s.done, taken := s.taken + 1)
  }

  function NonZero(timeout: int): int { if timeout != 0 then timeout else 1 }

  /** A thread enters wait_for_common: it takes a token, or queues itself and sleeps. */
  function EnterStep(s: State, t: Tid, timeout: int): (State, Return) {
    if s.done != 0 then (Taken(s), Token(NonZero(timeout)))
    else (s.(queue := s.queue + [t], waits := s.waits[t := Wait(timeout, false)]), Waiting)
  }

  /** A sleeping thread runs again, with what is left of its timeout, and takes the lock. */
  function RecheckStep(s: State, t: Tid, left: int): (State, Return)
    requires t in s.waits
  {
    if s.done == 0 && left != 0 then
      (s.(queue := if s.waits[t].woken then s.queue + [t] else s.queue,
          waits := s.waits[t := Wait(left, false)]), Waiting)
    else
      var s1 := s.(queue := if s.waits[t].woken then s.queue else Without(s.queue, t), waits := s.waits - {t});
      if s.done == 0 then (s1, NoToken(left)) else (Taken(s1), Token(NonZero(left)))
  }

  /** What schedule_timeout may give back: an unbounded sleep stays unbounded. */
  predicate MayLeave(timeout: int, left: int) {
    left >= 0 && (timeout == MAX_SCHEDULE_TIMEOUT ==> left == timeout)
  }

  // ---------------------------------------------------------------- interleavings

  datatype Event = Complete | Enter(t: Tid, timeout: int) | Recheck(t: Tid, left: int)

  predicate Enabled(s: State, e: Event) {
    match e
    case Complete => true
    case Enter(t, _) => t !in s.waits
    case Recheck(t, left) => t in s.waits && MayLeave(s.waits[t].timeout, left)
  }

  function Next(s: State, e: Event): State
    requires Enabled(s, e)
  {
    match e
    case Complete => CompleteStep(s)
    case Enter(t, timeout) => EnterStep(s, t, timeout).0
    case Recheck(t, left) => RecheckStep(s, t, left).0
  }

  /** `trace` is the states an interleaving of the events goes through. */
  ghost predicate IsRun(trace: seq<State>, es: seq<Event>) {
    && |trace| == |es| + 1 && trace[0] == INITIAL
    && forall i :: 0 <= i < |es| ==> Enabled(trace[i], es[i]) && trace[i + 1] == Next(trace[i], es[i])
  }

  /** The waiters a wake-up has reached that have not looked again yet. */
  function Woken(s: State): set<Tid> {
    set t | t in s.waits && s.waits[t].woken
  }

  /** The queue holds exactly the waiters nobody has woken, each once. */
  ghost predicate QueueOk(s: State) {
    && Distinct(s.queue)
    && (forall t :: t in s.queue ==> t in s.waits && !s.waits[t].woken)
    && forall t :: t in s.waits && !s.waits[t].woken ==> t in s.queue
  }

  ghost predicate Inv(s: State) {
    && QueueOk(s) && s.done <= UINT_MAX
    && (s.done < UINT_MAX ==> s.done + s.taken == s.completes)
    && (s.done < UINT_MAX && s.queue != [] ==> s.done <= |Woken(s)|)
  }

  lemma CompleteKeeps(s: State)
    requires Inv(s)
    ensures Inv(CompleteStep(s))
  {
    var s' := CompleteStep(s);
    if s.queue != [] {
      var n := |s.queue| - 1;
      var t := s.queue[n];
      assert t in s.queue;
      assert s.queue == s'.queue + [t];
      forall u | u in s'.waits && !s'.waits[u].woken
        ensures u in s'.queue
      {
        assert u in s.queue && u != t;
      }
      forall u | u in s'.queue
        ensures u in s'.waits && !s'.waits[u].woken
      {
        assert u in s.queue && u != t;
      }
      assert Woken(s') == Woken(s) + {t};
      assert t !in Woken(s);
    }
  }

  lemma EnterKeeps(s: State, t: Tid, timeout: int)
    requires Inv(s) && t !in s.waits
    ensures Inv(EnterStep(s, t, timeout).0)
  {
    var s' := EnterStep(s, t, timeout).0;
    if s.done == 0 {
      assert t !in s.queue;
      assert Woken(s') == Woken(s);
    } else {
      assert Woken(s') == Woken(s);
    }
  }

  lemma RecheckKeeps(s: State, t: Tid, left: int)
    requires Inv(s) && t in s.waits
    ensures Inv(RecheckStep(s, t, left).0)
  {
    var s' := RecheckStep(s, t, left).0;
    if s.waits[t].woken {
      assert t !in s.queue;
      assert Woken(s') == Woken(s) - {t};
    } else {
      assert Woken(s') == Woken(s);
    }
    if !(s.done == 0 && left != 0) {
      assert s.queue == [] ==> s'.queue == [];
    }
  }

  /** In every reachable state: tokens are conserved until the counter saturates, and no wake-up is
      lost, that is, while a waiter sleeps there are never more tokens than woken waiters on their
      way to them. */
  lemma {:induction false} RunKeeps(trace: seq<State>, es: seq<Event>, n: nat)
    requires IsRun(trace, es) && n < |trace|
    ensures Inv(trace[n])
  {
    if n > 0 {
      RunKeeps(trace, es, n - 1);
      match es[n - 1]
      case Complete => CompleteKeeps(trace[n - 1]);
      case Enter(t, timeout) => EnterKeeps(trace[n - 1], t, timeout);
      case Recheck(t, left) => RecheckKeeps(trace[n - 1], t, left);
    }
  }

  /** A token and a sleeper together mean a woken waiter that will take a token as soon as it runs,
      whatever its timeout says. */
  lemma SomeoneTakesIt(s: State)
    requires Inv(s) && 0 < s.done < UINT_MAX && s.queue != []
    ensures exists t :: t in Woken(s) && forall left :: RecheckStep(s, t, left).1.Token?
  {
    assert |Woken(s)| > 0;
    var t :| t in Woken(s);
    assert forall left :: RecheckStep(s, t, left).1.Token?;
  }

  /** A saturated counter stays saturated: it stands for as many tokens as anyone asks for. */
  lemma {:induction false} SaturationSticks(trace: seq<State>, es: seq<Event>, i: nat, j: nat)
    requires IsRun(trace, es) && i <= j < |trace| && trace[i].done == UINT_MAX
    ensures trace[j].done == UINT_MAX
  {
    if i < j {
      SaturationSticks(trace, es, i, j - 1);
      assert trace[j] == Next(trace[j - 1], es[j - 1]);
    }
  }

  /** A thread that goes to sleep without a bound keeps sleeping without one, and when it leaves the
      wait it has taken a token. */
  lemma {:induction false} UnboundedWaits(trace: seq<State>, es: seq<Event>, i: nat, j: nat, t: Tid)
    requires IsRun(trace, es) && i < j < |es|
    requires es[i] == Enter(t, MAX_SCHEDULE_TIMEOUT) && trace[i].done == 0
    requires forall k :: i < k <= j ==> t in trace[k].waits
    ensures trace[j].waits[t].timeout == MAX_SCHEDULE_TIMEOUT
    ensures t !in trace[j + 1].waits ==> trace[j].done > 0 && trace[j + 1].taken == trace[j].taken + 1
  {
    assert trace[i + 1] == Next(trace[i], es[i]);
    if i + 1 < j {
      UnboundedWaits(trace, es, i, j - 1, t);
      KeepsBound(trace[j - 1], es[j - 1], t);
    }
    KeepsBound(trace[j], es[j], t);
  }

  lemma KeepsBound(s: State, e: Event, t: Tid)
    requires Enabled(s, e) && t in s.waits && s.waits[t].timeout == MAX_SCHEDULE_TIMEOUT
    ensures var s' := Next(s, e);
            if t in s'.waits then s'.waits[t].timeout == MAX_SCHEDULE_TIMEOUT
            else s.done > 0 && s'.taken == s.taken + 1
  {
  }

  /** The thread woken is the one that queued last, so threads are woken in the order in which
      they queued only if there is just one. */
  lemma WakesTheLast(s: State)
    requires Inv(s) && s.queue != []
    ensures Woken(CompleteStep(s)) == Woken(s) + {s.queue[|s.queue| - 1]}
    ensures s.queue[0] in Woken(CompleteStep(s)) <==> |s.queue| == 1
  {
    var s' := CompleteStep(s);
    var t := s.queue[|s.queue| - 1];
    assert t in s.queue && s.queue[0] in s.queue;
    assert Woken(s') == Woken(s) + {t};
  }

  /** The queue is a stack: the thread that queued last is woken, and those before it sleep on. */
  lemma LastInFirstOut(s: State, t: Tid, timeout: int)
    requires Inv(s) && t !in s.waits && s.done == 0
    ensures var s' := CompleteStep(EnterStep(s, t, timeout).0);
            s'.queue == s.queue && Woken(s') == Woken(s) + {t} && s'.done == 1
  {
    var s1 := EnterStep(s, t, timeout).0;
    EnterKeeps(s, t, timeout);
    WakesTheLast(s1);
    assert Woken(s1) == Woken(s);
    assert s1.queue[..|s.queue|] == s.queue;
  }

  /** So is one that was woken, found no token, and queued again; one that was not keeps its place. */
  lemma QueuesAgain(s: State, t: Tid, left: int)
    requires Inv(s) && t in s.waits && s.done == 0 && left != 0
    ensures var s1 := RecheckStep(s, t, left).0;
            && t !in Woken(s1)
            && if t !in Woken(s) then s1.queue == s.queue
               else CompleteStep(s1).queue == s.queue && Woken(CompleteStep(s1)) == Woken(s)
  {
    if t in Woken(s) {
      var s1 := RecheckStep(s, t, left).0;
      RecheckKeeps(s, t, left);
      WakesTheLast(s1);
      assert Woken(s1) == Woken(s) - {t};
      assert s1.queue[..|s.queue|] == s.queue;
    }
  }

  /** What a return tells its caller: 0 exactly when the time ran out and no token was there, else a token was
      taken, and the value is the time left, at least 1. */
  lemma ReturnTells(s: State, t: Tid, left: int)
    requires Inv(s) && t in s.waits && left >= 0
    ensures var (s', r) := RecheckStep(s, t, left);
            && (r.Waiting? <==> t in s'.waits) && (r.Waiting? <==> s.done == 0 && left > 0)
            && (r.Waiting? ==> s'.waits[t] == Wait(left, false))
            && (!r.Waiting? ==> (r.value == 0 <==> r.NoToken?) && left <= r.value <= Max(1, left))
            && (r.Token? <==> s'.taken == s.taken + 1) && (r.Token? <==> s.done > 0)
            && (!r.Token? ==> s'.taken == s.taken && s'.done == s.done)
            && (!r.Waiting? ==> t !in s'.queue)
            && forall u :: u in s.waits && u != t ==> u in s'.waits && s'.waits[u] == s.waits[u]
  {
  }

  /** The same of a thread that finds a token at once: it never queues. */
  lemma EnterTells(s: State, t: Tid, timeout: int)
    requires Inv(s) && t !in s.waits && timeout >= 0
    ensures var (s', r) := EnterStep(s, t, timeout);
            && !r.NoToken? && (r.Token? <==> s.done > 0) && (r.Waiting? <==> t in s'.waits)
            && (r.Token? ==> 0 < r.value && timeout <= r.value <= Max(1, timeout) && s'.taken == s.taken + 1)
            && (r.Token? ==> s'.queue == s.queue && s'.waits == s.waits)
            && (r.Waiting? ==> s'.done == 0 && s'.waits[t] == Wait(timeout, false) && s'.taken == s.taken)
  {
  }

  // ---------------------------------------------------------------- the code under the lock

  class Completion {
    var done: nat
    var queue: seq<Tid>
    var waits: map<Tid, Wait>
    ghost var completes: nat
    ghost var taken: nat

    ghost function Abs(): State
      reads this
    {
      State(done, queue, waits, completes, taken)
    }

    constructor ()
      ensures Abs() == INITIAL
    {
      done, queue, waits := 0, [], map[];
      completes, taken := 0, 0;
    }

    /** swake_up_locked: takes the tail off the list and wakes its task. */
    method WakeUp()
      modifies this`queue, this`waits
      ensures queue == if old(queue) == [] then [] else old(queue)[..|old(queue)| - 1]
      ensures waits == if old(queue) != [] && old(queue)[|old(queue)| - 1] in old(waits)
                       then old(waits)[old(queue)[|old(queue)| - 1] :=
                                         old(waits)[old(queue)[|old(queue)| - 1]].(woken := true)]
                       else old(waits)
    {
      if |queue| == 0 {
        return;
      }
      var t := queue[|queue| - 1];
      queue := queue[..|queue| - 1];
      if t in waits {
        waits := waits[t := waits[t].(woken := true)];
      }
    }

    method CompleteOne()
      modifies this
      ensures Abs() == CompleteStep(old(Abs()))
    {
      if done != UINT_MAX {
        done := done + 1;
      }
      WakeUp();
      completes := completes + 1;
    }

    /** __prepare_to_swait: a thread that is on the list already is not added again. */
    method Prepare(t: Tid, linked: bool)
      modifies this`queue
      ensures queue == if linked then old(queue) else old(queue) + [t]
    {
      if !linked {
        queue := queue + [t];
      }
    }

    /** __finish_swait: list_header_delete_node searches the list for the thread's entry. */
    method Finish(t: Tid, linked: bool)
      modifies this`queue
      ensures queue == if linked then Without(old(queue), t) else old(queue)
    {
      if !linked {
        return;
      }
      var left, kept := queue, [];
      while left != []
        invariant kept + Without(left, t) == Without(queue, t)
        decreases |left|
      {
        if left[0] != t {
          kept := kept + [left[0]];
        }
        left := left[1..];
      }
      queue := kept;
    }

    method WaitEnter(t: Tid, timeout: int) returns (r: Return)
      requires t !in waits
      modifies this
      ensures (Abs(), r) == EnterStep(old(Abs()), t, timeout)
      ensures !r.Waiting? ==> r.value != 0 && old(done) != 0
    {
      if done == 0 {
        Prepare(t, false);
        waits := waits[t := Wait(timeout, false)];
        return Waiting;
      }
      if done != UINT_MAX {
        done := done - 1;
      }
      taken := taken + 1;
      return Token(if timeout != 0 then timeout else 1);
    }

    method WaitRecheck(t: Tid, left: int) returns (r: Return)
      requires t in waits
      modifies this
      ensures (Abs(), r) == RecheckStep(old(Abs()), t, left)
      ensures !r.Waiting? ==> (r.value == 0 <==> r.NoToken?) && (r.value == 0 <==> old(done) == 0)
    {
      var linked := !waits[t].woken;
      if done == 0 && left != 0 {
        Prepare(t, linked);
        waits := waits[t := Wait(left, false)];
        return Waiting;
      }
      Finish(t, linked);
      waits := waits - {t};
      if done == 0 {
        return NoToken(left);
      }
      if done != UINT_MAX {
        done := done - 1;
      }
      taken := taken + 1;
      return Token(if left != 0 then left else 1);
    }
  }
}
