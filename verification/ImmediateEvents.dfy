/** Immediate events (events/events_immediate.c): 32 first-in first-out queues and a cursor to the first that may be in use. */
module ImmediateEvents {
  import opened Machine

  type Event = nat

  /** A queue node; serial identifies it, in the order of registration. */
  datatype Node = Node(event: Event, prio: nat, serial: nat)

  type Queues = q: seq<seq<Node>> | |q| == 32 witness seq(32, _ => [])

  /** x leaves before y: by priority, then by order of registration. */
  predicate Before(x: Node, y: Node) {
    x.prio < y.prio || (x.prio == y.prio && x.serial < y.serial)
  }

  ghost predicate Ordered(q: Queues, next: nat) {
    forall p, i :: 0 <= p < 32 && 0 <= i < |q[p]| ==>
      && q[p][i].prio == p && q[p][i].serial < next
      && forall j :: 0 <= j < i ==> q[p][j].serial < q[p][i].serial
  }

  ghost function Pending(q: Queues): set<Node> {
    set p, i | 0 <= p < 32 && 0 <= i < |q[p]| :: q[p][i]
  }

  lemma PendingAppend(q: Queues, n: Node)
    requires n.prio < 32
    ensures Pending(q[n.prio := q[n.prio] + [n]]) == Pending(q) + {n}
  {
    var q' := q[n.prio := q[n.prio] + [n]];
    forall x | x in Pending(q)
      ensures x in Pending(q')
    {
      var p, i :| 0 <= p < 32 && 0 <= i < |q[p]| && q[p][i] == x;
      assert q'[p][i] == x;
    }
    assert q'[n.prio][|q[n.prio]|] == n;
  }

  function RemoveAt<T>(s: seq<T>, i: nat): seq<T>
    requires i < |s|
  {
    s[..i] + s[i + 1..]
  }

  /** Taking a node out of its queue takes exactly that node out. */
  lemma PendingRemove(q: Queues, next: nat, p: nat, i: nat)
    requires Ordered(q, next) && p < 32 && i < |q[p]|
    ensures Ordered(q[p := RemoveAt(q[p], i)], next)
    ensures Pending(q[p := RemoveAt(q[p], i)]) == Pending(q) - {q[p][i]}
  {
    var q', n := q[p := RemoveAt(q[p], i)], q[p][i];
    assert forall j :: 0 <= j < |q'[p]| ==> q'[p][j] == q[p][if j < i then j else j + 1];
    forall x | x in Pending(q) && x != n
      ensures x in Pending(q')
    {
      var p0, j :| 0 <= p0 < 32 && 0 <= j < |q[p0]| && q[p0][j] == x;
      assert x == q'[p0][if p0 == p && j > i then j - 1 else j];
    }
  }

  /** The front of the first queue in use is less than everything else. */
  lemma LeastFirst(q: Queues, next: nat, p: nat)
    requires Ordered(q, next) && p < 32 && q[p] != [] && forall i :: 0 <= i < p ==> q[i] == []
    ensures forall x :: x in Pending(q) - {q[p][0]} ==> Before(q[p][0], x)
  {
  }

  class Immediate {
    var heads: Queues
    var minq: nat
    var next: nat  // the identity of the next node
    ghost var history: seq<Step>  // every registration, cancellation and hand-out

    ghost predicate Valid()
      reads this
    {
      && Ordered(heads, next) && minq <= 32
      && (forall p :: 0 <= p < minq ==> heads[p] == [])
      && Run(State({}, 0), history) && End(State({}, 0), history) == State(Pending(heads), next)
    }

    constructor ()
      ensures Valid() && Pending(heads) == {} && next == 0 && history == []
    {
      heads, minq, next, history := seq(32, _ => []), 32, 0, [];
      assert Pending(seq(32, _ => [])) == {};
    }

    /** events_immediate_register(func, cookie, prio); prio is asserted to be in range. */
    method Register(event: Event, prio: nat, alloc: bool) returns (n: Option<Node>)
      requires Valid() && prio < 32
      modifies this
      ensures Valid() && n.Some? == alloc
      ensures n.Some? ==> n.value == Node(event, prio, old(next)) && next == old(next) + 1
      ensures n.Some? ==> Pending(heads) == old(Pending(heads)) + {n.value} && n.value !in old(Pending(heads))
      ensures n.Some? ==> history == old(history) + [Registered(n.value)]
      ensures n.None? ==> heads == old(heads) && next == old(next) && history == old(history)
    {
      if !alloc {
        return None;
      }
      var node := Node(event, prio, next);
      PendingAppend(heads, node);
      RunAppend(State({}, 0), history, Registered(node));
      history := history + [Registered(node)];
      heads := heads[prio := heads[prio] + [node]];
      next := next + 1;
      if prio < minq {
        minq := prio;
      }
      return Some(node);
    }

    /** events_immediate_cancel(cookie) */
    method Cancel(n: Node)
      requires Valid() && n in Pending(heads)
      modifies this`heads, this`history
      ensures Valid() && Pending(heads) == old(Pending(heads)) - {n} && history == old(history) + [Cancelled(n)]
    {
      var i := Position(n);
      PendingRemove(heads, next, n.prio, i);
      RunAppend(State({}, 0), history, Cancelled(n));
      history := history + [Cancelled(n)];
      heads := heads[n.prio := RemoveAt(heads[n.prio], i)];
    }

    /** Where a node is linked. */
    method Position(n: Node) returns (i: nat)
      requires Valid() && n in Pending(heads)
      ensures n.prio < 32 && i < |heads[n.prio]| && heads[n.prio][i] == n
    {
      ghost var p, k :| 0 <= p < 32 && 0 <= k < |heads[p]| && heads[p][k] == n;
      i := 0;
      while heads[n.prio][i] != n
        invariant i <= k
        decreases k - i
      {
        i := i + 1;
      }
    }

    /** events_immediate_get(): the pending event of least priority number, oldest first. */
    method Get() returns (n: Option<Node>)
      requires Valid()
      modifies this`heads, this`minq, this`history
      ensures Valid()
      ensures n.None? <==> old(Pending(heads)) == {}
      ensures n.None? ==> heads == old(heads) && history == old(history)
      ensures n.Some? ==> history == old(history) + [Returned(n.value)]
      ensures n.Some? ==>
        && n.value in old(Pending(heads)) && Pending(heads) == old(Pending(heads)) - {n.value}
        && forall x :: x in Pending(heads) ==> Before(n.value, x)
    {
      while minq < 32 && heads[minq] == []
        invariant Valid() && heads == old(heads) && history == old(history)
        decreases 32 - minq
      {
        minq := minq + 1;
      }
      if minq == 32 {
        return None;
      }
      assert heads[minq][0] in Pending(heads);
      PendingRemove(heads, next, minq, 0);
      n := Some(heads[minq][0]);
      LeastFirst(heads, next, minq);
      RunAppend(State({}, 0), history, Returned(n.value));
      history := history + [Returned(n.value)];
      heads := heads[minq := RemoveAt(heads[minq], 0)];
    }
  }

  // ----------------------------------------------------------------------- runs

  /** What happens to the queue: a node is registered, cancelled or handed out. */
  datatype Step = Registered(n: Node) | Cancelled(n: Node) | Returned(n: Node)

  /** The pending nodes and the next identity. */
  datatype State = State(pending: set<Node>, next: nat)

  ghost predicate Enabled(s: State, step: Step) {
    match step
    case Registered(n) => n.serial == s.next
    case Cancelled(n) => n in s.pending
    case Returned(n) => n in s.pending && forall x :: x in s.pending - {n} ==> Before(n, x)
  }

  ghost function Apply(s: State, step: Step): State {
    if step.Registered? then State(s.pending + {step.n}, s.next + 1) else State(s.pending - {step.n}, s.next)
  }

  /** A run of the queue, as the contracts above allow it. */
  ghost predicate Run(s: State, steps: seq<Step>)
    decreases |steps|
  {
    && (forall x :: x in s.pending ==> x.serial < s.next)
    && (steps != [] ==> Enabled(s, steps[0]) && Run(Apply(s, steps[0]), steps[1..]))
  }

  /** Registrations in a run are of new nodes. */
  lemma {:induction false} FreshSerials(s: State, steps: seq<Step>, k: nat)
    requires Run(s, steps) && k < |steps| && steps[k].Registered?
    ensures steps[k].n.serial >= s.next
    decreases |steps|
  {
    if k > 0 {
      FreshSerials(Apply(s, steps[0]), steps[1..], k - 1);
    }
  }

  /** What is handed out was pending at the start and untouched since, or was registered in the run. */
  lemma {:induction false} ReturnedWasPending(s: State, steps: seq<Step>, k: nat)
    requires Run(s, steps) && k < |steps| && steps[k].Returned?
    ensures (exists i :: 0 <= i < k && steps[i] == Registered(steps[k].n)) ||
            (steps[k].n in s.pending && forall i :: 0 <= i < k ==> steps[i].n != steps[k].n)
    decreases |steps|
  {
    if k > 0 {
      var rest := steps[1..];
      ReturnedWasPending(Apply(s, steps[0]), rest, k - 1);
      if i :| 0 <= i < k - 1 && rest[i] == Registered(rest[k - 1].n) {
        assert steps[i + 1] == Registered(steps[k].n);
      } else {
        assert forall i :: 0 < i < k ==> steps[i] == rest[i - 1];
        if steps[0].n == steps[k].n {
          assert steps[0] == Registered(steps[k].n);
        }
      }
    }
  }

  /** Of two events that are handed out, the first was less unless the second was registered after it left. */
  lemma {:induction false} LeaveInOrder(s: State, steps: seq<Step>, i: nat, k: nat)
    requires Run(s, steps) && i < k < |steps|
    requires steps[i].Returned? && steps[k].Returned?
    ensures Before(steps[i].n, steps[k].n) || exists j :: i < j < k && steps[j] == Registered(steps[k].n)
    decreases |steps|
  {
    var rest := steps[1..];
    if i > 0 {
      LeaveInOrder(Apply(s, steps[0]), rest, i - 1, k - 1);
      if j :| i - 1 < j < k - 1 && rest[j] == Registered(rest[k - 1].n) {
        assert steps[j + 1] == Registered(steps[k].n);
      }
    } else {
      ReturnedWasPending(Apply(s, steps[0]), rest, k - 1);
      if j :| 0 <= j < k - 1 && rest[j] == Registered(rest[k - 1].n) {
        assert steps[j + 1] == Registered(steps[k].n);
      } else {
        assert steps[k].n in s.pending - {steps[0].n};
      }
    }
  }

  /** A cancelled event, or one already handed out, is never handed out later. */
  lemma {:induction false} GoneForGood(s: State, steps: seq<Step>, i: nat, k: nat)
    requires Run(s, steps) && i < k < |steps|
    requires !steps[i].Registered? && steps[k].Returned?
    ensures steps[k].n != steps[i].n
    decreases |steps|
  {
    var rest := steps[1..];
    if i > 0 {
      GoneForGood(Apply(s, steps[0]), rest, i - 1, k - 1);
    } else {
      ReturnedWasPending(Apply(s, steps[0]), rest, k - 1);
      if j :| 0 <= j < k - 1 && rest[j] == Registered(rest[k - 1].n) {
        FreshSerials(Apply(s, steps[0]), rest, j);
      }
    }
  }

  /** The state a run ends in. */
  ghost function End(s: State, steps: seq<Step>): State
    decreases |steps|
  {
    if steps == [] then s else End(Apply(s, steps[0]), steps[1..])
  }

  lemma {:induction false} RunAppend(s: State, steps: seq<Step>, step: Step)
    requires Run(s, steps) && Enabled(End(s, steps), step)
    ensures Run(s, steps + [step]) && End(s, steps + [step]) == Apply(End(s, steps), step)
    decreases |steps|
  {
    if steps == [] {
      assert steps + [step] == [step];
      assert Run(Apply(s, step), []);
    } else {
      RunAppend(Apply(s, steps[0]), steps[1..], step);
      assert (steps + [step])[1..] == steps[1..] + [step];
    }
  }
}
