/**
 * The worker-thread pool of the first laboratory (`ThreadManager`).
 *
 * Every read and update of the pool happens under one lock, so each of
 * `getThread` and `returnThread` is one step on the list of idle workers.
 * Waiting for a worker becomes the precondition that the list is not empty.
 */
module ThreadPool {
  import opened Support

  /** The number of workers the pool creates. */
  const PoolSize: nat := 5
  /** The routing preference before any prime worker has set it. */
  const InitialQueuePreference: int := 6

  /**
   * A worker thread as the pool sees it: its number, and the two fields the
   * worker itself keeps up to date while a client holds it (whether its last
   * client count was prime, and how many clients it has served).
   */
  datatype Worker = Worker(id: nat, prime: bool, clientsNum: nat)

  /** The `i`th worker the pool creates ("Worker thread i"), before it has served anyone. */
  function NewWorker(i: nat): Worker {
    Worker(i, false, 0)
  }

  /** What the pool's lock protects: the idle workers, the utilization count and the routing preference. */
  datatype Pool = Pool(available: seq<Worker>, utilizations: nat, preference: int)

  /** `s` without its element at index `k`. */
  function RemoveAt<T>(s: seq<T>, k: nat): (r: seq<T>)
    requires k < |s|
    ensures |r| == |s| - 1
    ensures forall i :: 0 <= i < k ==> r[i] == s[i]
    ensures forall i :: k <= i < |r| ==> r[i] == s[i + 1]
  {
    s[..k] + s[k + 1..]
  }

  /** The ids of the workers in `ws`, counted with repetition. */
  function Ids(ws: seq<Worker>): (r: multiset<nat>)
    ensures |r| == |ws|
    decreases |ws|
  {
    if ws == [] then multiset{} else multiset{ws[0].id} + Ids(ws[1..])
  }

  lemma {:induction false} IdsAppend(a: seq<Worker>, b: seq<Worker>)
    ensures Ids(a + b) == Ids(a) + Ids(b)
    decreases |a|
  {
    if a == [] {
      assert a + b == b;
    } else {
      assert (a + b)[1..] == a[1..] + b;
      IdsAppend(a[1..], b);
    }
  }

  /** Removing one worker from a list takes exactly its id out of the list's ids. */
  lemma {:induction false} IdsRemoveAt(ws: seq<Worker>, k: nat)
    requires k < |ws|
    ensures Ids(RemoveAt(ws, k)) + multiset{ws[k].id} == Ids(ws)
    decreases k
  {
    if k == 0 {
      assert RemoveAt(ws, k) == ws[1..];
    } else {
      var rest := RemoveAt(ws[1..], k - 1);
      assert RemoveAt(ws, k) == [ws[0]] + rest;
      assert ([ws[0]] + rest)[1..] == rest;
      IdsRemoveAt(ws[1..], k - 1);
    }
  }

  /**
   * The index `getThread` takes a worker from: the head's `clientsNum % 5`
   * when the head is prime and that index is in the list, otherwise the head.
   * It is always a valid index, so the removal never fails.
   */
  function ChosenIndex(available: seq<Worker>): (k: nat)
    requires |available| > 0
    ensures k < |available|
  {
    var head := available[0];
    if head.prime && head.clientsNum % PoolSize < |available| then head.clientsNum % PoolSize else 0
  }

  /**
   * One `getThread`: count the utilization, let a prime head overwrite the
   * routing preference, and remove and hand out the chosen worker.
   */
  function Acquired(p: Pool): (r: (Pool, Worker))
    requires |p.available| > 0
    ensures r.0.utilizations == p.utilizations + 1
    ensures |r.0.available| == |p.available| - 1
    ensures Ids(r.0.available) + multiset{r.1.id} == Ids(p.available)
    ensures r.1 == p.available[ChosenIndex(p.available)]
    ensures r.0.available == RemoveAt(p.available, ChosenIndex(p.available))
  {
    var head := p.available[0];
    var k := ChosenIndex(p.available);
    IdsRemoveAt(p.available, k);
    (Pool(RemoveAt(p.available, k), p.utilizations + 1,
          if head.prime then head.clientsNum % PoolSize else p.preference),
     p.available[k])
  }

  /** One `returnThread`: the worker goes to the back of the list. */
  function Released(p: Pool, w: Worker): (r: Pool)
    ensures |r.available| == |p.available| + 1
    ensures r.available[..|p.available|] == p.available && r.available[|p.available|] == w
    ensures Ids(r.available) == Ids(p.available) + multiset{w.id}
    ensures r.utilizations == p.utilizations && r.preference == p.preference
  {
    IdsAppend(p.available, [w]);
    assert Ids([w]) == multiset{w.id} by {
      assert [w][1..] == [];
    }
    p.(available := p.available + [w])
  }

  /** A head that is not prime is handed out itself: plain FIFO order. */
  lemma FifoWhenHeadNotPrime(p: Pool)
    requires |p.available| > 0 && !p.available[0].prime
    ensures Acquired(p).1 == p.available[0]
    ensures Acquired(p).0.available == p.available[1..]
    ensures Acquired(p).0.preference == p.preference
  {
  }

  /**
   * A prime head routes to index `clientsNum % 5` when the list is long
   * enough, and falls back to itself otherwise; either way that index
   * becomes the preference.
   */
  lemma PrimeHeadRoutes(p: Pool)
    requires |p.available| > 0 && p.available[0].prime
    ensures var pref := p.available[0].clientsNum % PoolSize;
      && Acquired(p).0.preference == pref
      && (pref < |p.available| ==> Acquired(p).1 == p.available[pref])
      && (pref >= |p.available| ==> Acquired(p).1 == p.available[0])
      && (pref < |p.available| ==> Acquired(p).0.available == RemoveAt(p.available, pref))
      && (pref >= |p.available| ==> Acquired(p).0.available == p.available[1..])
  {
  }

  /** The worker handed out and the list left behind do not depend on the old preference. */
  lemma ChoiceIgnoresPreference(p: Pool, other: int)
    requires |p.available| > 0
    ensures Acquired(p.(preference := other)).1 == Acquired(p).1
    ensures Acquired(p.(preference := other)).0.available == Acquired(p).0.available
  {
  }

  /** What a client does to the pool. */
  datatype Event = Acquire | Release(w: Worker)

  function Acquisitions(es: seq<Event>): (n: nat)
    ensures n <= |es|
    decreases |es|
  {
    if es == [] then 0 else (if es[0].Acquire? then 1 else 0) + Acquisitions(es[1..])
  }

  /**
   * The pool and the ids of the workers held by clients after the events
   * `es`, or `None` when an event cannot happen: an acquire on an empty pool
   * (it would wait), or the return of a worker no client holds (outside the
   * pool's contract). A returned worker may carry new routing fields.
   */
  function Replay(p: Pool, held: multiset<nat>, es: seq<Event>): Option<(Pool, multiset<nat>)>
    decreases |es|
  {
    if es == [] then Some((p, held))
    else match es[0]
      case Acquire =>
        if |p.available| == 0 then None
        else Replay(Acquired(p).0, held + multiset{Acquired(p).1.id}, es[1..])
      case Release(w) =>
        if w.id !in held then None
        else Replay(Released(p, w), held - multiset{w.id}, es[1..])
  }

  /**
   * Every worker is either idle in the pool or held by a client, never both
   * and never neither; and every acquire counts one utilization.
   */
  lemma {:induction false} Conservation(p: Pool, held: multiset<nat>, es: seq<Event>)
    requires Replay(p, held, es).Some?
    ensures Ids(Replay(p, held, es).value.0.available) + Replay(p, held, es).value.1
            == Ids(p.available) + held
    ensures Replay(p, held, es).value.0.utilizations == p.utilizations + Acquisitions(es)
    decreases |es|
  {
    if es != [] {
      match es[0]
      case Acquire =>
        Conservation(Acquired(p).0, held + multiset{Acquired(p).1.id}, es[1..]);
      case Release(w) =>
        Conservation(Released(p, w), held - multiset{w.id}, es[1..]);
    }
  }

  /** The workers the pool starts with, in creation order. */
  function InitialWorkers(): (ws: seq<Worker>)
    ensures |ws| == PoolSize
    ensures forall i :: 0 <= i < PoolSize ==> ws[i] == NewWorker(i + 1)
  {
    seq(PoolSize, i requires 0 <= i => NewWorker(i + 1))
  }

  /** The state `ThreadManager`'s constructor leaves behind. */
  const InitialPool: Pool := Pool(InitialWorkers(), 0, InitialQueuePreference)

  /**
   * Starting from a full pool (as the constructor leaves it, `InitialPool`),
   * once every client has returned its worker the pool is full again, and the
   * count has grown by the number of acquires.
   */
  lemma AllReturned(p: Pool, es: seq<Event>)
    requires |p.available| == PoolSize
    requires Replay(p, multiset{}, es).Some? && Replay(p, multiset{}, es).value.1 == multiset{}
    ensures |Replay(p, multiset{}, es).value.0.available| == PoolSize
    ensures Replay(p, multiset{}, es).value.0.utilizations == p.utilizations + Acquisitions(es)
  {
    Conservation(p, multiset{}, es);
    var q := Replay(p, multiset{}, es).value.0;
    var m, n := Ids(q.available), Ids(p.available);
    assert m + multiset{} == n + multiset{};
    assert m + multiset{} == m && n + multiset{} == n;
  }

  /** The process-wide pool (a Java enum singleton). */
  class ThreadManager {
    var workerThreads: seq<Worker>
    /** The head inspected by the last `getThread`. */
    var workerThread: Option<Worker>
    var threadUtilizations: nat
    var queuePreference: int

    function State(): Pool
      reads this
    {
      Pool(workerThreads, threadUtilizations, queuePreference)
    }

    /** Creates the five workers and puts them in the pool in creation order. */
    constructor ()
      ensures workerThreads == InitialWorkers()
      ensures workerThread == None && threadUtilizations == 0
      ensures queuePreference == InitialQueuePreference
    {
      workerThreads := [];
      workerThread := None;
      threadUtilizations := 0;
      queuePreference := InitialQueuePreference;
      new;
      var i := 1;
      while i <= PoolSize
        invariant 1 <= i <= PoolSize + 1
        invariant workerThreads == InitialWorkers()[..i - 1]
        invariant workerThread == None && threadUtilizations == 0
        invariant queuePreference == InitialQueuePreference
      {
        workerThreads := workerThreads + [NewWorker(i)];
        i := i + 1;
      }
    }

    method GetThreadUtilizations() returns (n: nat)
      ensures n == threadUtilizations
    {
      n := threadUtilizations;
    }

    /** Stores the preference modulo 5, with the sign of the argument as Java's `%` gives it. */
    method SetQueuePreference(value: int)
      requires IsInt32(value)
      modifies this`queuePreference
      ensures queuePreference == JavaRem(value, 5)
      ensures value >= 0 ==> 0 <= queuePreference < 5
    {
      queuePreference := JavaRem(value, 5);
    }

    /** Takes a worker out of the pool, as `Acquired` describes. */
    method GetThread() returns (w: Worker)
      requires |workerThreads| > 0
      modifies this
      ensures (State(), w) == Acquired(old(State()))
      ensures workerThread == Some(old(workerThreads)[0])
    {
      threadUtilizations := threadUtilizations + 1;
      workerThread := Some(workerThreads[0]);
      var head := workerThreads[0];
      var k: nat;
      if head.prime {
        queuePreference := head.clientsNum % PoolSize;
        k := if queuePreference < |workerThreads| then queuePreference else 0;
      } else {
        k := 0;
      }
      w := workerThreads[k];
      workerThreads := workerThreads[..k] + workerThreads[k + 1..];
    }

    /** Puts a worker back at the tail of the pool. */
    method ReturnThread(w: Worker)
      modifies this`workerThreads
      ensures State() == Released(old(State()), w)
    {
      workerThreads := workerThreads + [w];
    }

    /** Empties the pool once every worker has stopped. */
    method Shutdown()
      modifies this`workerThreads
      ensures workerThreads == []
    {
      workerThreads := [];
    }
  }
}
