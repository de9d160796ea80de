/**
 * The pool of HTTP service threads of the web radio's main program, with
 * dynamic threads enabled: the thread counter `httpd_tc`, the id counter
 * `httpd_id` of `StartServiceThread`, the bounded waits of `Service` for
 * free memory and for a stream, and the rule by which a worker leaves the
 * pool after each connection. Threads run one after the other here; the
 * scheduler, sockets and the request itself are parameters.
 */
module Pool {
  /** `HTTPD_MIN_THREADS`. */
  const MinThreads: int := 4
  /** `HTTPD_MAX_THREADS`. */
  const MaxThreads: int := 16
  /** The free heap `Service` waits for before serving. */
  const LowMemory: int := 8192
  /** The initial value of the countdown `wcntr`. */
  const Retries: nat := 10

  /** The two counters of the pool. */
  datatype Counters = Counters(tc: int, id: int)

  /**
   * `StartServiceThread`: below the cap the id counter is pre-incremented
   * and, if the thread is created, the thread counter goes up by one; at
   * the cap nothing happens.
   */
  function Spawn(c: Counters, created: bool): (r: Counters)
    ensures c.tc <= MaxThreads ==> r.tc <= MaxThreads
    ensures c.tc <= r.tc <= c.tc + 1 && c.id <= r.id <= c.id + 1
    ensures r.tc == c.tc + 1 <==> c.tc < MaxThreads && created
    ensures r.id == c.id + 1 <==> c.tc < MaxThreads
  {
    if c.tc >= MaxThreads then c
    else Counters(if created then c.tc + 1 else c.tc, c.id + 1)
  }

  /**
   * The end of every pass of `Service` after a socket was created: the
   * worker leaves (and the counter drops) exactly when at least
   * `HTTPD_MIN_THREADS` are counted. The result is the counters and
   * whether the worker exits.
   */
  function Leave(c: Counters): (r: (Counters, bool))
    ensures r.1 <==> c.tc >= MinThreads
    ensures r.1 ==> r.0.tc == c.tc - 1 && r.0.tc >= MinThreads - 1
    ensures !r.1 ==> r.0 == c
    ensures r.0.id == c.id
  {
    if c.tc >= MinThreads then (c.(tc := c.tc - 1), true) else (c, false)
  }

  /** What happens to the pool: a start attempt, or a worker finishing a connection attempt. */
  datatype Event = Start(created: bool) | Done

  /** The counters after a run of events; a worker that exits takes no part in later events. */
  function Run(c: Counters, events: seq<Event>): Counters
    decreases |events|
  {
    if |events| == 0 then c
    else
      var next := match events[0]
        case Start(created) => Spawn(c, created)
        case Done => Leave(c).0;
      Run(next, events[1..])
  }

  /**
   * However starts and finished connections interleave, the thread count
   * stays between 0 and `HTTPD_MAX_THREADS`, and the id counter never
   * goes down.
   */
  lemma {:induction false} RunBounded(c: Counters, events: seq<Event>)
    requires 0 <= c.tc <= MaxThreads
    ensures 0 <= Run(c, events).tc <= MaxThreads
    ensures Run(c, events).id >= c.id
    decreases |events|
  {
    if |events| > 0 {
      var next := match events[0]
        case Start(created) => Spawn(c, created)
        case Done => Leave(c).0;
      RunBounded(next, events[1..]);
    }
  }

  /** The ids of the threads created in a run, in order of creation. */
  function Ids(c: Counters, events: seq<Event>): seq<int>
    decreases |events|
  {
    if |events| == 0 then []
    else
      match events[0]
      case Start(created) =>
        var next := Spawn(c, created);
        (if created && c.tc < MaxThreads then [next.id] else []) + Ids(next, events[1..])
      case Done => Ids(Leave(c).0, events[1..])
  }

  predicate StrictlyIncreasing(s: seq<int>)
  {
    forall i, j :: 0 <= i < j < |s| ==> s[i] < s[j]
  }

  /**
   * The ids handed to new threads are all above the counter's starting
   * value and strictly increasing, so no two threads share an id.
   */
  lemma {:induction false} IdsIncrease(c: Counters, events: seq<Event>)
    ensures StrictlyIncreasing(Ids(c, events))
    ensures forall i :: 0 <= i < |Ids(c, events)| ==> c.id < Ids(c, events)[i]
    decreases |events|
  {
    if |events| > 0 {
      match events[0]
      case Start(created) =>
        var next := Spawn(c, created);
        IdsIncrease(next, events[1..]);
      case Done =>
        IdsIncrease(Leave(c).0, events[1..]);
    }
  }

  /** The attempt at which a wait succeeds, if it does within `Retries + 1` attempts. */
  predicate Admits(ok: nat -> bool)
  {
    exists i: nat :: i <= Retries && ok(i)
  }

  /**
   * The countdown of `Service`: `wcntr = 10; while (!ok) { if (wcntr--)
   * NutSleep(10); else break; }`, where `ok(i)` is the outcome of the
   * `i`-th test. It sleeps at most ten times and ends with `wcntr >= 0`
   * exactly when a test succeeded, after as many sleeps as failed tests.
   */
  method Countdown(ok: nat -> bool) returns (wcntr: int, sleeps: nat)
    ensures -1 <= wcntr <= Retries && sleeps <= Retries
    ensures wcntr >= 0 <==> Admits(ok)
    ensures wcntr >= 0 ==> ok(sleeps) && wcntr == Retries - sleeps
    ensures forall i: nat :: i < sleeps ==> !ok(i)
  {
    wcntr := Retries;
    sleeps := 0;
    while !ok(sleeps)
      invariant 0 <= sleeps <= Retries && wcntr == Retries - sleeps
      invariant forall i: nat :: i < sleeps ==> !ok(i)
      decreases wcntr
    {
      var was := wcntr;
      wcntr := wcntr - 1;
      if was != 0 {
        sleeps := sleeps + 1;
      } else {
        break;
      }
    }
  }

  /** The test of the memory wait: `NutHeapAvailable() >= 8192` at reading `i`. */
  function EnoughMemory(heap: nat -> int): nat -> bool
  {
    (i: nat) => heap(i) >= LowMemory
  }

  /** One thing a pass of `Service` does, in order. */
  datatype Step = Spawned | Served

  /** The thread-pool state shared by the service threads. */
  class Workers {
    /** `httpd_tc`. */
    var tc: int
    /** `httpd_id`, the static counter of `StartServiceThread`. */
    var id: int
    /** The ids of the threads created so far. */
    ghost var created: seq<int>

    ghost predicate Valid()
      reads this
    {
      0 <= tc <= MaxThreads && 0 <= id
      && StrictlyIncreasing(created)
      && forall i :: 0 <= i < |created| ==> 0 < created[i] <= id
    }

    constructor()
      ensures Valid() && tc == 0 && id == 0 && created == []
    {
      tc := 0;
      id := 0;
      created := [];
    }

    /** `StartServiceThread`, where `ok` says whether `NutThreadCreate` succeeds. */
    method StartServiceThread(ok: bool) returns (started: bool)
      requires Valid()
      modifies this
      ensures Valid()
      ensures Counters(tc, id) == Spawn(old(Counters(tc, id)), ok)
      ensures started <==> old(tc) < MaxThreads && ok
      ensures created == old(created) + (if started then [id] else [])
    {
      started := false;
      if tc >= MaxThreads {
        return;
      }
      id := id + 1;
      if ok {
        tc := tc + 1;
        created := created + [id];
        started := true;
      }
    }

    /**
     * The start-up loop of the main program: `HTTPD_MIN_THREADS` calls of
     * `StartServiceThread`, where `ok(i)` says whether the `i`-th succeeds.
     */
    method StartAll(ok: nat -> bool) returns (count: nat)
      requires Valid() && tc == 0
      modifies this
      ensures Valid()
      ensures tc == count && count <= MinThreads && id == old(id) + MinThreads
      ensures count == MinThreads <==> forall i: nat :: i < MinThreads ==> ok(i)
    {
      count := 0;
      var i: nat := 0;
      while i < MinThreads
        invariant Valid() && i <= MinThreads
        invariant tc == count && count <= i && id == old(id) + i
        invariant count == i <==> forall j: nat :: j < i ==> ok(j)
      {
        var started := StartServiceThread(ok(i));
        if started {
          count := count + 1;
        }
        i := i + 1;
      }
    }

    /**
     * One pass of the `for (;;)` loop of `Service`. `socket` says whether a
     * socket could be created, `accepted` whether `NutTcpAccept` succeeded,
     * `heap(i)` is the `i`-th reading of the free heap and `stream(i)`
     * whether the `i`-th `_fdopen` succeeds, `ok` whether the replacement
     * thread is created. The connection is served only when both waits
     * succeed, and a replacement is requested just before; then the exit
     * rule applies, whether or not the connection was served. Without a
     * socket the pass ends early, and the exit rule is skipped.
     */
    method ServiceRound(socket: bool, accepted: bool, heap: nat -> int, stream: nat -> bool, ok: bool)
      returns (steps: seq<Step>, exits: bool)
      requires Valid()
      modifies this
      ensures Valid()
      ensures steps == [] || steps == [Spawned, Served]
      ensures steps == [Spawned, Served] <==>
                socket && accepted && Admits(EnoughMemory(heap)) && Admits(stream)
      ensures !socket ==> !exits && tc == old(tc) && id == old(id) && created == old(created)
      ensures socket ==>
                var mid := if steps == [] then old(Counters(tc, id)) else Spawn(old(Counters(tc, id)), ok);
                (Counters(tc, id), exits) == Leave(mid)
      ensures exits ==> tc >= MinThreads - 1
      ensures socket && steps == [] && old(tc) >= MinThreads ==> exits && tc == old(tc) - 1
    {
      steps := [];
      exits := false;
      if !socket {
        return;
      }
      if accepted {
        var wcntr, sleeps := Countdown(EnoughMemory(heap));
        if wcntr >= 0 {
          var left, tries := Countdown(stream);
          if left >= 0 {
            var started := StartServiceThread(ok);
            steps := [Spawned, Served];
          }
        }
      }
      if tc >= MinThreads {
        tc := tc - 1;
        exits := true;
      }
    }
  }
}
