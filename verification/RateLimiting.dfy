/** The fixed-window rate limiter with eviction of stale clients. Time is counted in integer ticks;
    a client the map does not hold is the source's zero entry. */
module RateLimiting {
  import opened Outcome

  datatype Window = Window(started: int, count: nat)

  type Clients = map<string, Window>

  /** `evictAbove` is the map size above which stale entries are deleted; `None` never deletes. */
  datatype Limits = Limits(capacity: nat, window: int, evictAbove: Option<nat>)

  datatype Request = Request(key: string, now: int)

  const EVICT_ABOVE: nat := 2000

  /** The entry a request leaves behind: a fresh window, or one more count in the running one. */
  function Charge(clients: Clients, limits: Limits, r: Request): Window {
    if r.key !in clients || r.now - clients[r.key].started >= limits.window then Window(r.now, 1)
    else Window(clients[r.key].started, clients[r.key].count + 1)
  }

  predicate Stale(entry: Window, limits: Limits, now: int) {
    now - entry.started > limits.window * 2
  }

  function Evict(clients: Clients, limits: Limits, now: int): Clients {
    map k | k in clients && !Stale(clients[k], limits, now) :: clients[k]
  }

  /** The client map after a request. */
  function Settle(clients: Clients, limits: Limits, r: Request): Clients {
    var charged := clients[r.key := Charge(clients, limits, r)];
    if limits.evictAbove.Some? && |charged| > limits.evictAbove.value then Evict(charged, limits, r.now)
    else charged
  }

  predicate Admits(clients: Clients, limits: Limits, r: Request) {
    Charge(clients, limits, r).count <= limits.capacity
  }

  class RateLimiter {
    const capacity: nat
    const window: int
    var clients: Clients

    constructor (capacity: nat, window: int)
      ensures this.capacity == capacity && this.window == window && clients == map[]
    {
      this.capacity, this.window, clients := capacity, window, map[];
    }

    function Limited(): Limits {
      Limits(capacity, window, Some(EVICT_ABOVE))
    }

    /** The critical section of the middleware: whether the request passes, and the map it leaves. */
    method Allow(key: string, now: int) returns (admitted: bool)
      modifies this`clients
      ensures Limited() == Limits(capacity, window, Some(2000))
      ensures admitted == Admits(old(clients), Limited(), Request(key, now))
      ensures clients == Settle(old(clients), Limited(), Request(key, now))
    {
      var entry := if key in clients then clients[key] else Window(now, 0);
      if key !in clients || now - entry.started >= window {
        entry := Window(now, 0);
      }
      entry := entry.(count := entry.count + 1);
      clients := clients[key := entry];
      if |clients| > EVICT_ABOVE {
        var todo := clients.Keys;
        ghost var charged := clients;
        while todo != {}
          invariant todo <= clients.Keys <= charged.Keys
          invariant forall k :: k in clients ==> clients[k] == charged[k]
          invariant forall k :: k in charged && k !in todo ==> (k in clients <==> !Stale(charged[k], Limited(), now))
          decreases todo
        {
          var itemKey :| itemKey in todo;
          if now - clients[itemKey].started > window * 2 {
            clients := clients - {itemKey};
          }
          todo := todo - {itemKey};
        }
        assert clients == Evict(charged, Limited(), now);
      }
      var remaining := capacity - entry.count;
      return remaining >= 0;
    }
  }

  // ---- Whole runs ----

  function ClientsAfter(limits: Limits, trace: seq<Request>): Clients {
    if trace == [] then map[]
    else Settle(ClientsAfter(limits, trace[..|trace| - 1]), limits, trace[|trace| - 1])
  }

  /** Which requests of the trace pass. */
  function Decisions(limits: Limits, trace: seq<Request>): (d: seq<bool>)
    ensures |d| == |trace|
  {
    if trace == [] then []
    else
      var front, last := trace[..|trace| - 1], trace[|trace| - 1];
      Decisions(limits, front) + [Admits(ClientsAfter(limits, front), limits, last)]
  }

  /** No request carries a time more than `slack` before one served earlier. */
  predicate WithinSlack(trace: seq<Request>, slack: int) {
    forall i, j :: 0 <= i < j < |trace| ==> trace[i].now - slack <= trace[j].now
  }
}
