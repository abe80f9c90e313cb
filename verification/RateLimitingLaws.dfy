/** Eviction is invisible while clocks lag little, and admissions are bounded over whole runs. */
module RateLimitingLaws {
  import opened Outcome
  import opened RateLimiting

  function Unevicting(limits: Limits): Limits {
    limits.(evictAbove := None)
  }

  // ---- Eviction is invisible ----

  /** The evicting map is the full one less entries that some served request already found stale. */
  ghost predicate Agrees(limits: Limits, trace: seq<Request>, kept: Clients, full: Clients) {
    kept.Keys <= full.Keys &&
    (forall k :: k in kept ==> kept[k] == full[k]) &&
    (forall k :: k in full && k !in kept ==> exists i :: 0 <= i < |trace| && Stale(full[k], limits, trace[i].now))
  }

  /** A request treats both maps alike: an evicted entry would have been restarted anyway. */
  lemma ChargesAlike(limits: Limits, trace: seq<Request>, kept: Clients, full: Clients, r: Request, slack: int)
    requires slack <= limits.window + 1
    requires WithinSlack(trace + [r], slack)
    requires Agrees(limits, trace, kept, full)
    ensures Charge(kept, limits, r) == Charge(full, Unevicting(limits), r)
  {
    if r.key in full && r.key !in kept {
      var i :| 0 <= i < |trace| && Stale(full[r.key], limits, trace[i].now);
      assert (trace + [r])[i] == trace[i] && (trace + [r])[|trace|] == r;
    }
  }

  lemma AgreementKept(limits: Limits, trace: seq<Request>, kept: Clients, full: Clients, r: Request)
    requires Agrees(limits, trace, kept, full)
    requires Charge(kept, limits, r) == Charge(full, Unevicting(limits), r)
    ensures Agrees(limits, trace + [r], Settle(kept, limits, r), Settle(full, Unevicting(limits), r))
  {
    hide Stale, Charge;
    var kept', full' := Settle(kept, limits, r), Settle(full, Unevicting(limits), r);
    forall k | k in full' && k !in kept'
      ensures exists i :: 0 <= i < |trace + [r]| && Stale(full'[k], limits, (trace + [r])[i].now)
    {
      if k in kept || k == r.key {
        assert Stale(full'[k], limits, (trace + [r])[|trace|].now);
      } else {
        var i :| 0 <= i < |trace| && Stale(full[k], limits, trace[i].now);
        assert Stale(full'[k], limits, (trace + [r])[i].now);
      }
    }
  }

  lemma {:induction false} EvictionInvisible(limits: Limits, trace: seq<Request>, slack: int)
    requires slack <= limits.window + 1 && WithinSlack(trace, slack)
    ensures Decisions(limits, trace) == Decisions(Unevicting(limits), trace)
    ensures Agrees(limits, trace, ClientsAfter(limits, trace), ClientsAfter(Unevicting(limits), trace))
  {
    hide Agrees, Settle, Charge;
    if trace == [] {
      EmptyAgrees(limits);
    } else {
      var front, r := trace[..|trace| - 1], trace[|trace| - 1];
      assert trace == front + [r];
      EvictionInvisible(limits, front, slack);
      var kept, full := ClientsAfter(limits, front), ClientsAfter(Unevicting(limits), front);
      ChargesAlike(limits, front, kept, full, r, slack);
      AgreementKept(limits, front, kept, full, r);
    }
  }

  lemma EmptyAgrees(limits: Limits)
    ensures Agrees(limits, [], map[], map[])
  {
  }

  // ---- One tick more of lag makes it visible ----

  function Repeat(r: Request, n: nat): (s: seq<Request>)
    ensures |s| == n && forall i :: 0 <= i < n ==> s[i] == r
  {
    seq(n, _ => r)
  }

  /** `n` different clients, none of them "a", all at one time. */
  function Crowd(n: nat, now: int): (s: seq<Request>)
    ensures |s| == n && forall i :: 0 <= i < n ==> s[i].now == now
  {
    seq(n, i requires i >= 0 => Request(CrowdKey(i), now))
  }

  function CrowdKey(i: nat): (k: string)
    ensures |k| == i + 2
  {
    seq(i + 2, _ => 'b')
  }

  /** One client spends its capacity, enough others arrive to trigger eviction at the first tick its
      window is stale, and it returns with a lagging time inside its old window. */
  function LaggingTrace(limits: Limits): seq<Request>
    requires limits.evictAbove.Some? && limits.window >= 1
  {
    Repeat(Request("a", 0), limits.capacity)
      + Crowd(limits.evictAbove.value + 1, 2 * limits.window + 1)
      + [Request("a", limits.window - 1)]
  }

  lemma {:induction false} AfterRepeat(limits: Limits, n: nat)
    requires limits.window >= 1
    ensures n > 0 ==> ClientsAfter(limits, Repeat(Request("a", 0), n)) == map["a" := Window(0, n)]
    ensures n == 0 ==> ClientsAfter(limits, Repeat(Request("a", 0), n)) == map[]
  {
    if n > 0 {
      AfterRepeat(limits, n - 1);
      assert Repeat(Request("a", 0), n)[..n - 1] == Repeat(Request("a", 0), n - 1);
    }
  }

  function CrowdKeys(n: nat): set<string> {
    set i | 0 <= i < n :: CrowdKey(i)
  }

  lemma CrowdGrows(n: nat)
    ensures CrowdKeys(n + 1) == CrowdKeys(n) + {CrowdKey(n)}
    ensures "a" !in CrowdKeys(n) && CrowdKey(n) !in CrowdKeys(n) && CrowdKey(n) != "a"
  {
    forall k | k in CrowdKeys(n) ensures 2 <= |k| < n + 2 {
    }
  }

  lemma {:induction false} CrowdKeysSize(n: nat)
    ensures |{"a"} + CrowdKeys(n)| == n + 1
  {
    hide CrowdKeys, CrowdKey;
    if n > 0 {
      CrowdKeysSize(n - 1);
      CrowdGrows(n - 1);
      assert {"a"} + CrowdKeys(n) == {"a"} + CrowdKeys(n - 1) + {CrowdKey(n - 1)};
    } else {
      assert CrowdKeys(0) == {} by { NoCrowd(); }
    }
  }

  lemma NoCrowd()
    ensures CrowdKeys(0) == {}
  {
  }

  /** Nobody evicted: "a" with its capacity spent and the first `n` of the crowd are in the map. */
  ghost predicate AllPresent(limits: Limits, m: Clients, n: nat) {
    m.Keys == {"a"} + CrowdKeys(n) && m["a"] == Window(0, limits.capacity)
  }

  lemma CrowdStep(limits: Limits, m: Clients, n: nat)
    requires limits.evictAbove.Some? && limits.window >= 1
    requires "a" !in m || AllPresent(limits, m, n)
    ensures var next := Settle(m, limits, Request(CrowdKey(n), 2 * limits.window + 1));
            "a" !in next || (AllPresent(limits, next, n + 1) && n + 2 <= limits.evictAbove.value)
  {
    hide CrowdKey, CrowdKeys;
    CrowdGrows(n);
    CrowdKeysSize(n + 1);
    var r := Request(CrowdKey(n), 2 * limits.window + 1);
    var charged := m[r.key := Charge(m, limits, r)];
    if "a" in m {
      assert charged.Keys == {"a"} + CrowdKeys(n + 1);
      assert |charged| == |charged.Keys|;
      assert Stale(charged["a"], limits, r.now);
    }
  }

  /** After `n` of the crowd: either "a" has been evicted, or nobody has and the map is still small. */
  lemma {:induction false} AfterCrowdEvicting(limits: Limits, n: nat)
    requires limits.evictAbove.Some? && limits.window >= 1 && limits.capacity >= 1
    ensures var m := ClientsAfter(limits, Repeat(Request("a", 0), limits.capacity) + Crowd(n, 2 * limits.window + 1));
            "a" !in m || (AllPresent(limits, m, n) && (n > 0 ==> n + 1 <= limits.evictAbove.value))
  {
    hide AllPresent, Settle, CrowdKey, CrowdKeys;
    var late := 2 * limits.window + 1;
    var before := Repeat(Request("a", 0), limits.capacity);
    if n == 0 {
      AfterRepeat(limits, limits.capacity);
      assert before + Crowd(0, late) == before;
      OnlyFirst(limits);
    } else {
      AfterCrowdEvicting(limits, n - 1);
      var trace := before + Crowd(n, late);
      assert trace[..|trace| - 1] == before + Crowd(n - 1, late);
      CrowdStep(limits, ClientsAfter(limits, trace[..|trace| - 1]), n - 1);
    }
  }

  lemma OnlyFirst(limits: Limits)
    ensures AllPresent(limits, map["a" := Window(0, limits.capacity)], 0)
  {
    NoCrowd();
  }

  lemma {:induction false} AfterCrowdKeeping(limits: Limits, n: nat)
    requires limits.evictAbove.None? && limits.window >= 1 && limits.capacity >= 1
    ensures var m := ClientsAfter(limits, Repeat(Request("a", 0), limits.capacity) + Crowd(n, 2 * limits.window + 1));
            "a" in m && m["a"] == Window(0, limits.capacity)
  {
    var late := 2 * limits.window + 1;
    var before := Repeat(Request("a", 0), limits.capacity);
    if n == 0 {
      AfterRepeat(limits, limits.capacity);
      assert before + Crowd(0, late) == before;
    } else {
      AfterCrowdKeeping(limits, n - 1);
      var trace := before + Crowd(n, late);
      assert trace[..|trace| - 1] == before + Crowd(n - 1, late);
    }
  }

  lemma LaggingTraceSlack(limits: Limits)
    requires limits.evictAbove.Some? && limits.window >= 1
    ensures WithinSlack(LaggingTrace(limits), limits.window + 2)
  {
  }

  lemma LastDecision(limits: Limits, front: seq<Request>, last: Request)
    ensures Decisions(limits, front + [last])[|front|] == Admits(ClientsAfter(limits, front), limits, last)
  {
    assert (front + [last])[..|front|] == front;
  }

  /** One tick more of lag and the client whose spent window was evicted is admitted again. */
  lemma EvictionVisible(limits: Limits)
    requires limits.evictAbove.Some? && limits.window >= 1 && limits.capacity >= 1
    ensures WithinSlack(LaggingTrace(limits), limits.window + 2)
    ensures Decisions(limits, LaggingTrace(limits)) != Decisions(Unevicting(limits), LaggingTrace(limits))
  {
    hide Decisions, ClientsAfter, WithinSlack, Repeat, Crowd;
    LaggingTraceSlack(limits);
    var n, last := limits.evictAbove.value + 1, Request("a", limits.window - 1);
    var front := Repeat(Request("a", 0), limits.capacity) + Crowd(n, 2 * limits.window + 1);
    AfterCrowdEvicting(limits, n);
    AfterCrowdKeeping(Unevicting(limits), n);
    LastDecision(limits, front, last);
    LastDecision(Unevicting(limits), front, last);
  }

  /** For any eviction threshold: eviction changes no decision on any trace whose clocks lag by at
      most `slack` if and only if `slack` is at most one window and one tick. */
  lemma EvictionInvisibleExactly(limits: Limits, slack: int)
    requires limits.evictAbove.Some? && limits.window >= 1 && limits.capacity >= 1
    ensures (forall trace :: WithinSlack(trace, slack) ==>
               Decisions(limits, trace) == Decisions(Unevicting(limits), trace))
       <==> slack <= limits.window + 1
  {
    if slack <= limits.window + 1 {
      forall trace | WithinSlack(trace, slack)
        ensures Decisions(limits, trace) == Decisions(Unevicting(limits), trace)
      {
        EvictionInvisible(limits, trace, slack);
      }
    } else {
      EvictionVisible(limits);
      assert WithinSlack(LaggingTrace(limits), slack);
    }
  }

  /** At most 2000 clients, or whatever the threshold, and none is dropped; above it none stays whose window
      started more than two windows ago. Nobody else's count changes. */
  lemma ClientsKept(clients: Clients, limits: Limits, r: Request, key: string)
    requires limits.evictAbove.Some?
    ensures var after := Settle(clients, limits, r);
            (|clients.Keys + {r.key}| <= limits.evictAbove.value ==> after.Keys == clients.Keys + {r.key}) &&
            (|clients.Keys + {r.key}| > limits.evictAbove.value ==>
               forall k :: k in after ==> r.now - after[k].started <= 2 * limits.window) &&
            (key in clients && key != r.key && r.now - clients[key].started <= 2 * limits.window ==> key in after) &&
            (key in after && key != r.key ==> key in clients && after[key] == clients[key])
  {
    var charged := clients[r.key := Charge(clients, limits, r)];
    assert charged.Keys == clients.Keys + {r.key};
    assert |charged| == |charged.Keys|;
    hide Charge;
  }

  // ---- Admission bounds ----

  predicate InInterval(now: int, from: int, length: int) {
    from <= now < from + length
  }

  /** Admissions of `key` at times from `from` up to one window later. */
  function AdmittedFrom(limits: Limits, trace: seq<Request>, key: string, from: int): nat {
    if trace == [] then 0
    else
      var front, r := trace[..|trace| - 1], trace[|trace| - 1];
      AdmittedFrom(limits, front, key, from)
      + if r.key == key && InInterval(r.now, from, limits.window)
           && Admits(ClientsAfter(limits, front), limits, r) then 1 else 0
  }

  /** Admissions of `key` counted against the window that started at `started`. */
  function AdmittedIn(limits: Limits, trace: seq<Request>, key: string, started: int): nat {
    if trace == [] then 0
    else
      var front, r := trace[..|trace| - 1], trace[|trace| - 1];
      AdmittedIn(limits, front, key, started)
      + if r.key == key && Charge(ClientsAfter(limits, front), limits, r).started == started
           && Admits(ClientsAfter(limits, front), limits, r) then 1 else 0
  }

  function Least(a: int, b: int): int {
    if a <= b then a else b
  }

  function Entry(clients: Clients, key: string): Option<Window> {
    if key in clients then Some(clients[key]) else None
  }

  /** Every stored window was opened by a request already served. */
  lemma {:induction false} OpenedEarlier(limits: Limits, trace: seq<Request>, key: string, now: int)
    requires limits.evictAbove.None? && limits.window > 0
    requires forall i :: 0 <= i < |trace| ==> trace[i].now <= now
    requires key in ClientsAfter(limits, trace)
    ensures ClientsAfter(limits, trace)[key].started <= now && ClientsAfter(limits, trace)[key].count >= 1
  {
    var front, r := trace[..|trace| - 1], trace[|trace| - 1];
    if key in ClientsAfter(limits, front) {
      OpenedEarlier(limits, front, key, now);
    }
  }

  /** The earliest start of a window that can still count requests from `from` on. */
  function FirstStart(limits: Limits, from: int): int {
    from - limits.window + 1
  }

  /** The latest start of a window that a request from before `from + window` can be counted against, its
      clock being at most `slack` behind the one that opened the window. */
  function LastStart(limits: Limits, from: int, slack: nat): int {
    from + limits.window - 1 + slack
  }

  /** How many windows, one length apart or more, can have started from `FirstStart` up to `started`. */
  function WindowsUpTo(limits: Limits, from: int, started: int): int
    requires limits.window > 0
  {
    (started - FirstStart(limits, from)) / limits.window + 1
  }

  /** How many windows can count requests of one interval a window long. */
  function WindowsMet(window: int, slack: nat): int
    requires window > 0
  {
    (2 * window - 2 + slack) / window + 1
  }

  /** All `n` windows full. The request that opens a window is dated at its start, and only one of the
      starts lies in the interval, so each window but one has spent a count outside it. */
  function Filled(limits: Limits, n: int): int {
    n * (limits.capacity - 1) + 1
  }

  /** What can have been admitted in the interval when the running window is `w`. */
  function Room(limits: Limits, w: Option<Window>, from: int, slack: nat): int
    requires limits.window > 0
  {
    match w
    case None => 0
    case Some(w) =>
      if w.started < FirstStart(limits, from) then 0
      else if w.started > LastStart(limits, from, slack) then Filled(limits, WindowsMet(limits.window, slack))
      else Filled(limits, WindowsUpTo(limits, from, w.started) - 1) - 1 + Least(w.count, limits.capacity) - 1
           + if w.started >= from then 1 else 0
  }

  lemma FilledGrows(limits: Limits, m: int, n: int)
    requires limits.capacity >= 1 && m <= n
    ensures Filled(limits, m) <= Filled(limits, n)
    ensures Filled(limits, m) + limits.capacity - 1 == Filled(limits, m + 1)
  {
    ProductGrows(m, n, limits.capacity - 1);
  }

  lemma ProductGrows(m: int, n: int, c: int)
    requires m <= n && c >= 0
    ensures m * c <= n * c
    ensures (m + 1) * c == m * c + c
  {
    var d := n - m;
    assert d * c >= 0;
    assert n * c == m * c + d * c;
  }

  /** A window later there is room for one more window. */
  lemma OneWindowOn(limits: Limits, from: int, started: int, later: int)
    requires limits.window > 0 && started + limits.window <= later
    ensures WindowsUpTo(limits, from, started) + 1 <= WindowsUpTo(limits, from, later)
  {
    var w, a, c := limits.window, started - FirstStart(limits, from), later - FirstStart(limits, from);
    NextQuotient(a, w);
    Quotients(a + w, c, w);
  }

  lemma ProductNonNegative(d: int, w: int)
    requires d >= 0 && w > 0
    ensures d * w >= 0
  {
  }

  lemma ProductSplits(q: int, d: int, w: int)
    ensures (q + 1 + d) * w == q * w + w + d * w
  {
  }

  lemma ProductOrder(q: int, p: int, w: int)
    requires w > 0 && q < p
    ensures q * w + w <= p * w
  {
    var d := p - q - 1;
    ProductNonNegative(d, w);
    ProductSplits(q, d, w);
    assert p == q + 1 + d;
  }

  /** A quotient is told by the two multiples around the dividend. */
  lemma QuotientOf(a: int, w: int, q: int)
    requires w > 0 && q * w <= a < q * w + w
    ensures a / w == q
  {
    var p := a / w;
    assert p * w <= a < p * w + w;
    if p < q {
      ProductOrder(p, q, w);
    } else if q < p {
      ProductOrder(q, p, w);
    }
  }

  lemma Quotients(a: int, c: int, w: int)
    requires w > 0 && a <= c
    ensures a / w <= c / w
  {
    var p, q := a / w, c / w;
    assert p * w <= a && c < q * w + w;
    if q < p {
      ProductOrder(q, p, w);
    }
  }

  lemma NextQuotient(a: int, w: int)
    requires w > 0
    ensures (a + w) / w == a / w + 1
  {
    var q := a / w;
    assert (q + 1) * w == q * w + w;
    QuotientOf(a + w, w, q + 1);
  }

  lemma AtLeastOneWindow(limits: Limits, from: int, started: int)
    requires limits.window > 0 && started >= FirstStart(limits, from)
    ensures WindowsUpTo(limits, from, started) >= 1
  {
    Quotients(0, started - FirstStart(limits, from), limits.window);
  }

  lemma AtMostAllWindows(limits: Limits, from: int, slack: nat, started: int)
    requires limits.window > 0 && started <= LastStart(limits, from, slack)
    ensures WindowsUpTo(limits, from, started) <= WindowsMet(limits.window, slack)
  {
    Quotients(started - FirstStart(limits, from), 2 * limits.window - 2 + slack, limits.window);
  }

  /** No window leaves more room than all of them full. */
  lemma RoomAtMostFilled(limits: Limits, w: Option<Window>, from: int, slack: nat)
    requires limits.window > 0 && limits.capacity >= 1
    ensures Room(limits, w, from, slack) <= Filled(limits, WindowsMet(limits.window, slack))
  {
    hide WindowsUpTo, WindowsMet, Filled;
    AtMostAllWindows(limits, from, slack, FirstStart(limits, from));
    AtLeastOneWindow(limits, from, FirstStart(limits, from));
    FilledGrows(limits, 0, WindowsMet(limits.window, slack));
    assert Filled(limits, 0) == 1 by { NoneFilled(limits); }
    if w.Some? && FirstStart(limits, from) <= w.value.started <= LastStart(limits, from, slack) {
      var n := WindowsUpTo(limits, from, w.value.started);
      AtMostAllWindows(limits, from, slack, w.value.started);
      FilledGrows(limits, n - 1, n);
      FilledGrows(limits, n, WindowsMet(limits.window, slack));
    }
  }

  lemma NoneFilled(limits: Limits)
    ensures Filled(limits, 0) == 1
  {
  }

  /** The room grows with every admission inside the interval. */
  lemma RoomGrows(limits: Limits, w: Option<Window>, next: Window, now: int, from: int, slack: nat, admitted: int)
    requires limits.window > 0 && limits.capacity >= 1 && admitted <= Room(limits, w, from, slack)
    requires w.Some? ==> w.value.count >= 1
    requires next == (if w.None? || now - w.value.started >= limits.window then Window(now, 1)
                      else Window(w.value.started, w.value.count + 1))
    requires next.started <= now + slack
    ensures admitted + (if InInterval(now, from, limits.window) && next.count <= limits.capacity then 1 else 0)
         <= Room(limits, Some(next), from, slack)
  {
    hide WindowsUpTo, WindowsMet, Filled;
    NoneFilled(limits);
    RoomAtMostFilled(limits, w, from, slack);
    if w.Some? && now - w.value.started < limits.window {
    } else if FirstStart(limits, from) <= now <= LastStart(limits, from, slack) {
      var n := WindowsUpTo(limits, from, now);
      AtLeastOneWindow(limits, from, now);
      FilledGrows(limits, 0, n - 1);
      if w.Some? && w.value.started >= FirstStart(limits, from) {
        var m := WindowsUpTo(limits, from, w.value.started);
        OneWindowOn(limits, from, w.value.started, now);
        FilledGrows(limits, m - 1, m);
        FilledGrows(limits, m, n - 1);
      }
    }
  }

  lemma {:induction false} AdmittedWithinRoom(limits: Limits, trace: seq<Request>, key: string, from: int, slack: nat)
    requires limits.evictAbove.None? && limits.window > 0 && limits.capacity >= 1 && WithinSlack(trace, slack)
    ensures AdmittedFrom(limits, trace, key, from) <= Room(limits, Entry(ClientsAfter(limits, trace), key), from, slack)
  {
    hide Room, FirstStart, LastStart;
    if trace == [] {
      assert Room(limits, None, from, slack) == 0 by { NoRoomYet(limits, from, slack); }
    } else {
      var front, r := trace[..|trace| - 1], trace[|trace| - 1];
      var before := Entry(ClientsAfter(limits, front), key);
      AdmittedWithinRoom(limits, front, key, from, slack);
      if r.key == key {
        if before.Some? {
          OpenedEarlier(limits, front, key, r.now + slack);
        }
        RoomGrows(limits, before, Charge(ClientsAfter(limits, front), limits, r), r.now, from, slack,
                  AdmittedFrom(limits, front, key, from));
      }
    }
  }

  lemma NoRoomYet(limits: Limits, from: int, slack: nat)
    requires limits.window > 0
    ensures Room(limits, None, from, slack) == 0
  {
  }

  /** Any interval one window long admits a client at most once per place left in the windows that can
      count it: with `n` of them, `n * (capacity - 1) + 1` times. For any eviction threshold and clocks
      that lag no more than eviction tolerates. */
  lemma AdmissionBound(limits: Limits, trace: seq<Request>, key: string, from: int, slack: nat)
    requires limits.window > 0 && slack <= limits.window + 1 && WithinSlack(trace, slack)
    ensures AdmittedFrom(limits, trace, key, from)
         <= if limits.capacity == 0 then 0 else WindowsMet(limits.window, slack) * (limits.capacity - 1) + 1
  {
    AdmittedSame(limits, trace, key, from, 0, slack);
    if limits.capacity == 0 {
      NothingAdmitted(limits, trace, key, from);
    } else {
      AdmittedWithinRoom(Unevicting(limits), trace, key, from, slack);
      RoomAtMostFilled(Unevicting(limits), Entry(ClientsAfter(Unevicting(limits), trace), key), from, slack);
    }
  }

  lemma {:induction false} NothingAdmitted(limits: Limits, trace: seq<Request>, key: string, from: int)
    requires limits.capacity == 0
    ensures AdmittedFrom(limits, trace, key, from) == 0
  {
    if trace != [] {
      var front, r := trace[..|trace| - 1], trace[|trace| - 1];
      NothingAdmitted(limits, front, key, from);
      CountsAreNatural(ClientsAfter(limits, front), limits, r);
    }
  }

  lemma CountsAreNatural(clients: Clients, limits: Limits, r: Request)
    ensures Charge(clients, limits, r).count >= 1
  {
  }

  /** In figures: at most `2 * capacity - 1` while clocks lag one tick at most, lock order included, and at
      most `3 * capacity - 2` for any lag that eviction tolerates. */
  lemma AdmissionBoundInFigures(limits: Limits, trace: seq<Request>, key: string, from: int, slack: nat)
    requires limits.window > 0 && slack <= limits.window + 1 && WithinSlack(trace, slack) && limits.capacity >= 1
    ensures slack <= 1 ==> AdmittedFrom(limits, trace, key, from) <= 2 * limits.capacity - 1
    ensures AdmittedFrom(limits, trace, key, from) <= 3 * limits.capacity - 2
  {
    hide AdmittedFrom, WithinSlack;
    var n, c := WindowsMet(limits.window, slack), limits.capacity - 1;
    AdmissionBound(limits, trace, key, from, slack);
    FewWindows(limits.window, slack);
    if slack <= 1 {
      assert (2 - n) * c >= 0;
    }
    assert (3 - n) * c >= 0;
  }

  /** At most two windows meet an interval while clocks lag one tick at most, and never more than three. */
  lemma FewWindows(window: int, slack: nat)
    requires window > 0 && slack <= window + 1
    ensures 1 <= WindowsMet(window, slack) <= 3
    ensures slack <= 1 ==> WindowsMet(window, slack) <= 2
    ensures slack >= 2 ==> WindowsMet(window, slack) == 3
  {
    var w := window;
    Quotients(0, 2 * w - 2 + slack, w);
    Quotients(2 * w - 2 + slack, 3 * w - 1, w);
    assert (3 * w - 1) / w == 2 by { QuotientTwo(w); }
    if slack <= 1 {
      Quotients(2 * w - 2 + slack, 2 * w - 1, w);
      assert (2 * w - 1) / w == 1 by { QuotientOne(w); }
    } else {
      Quotients(2 * w, 2 * w - 2 + slack, w);
    }
  }

  lemma QuotientOne(w: int)
    requires w > 0
    ensures (2 * w - 1) / w == 1
  {
    QuotientOf(2 * w - 1, w, 1);
  }

  lemma QuotientTwo(w: int)
    requires w > 0
    ensures (3 * w - 1) / w == 2
  {
    QuotientOf(3 * w - 1, w, 2);
  }

  lemma {:induction false} AdmittedSame(limits: Limits, trace: seq<Request>, key: string, from: int, started: int,
                                        slack: int)
    requires limits.window > 0 && slack <= limits.window + 1 && WithinSlack(trace, slack)
    ensures AdmittedFrom(limits, trace, key, from) == AdmittedFrom(Unevicting(limits), trace, key, from)
    ensures AdmittedIn(limits, trace, key, started) == AdmittedIn(Unevicting(limits), trace, key, started)
  {
    hide Charge, Settle, Agrees;
    if trace != [] {
      var front, r := trace[..|trace| - 1], trace[|trace| - 1];
      assert trace == front + [r];
      AdmittedSame(limits, front, key, from, started, slack);
      EvictionInvisible(limits, front, slack);
      ChargesAlike(limits, front, ClientsAfter(limits, front), ClientsAfter(Unevicting(limits), front), r, slack);
    }
  }

  function WindowShare(limits: Limits, w: Option<Window>, started: int): int {
    match w
    case None => 0
    case Some(w) =>
      if w.started < started then 0
      else if w.started == started then Least(w.count, limits.capacity)
      else limits.capacity
  }

  lemma {:induction false} AdmittedWithinShare(limits: Limits, trace: seq<Request>, key: string, started: int)
    requires limits.evictAbove.None? && limits.window > 0
    ensures AdmittedIn(limits, trace, key, started)
         <= WindowShare(limits, Entry(ClientsAfter(limits, trace), key), started)
  {
    if trace != [] {
      var front := trace[..|trace| - 1];
      AdmittedWithinShare(limits, front, key, started);
    }
  }

  /** Each fixed window admits a client at most `capacity` times, for clocks that lag no more than eviction
      tolerates. */
  lemma WindowBound(limits: Limits, trace: seq<Request>, key: string, started: int, slack: int)
    requires limits.window > 0 && slack <= limits.window + 1 && WithinSlack(trace, slack)
    ensures AdmittedIn(limits, trace, key, started) <= limits.capacity
  {
    AdmittedSame(limits, trace, key, 0, started, slack);
    AdmittedWithinShare(Unevicting(limits), trace, key, started);
  }

  /** The window start a served request was counted against. */
  function StartOf(limits: Limits, trace: seq<Request>, i: nat): int
    requires i < |trace|
  {
    Charge(ClientsAfter(limits, trace[..i]), limits, trace[i]).started
  }

  lemma {:induction false} StartReached(limits: Limits, trace: seq<Request>, i: nat, j: nat)
    requires limits.evictAbove.None? && limits.window > 0 && i < j <= |trace|
    ensures trace[i].key in ClientsAfter(limits, trace[..j])
    ensures var s, e := StartOf(limits, trace, i), ClientsAfter(limits, trace[..j])[trace[i].key].started;
            e == s || s + limits.window <= e
  {
    assert trace[..j][..j - 1] == trace[..j - 1];
    if i < j - 1 {
      StartReached(limits, trace, i, j - 1);
    }
  }

  /** Any two windows of one client start at the same time or at least a window apart, for any
      eviction threshold while clocks lag no more than eviction tolerates. */
  lemma WindowStartsApart(limits: Limits, trace: seq<Request>, slack: int, i: nat, j: nat)
    requires limits.window > 0 && slack <= limits.window + 1 && WithinSlack(trace, slack)
    requires i < j < |trace| && trace[i].key == trace[j].key
    ensures StartOf(limits, trace, j) == StartOf(limits, trace, i)
         || StartOf(limits, trace, i) + limits.window <= StartOf(limits, trace, j)
  {
    StartSame(limits, trace, slack, i);
    StartSame(limits, trace, slack, j);
    StartReached(Unevicting(limits), trace, i, j);
  }

  lemma StartSame(limits: Limits, trace: seq<Request>, slack: int, i: nat)
    requires slack <= limits.window + 1 && WithinSlack(trace, slack) && i < |trace|
    ensures StartOf(limits, trace, i) == StartOf(Unevicting(limits), trace, i)
  {
    hide Charge, Agrees;
    var front := trace[..i];
    EvictionInvisible(limits, front, slack);
    assert front + [trace[i]] == trace[..i + 1];
    ChargesAlike(limits, front, ClientsAfter(limits, front), ClientsAfter(Unevicting(limits), front), trace[i], slack);
  }

  // ---- The interval bound is met ----

  function BurstTrace(limits: Limits): seq<Request>
    requires limits.capacity >= 1
  {
    [Request("a", 0)]
      + Repeat(Request("a", limits.window - 1), limits.capacity - 1)
      + Repeat(Request("a", limits.window), limits.capacity)
  }

  lemma OneMore(limits: Limits, front: seq<Request>, r: Request, from: int)
    ensures ClientsAfter(limits, front + [r]) == Settle(ClientsAfter(limits, front), limits, r)
    ensures AdmittedFrom(limits, front + [r], r.key, from) == AdmittedFrom(limits, front, r.key, from)
              + if InInterval(r.now, from, limits.window)
                   && Admits(ClientsAfter(limits, front), limits, r) then 1 else 0
  {
    assert (front + [r])[..|front|] == front;
  }

  lemma FirstRequest(limits: Limits)
    requires limits.evictAbove.None? && limits.window >= 2
    ensures ClientsAfter(limits, [Request("a", 0)]) == map["a" := Window(0, 1)]
    ensures AdmittedFrom(limits, [Request("a", 0)], "a", limits.window - 1) == 0
  {
    assert [Request("a", 0)][..0] == [];
  }

  lemma {:induction false} FirstBurst(limits: Limits, n: nat)
    requires limits.evictAbove.None? && limits.window >= 2 && n < limits.capacity
    ensures var trace := [Request("a", 0)] + Repeat(Request("a", limits.window - 1), n);
            ClientsAfter(limits, trace) == map["a" := Window(0, n + 1)] &&
            AdmittedFrom(limits, trace, "a", limits.window - 1) == n
  {
    hide ClientsAfter, AdmittedFrom;
    if n == 0 {
      FirstRequest(limits);
      assert [Request("a", 0)] + Repeat(Request("a", limits.window - 1), 0) == [Request("a", 0)];
    } else {
      FirstBurst(limits, n - 1);
      var front := [Request("a", 0)] + Repeat(Request("a", limits.window - 1), n - 1);
      var last := Request("a", limits.window - 1);
      assert [Request("a", 0)] + Repeat(last, n) == front + [last];
      OneMore(limits, front, last, limits.window - 1);
    }
  }

  lemma {:induction false} SecondBurst(limits: Limits, first: seq<Request>, n: nat)
    requires limits.evictAbove.None? && limits.window >= 2 && 1 <= limits.capacity && n <= limits.capacity
    requires first == [Request("a", 0)] + Repeat(Request("a", limits.window - 1), limits.capacity - 1)
    ensures var trace := first + Repeat(Request("a", limits.window), n);
            (n == 0 ==> trace == first) &&
            (n > 0 ==> ClientsAfter(limits, trace) == map["a" := Window(limits.window, n)]) &&
            AdmittedFrom(limits, trace, "a", limits.window - 1) == limits.capacity - 1 + n
  {
    hide ClientsAfter, AdmittedFrom;
    FirstBurst(limits, limits.capacity - 1);
    if n == 0 {
      assert first + Repeat(Request("a", limits.window), n) == first;
    } else {
      SecondBurst(limits, first, n - 1);
      var front := first + Repeat(Request("a", limits.window), n - 1);
      assert first + Repeat(Request("a", limits.window), n) == front + [Request("a", limits.window)];
      OneMore(limits, front, Request("a", limits.window), limits.window - 1);
    }
  }

  lemma BurstInOrder(limits: Limits)
    requires limits.window >= 2 && limits.capacity >= 1
    ensures WithinSlack(BurstTrace(limits), 0)
  {
    hide Repeat;
    var trace := BurstTrace(limits);
    forall i, j | 0 <= i < j < |trace| ensures trace[i].now <= trace[j].now {
    }
  }

  /** `AdmissionBound` cannot be improved: a burst at the end of one window and the start of the next
      is admitted `2 * capacity - 1` times within one window's length. */
  lemma AdmissionBoundMet(limits: Limits)
    requires limits.window >= 2 && limits.capacity >= 1
    ensures WithinSlack(BurstTrace(limits), 0)
    ensures AdmittedFrom(limits, BurstTrace(limits), "a", limits.window - 1) == 2 * limits.capacity - 1
  {
    hide ClientsAfter, AdmittedFrom, WithinSlack;
    BurstInOrder(limits);
    AdmittedSame(limits, BurstTrace(limits), "a", limits.window - 1, 0, 0);
    var first := [Request("a", 0)] + Repeat(Request("a", limits.window - 1), limits.capacity - 1);
    SecondBurst(Unevicting(limits), first, limits.capacity);
  }

  /** A third burst, charged to a window that a request two ticks ahead has already opened. */
  function LagBurstTrace(limits: Limits): seq<Request>
    requires limits.capacity >= 1
  {
    BurstTrace(limits) + [Request("a", 2 * limits.window)]
      + Repeat(Request("a", 2 * limits.window - 2), limits.capacity - 1)
  }

  lemma {:induction false} ThirdBurst(limits: Limits, n: nat)
    requires limits.evictAbove.None? && limits.window >= 2 && n < limits.capacity
    ensures var trace := BurstTrace(limits) + [Request("a", 2 * limits.window)]
                       + Repeat(Request("a", 2 * limits.window - 2), n);
            ClientsAfter(limits, trace) == map["a" := Window(2 * limits.window, n + 1)] &&
            AdmittedFrom(limits, trace, "a", limits.window - 1) == 2 * limits.capacity - 1 + n
  {
    hide ClientsAfter, AdmittedFrom;
    var opening, late := Request("a", 2 * limits.window), Request("a", 2 * limits.window - 2);
    var begun := BurstTrace(limits) + [opening];
    if n == 0 {
      var first := [Request("a", 0)] + Repeat(Request("a", limits.window - 1), limits.capacity - 1);
      SecondBurst(limits, first, limits.capacity);
      OneMore(limits, BurstTrace(limits), opening, limits.window - 1);
      assert begun + Repeat(late, 0) == begun;
    } else {
      ThirdBurst(limits, n - 1);
      var front := begun + Repeat(late, n - 1);
      assert begun + Repeat(late, n) == front + [late];
      OneMore(limits, front, late, limits.window - 1);
    }
  }

  lemma LagBurstSlack(limits: Limits)
    requires limits.window >= 2 && limits.capacity >= 1
    ensures WithinSlack(LagBurstTrace(limits), 2)
  {
    hide Repeat;
    var trace := LagBurstTrace(limits);
    forall i, j | 0 <= i < j < |trace| ensures trace[i].now - 2 <= trace[j].now {
    }
  }

  /** Nor can the bound for lagging clocks: with two ticks of lag `3 * capacity - 2` are admitted within
      one window's length. */
  lemma AdmissionBoundMetByLag(limits: Limits)
    requires limits.window >= 2 && limits.capacity >= 1
    ensures WithinSlack(LagBurstTrace(limits), 2)
    ensures AdmittedFrom(limits, LagBurstTrace(limits), "a", limits.window - 1) == 3 * limits.capacity - 2
  {
    hide ClientsAfter, AdmittedFrom, WithinSlack;
    LagBurstSlack(limits);
    AdmittedSame(limits, LagBurstTrace(limits), "a", limits.window - 1, 0, 2);
    ThirdBurst(Unevicting(limits), limits.capacity - 1);
  }
}
