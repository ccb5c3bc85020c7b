// web/ratelimiter.cpp: a fixed-window limiter per address, and what it admits over
// whole runs. Time is in milliseconds, as QDateTime keeps it.
module RateLimiter {

  datatype Entry = Entry(count: int, windowStart: int)

  type Table = map<string, Entry>

  datatype Config = Config(maxRequests: int, windowSeconds: int)

  datatype Answer = Allowed | Refused(retryAfter: int)

  // Integer division of C++: towards zero.
  function TruncDiv(a: int, b: int): int
    requires b > 0
  {
    if a >= 0 then a / b else -(-a / b)
  }

  // QDateTime::secsTo
  function SecsTo(from: int, to: int): int {
    TruncDiv(to - from, 1000)
  }

  function Span(cfg: Config): int {
    1000 * cfg.windowSeconds
  }

  // The most requests one window admits: its first is never refused.
  function PerWindow(cfg: Config): int {
    if cfg.maxRequests > 1 then cfg.maxRequests else 1
  }

  function Ask(cfg: Config, table: Table, addr: string, now: int): Answer {
    if addr !in table || SecsTo(table[addr].windowStart, now) >= cfg.windowSeconds then Allowed
    else if table[addr].count < cfg.maxRequests then Allowed
    else Refused(table[addr].windowStart + Span(cfg))
  }

  function Next(cfg: Config, table: Table, addr: string, now: int): Table {
    if addr !in table || SecsTo(table[addr].windowStart, now) >= cfg.windowSeconds then
      table[addr := Entry(1, now)]
    else if table[addr].count < cfg.maxRequests then
      table[addr := table[addr].(count := table[addr].count + 1)]
    else table
  }

  class RateLimiter {
    var m_table: Table
    const m_cfg: Config

    constructor (max_requests: int, window_seconds: int)
      ensures m_cfg == Config(max_requests, window_seconds) && m_table == map[]
    {
      m_cfg := Config(max_requests, window_seconds);
      m_table := map[];
    }

    // `now` and `later` are the two readings of the clock; `seconds` goes into the
    // message of a refusal.
    method Check(addr: string, now: int, later: int) returns (allowed: bool, retryAfter: int, seconds: int)
      modifies this
      ensures m_table == Next(m_cfg, old(m_table), addr, now)
      ensures allowed <==> Ask(m_cfg, old(m_table), addr, now) == Allowed
      ensures !allowed ==> Ask(m_cfg, old(m_table), addr, now) == Refused(retryAfter)
      ensures !allowed ==> seconds == SecsTo(later, retryAfter)
    {
      if addr !in m_table {
        m_table := m_table[addr := Entry(1, now)];
        return true, 0, 0;
      }
      var e := m_table[addr];
      var elapsed := SecsTo(e.windowStart, now);
      if elapsed >= m_cfg.windowSeconds {
        m_table := m_table[addr := Entry(1, now)];
        return true, 0, 0;
      }
      if e.count < m_cfg.maxRequests {
        m_table := m_table[addr := e.(count := e.count + 1)];
        return true, 0, 0;
      }
      var retry := e.windowStart + 1000 * m_cfg.windowSeconds;
      return false, retry, SecsTo(later, retry);
    }
  }

  // ----- Runs

  datatype Request = Request(addr: string, now: int)

  function After(cfg: Config, reqs: seq<Request>): Table {
    if reqs == [] then map[]
    else
      var q := reqs[|reqs| - 1];
      Next(cfg, After(cfg, reqs[..|reqs| - 1]), q.addr, q.now)
  }

  // The answer to one more request after a run.
  function Asked(cfg: Config, reqs: seq<Request>, q: Request): Answer {
    Ask(cfg, After(cfg, reqs), q.addr, q.now)
  }

  ghost predicate NonDecreasing(reqs: seq<Request>) {
    forall i, j :: 0 <= i < j < |reqs| ==> reqs[i].now <= reqs[j].now
  }

  lemma SecsToReaches(from: int, to: int, seconds: int)
    requires from <= to
    ensures SecsTo(from, to) >= seconds <==> to - from >= 1000 * seconds || (seconds <= 0)
  {
  }

  // Every window began at or before the last request.
  lemma {:induction false} WindowsArePast(cfg: Config, reqs: seq<Request>, addr: string)
    requires NonDecreasing(reqs)
    ensures addr in After(cfg, reqs) ==>
              reqs != [] && After(cfg, reqs)[addr].windowStart <= reqs[|reqs| - 1].now
              && 1 <= After(cfg, reqs)[addr].count <= PerWindow(cfg)
  {
    if reqs != [] {
      WindowsArePast(cfg, reqs[..|reqs| - 1], addr);
    }
  }

  // ----- How much a stretch of time admits

  // Requests of `addr` admitted at times a <= now < a + window.
  function Admitted(cfg: Config, reqs: seq<Request>, addr: string, a: int): nat {
    if reqs == [] then 0
    else
      var front, q := reqs[..|reqs| - 1], reqs[|reqs| - 1];
      Admitted(cfg, front, addr, a)
        + if q.addr == addr && a <= q.now < a + Span(cfg) && Asked(cfg, front, q) == Allowed then 1 else 0
  }

  lemma {:induction false} NothingBefore(cfg: Config, reqs: seq<Request>, addr: string, a: int)
    requires forall i :: 0 <= i < |reqs| ==> reqs[i].now < a
    ensures Admitted(cfg, reqs, addr, a) == 0
  {
    if reqs != [] {
      NothingBefore(cfg, reqs[..|reqs| - 1], addr, a);
    }
  }

  // The window that is open bounds what has been admitted so far: a window opened
  // before `a` has spent at least one request outside, one opened inside may follow
  // a window's worth, and one opened after adds nothing.
  ghost predicate Bounded(cfg: Config, table: Table, addr: string, a: int, admitted: int) {
    var m := PerWindow(cfg);
    if addr !in table then admitted == 0
    else
      var e := table[addr];
      if e.windowStart < a then admitted <= e.count - 1
      else if e.windowStart < a + Span(cfg) then admitted <= m - 1 + e.count
      else admitted <= 2 * m - 1
  }

  lemma {:induction false} AdmittedIsBounded(cfg: Config, reqs: seq<Request>, addr: string, a: int)
    requires NonDecreasing(reqs)
    ensures Bounded(cfg, After(cfg, reqs), addr, a, Admitted(cfg, reqs, addr, a))
  {
    if reqs != [] {
      var front, q := reqs[..|reqs| - 1], reqs[|reqs| - 1];
      AdmittedIsBounded(cfg, front, addr, a);
      WindowsArePast(cfg, front, addr);
      if q.now < a {
        NothingBefore(cfg, front, addr, a);
      }
      if addr in After(cfg, front) {
        SecsToReaches(After(cfg, front)[addr].windowStart, q.now, cfg.windowSeconds);
      }
    }
  }

  // Any window-long stretch admits at most 2 * max - 1 requests of one address.
  lemma AtMostTwoWindowsLessOne(cfg: Config, reqs: seq<Request>, addr: string, a: int)
    requires NonDecreasing(reqs)
    ensures Admitted(cfg, reqs, addr, a) <= 2 * PerWindow(cfg) - 1
  {
    AdmittedIsBounded(cfg, reqs, addr, a);
    WindowsArePast(cfg, reqs, addr);
  }

  lemma OneMore(cfg: Config, front: seq<Request>, q: Request)
    ensures After(cfg, front + [q]) == Next(cfg, After(cfg, front), q.addr, q.now)
    ensures forall a :: Admitted(cfg, front + [q], q.addr, a)
                     == Admitted(cfg, front, q.addr, a)
                        + if a <= q.now < a + Span(cfg) && Asked(cfg, front, q) == Allowed then 1 else 0
  {
    assert (front + [q])[..|front|] == front;
  }

  // The bound is reached: one request opens a window, the rest of its quota comes at
  // the window's last millisecond, and the next window's quota right after.
  function Burst(addr: string, now: int, n: nat): (r: seq<Request>)
    ensures |r| == n && forall i :: 0 <= i < n ==> r[i] == Request(addr, now)
  {
    if n == 0 then [] else Burst(addr, now, n - 1) + [Request(addr, now)]
  }

  function Worst(cfg: Config, addr: string): seq<Request>
    requires cfg.maxRequests >= 1
  {
    [Request(addr, 0)] + Burst(addr, Span(cfg) - 1, cfg.maxRequests - 1) + Burst(addr, Span(cfg), cfg.maxRequests)
  }

  lemma {:induction false} BurstAdmitted(cfg: Config, front: seq<Request>, addr: string, now: int, n: nat, a: int)
    requires cfg.windowSeconds >= 1 && a <= now < a + Span(cfg)
    requires addr in After(cfg, front)
    requires After(cfg, front)[addr].windowStart <= now < After(cfg, front)[addr].windowStart + Span(cfg)
    requires After(cfg, front)[addr].count + n <= cfg.maxRequests
    ensures var e := After(cfg, front)[addr];
            var t := After(cfg, front + Burst(addr, now, n));
            addr in t && t[addr] == e.(count := e.count + n)
    ensures Admitted(cfg, front + Burst(addr, now, n), addr, a) == Admitted(cfg, front, addr, a) + n
  {
    hide After, Admitted;
    if n == 0 {
      assert front + Burst(addr, now, n) == front;
    } else {
      var before, q := front + Burst(addr, now, n - 1), Request(addr, now);
      BurstAdmitted(cfg, front, addr, now, n - 1, a);
      SecsToReaches(After(cfg, front)[addr].windowStart, now, cfg.windowSeconds);
      OneMore(cfg, before, q);
      assert front + Burst(addr, now, n) == before + [q];
    }
  }

  lemma OpensWindow(cfg: Config, front: seq<Request>, q: Request)
    requires q.addr !in After(cfg, front)
          || SecsTo(After(cfg, front)[q.addr].windowStart, q.now) >= cfg.windowSeconds
    ensures q.addr in After(cfg, front + [q]) && After(cfg, front + [q])[q.addr] == Entry(1, q.now)
    ensures Asked(cfg, front, q) == Allowed
  {
    OneMore(cfg, front, q);
  }

  lemma FirstWindow(cfg: Config, addr: string)
    requires cfg.maxRequests >= 1 && cfg.windowSeconds >= 1
    ensures var a := Span(cfg) - 1;
            var r := [Request(addr, 0)] + Burst(addr, a, cfg.maxRequests - 1);
            && addr in After(cfg, r) && After(cfg, r)[addr] == Entry(cfg.maxRequests, 0)
            && Admitted(cfg, r, addr, a) == cfg.maxRequests - 1
  {
    hide Burst;
    var none, q := [], Request(addr, 0);
    OpensWindow(cfg, none, q);
    OneMore(cfg, none, q);
    assert none + [q] == [q] && Admitted(cfg, none, addr, Span(cfg) - 1) == 0;
    BurstAdmitted(cfg, [q], addr, Span(cfg) - 1, cfg.maxRequests - 1, Span(cfg) - 1);
  }

  lemma BoundIsReached(cfg: Config, addr: string)
    requires cfg.maxRequests >= 1 && cfg.windowSeconds >= 1
    ensures NonDecreasing(Worst(cfg, addr))
    ensures Admitted(cfg, Worst(cfg, addr), addr, Span(cfg) - 1) == 2 * PerWindow(cfg) - 1
  {
    hide After, Admitted, Burst, Ask, Next;
    var m, span, a := cfg.maxRequests, Span(cfg), Span(cfg) - 1;
    FirstWindow(cfg, addr);
    var r, q := [Request(addr, 0)] + Burst(addr, a, m - 1), Request(addr, span);
    SecsToReaches(0, span, cfg.windowSeconds);
    OpensWindow(cfg, r, q);
    OneMore(cfg, r, q);
    BurstAdmitted(cfg, r + [q], addr, span, m - 1, a);
    BurstFront(addr, span, m);
    assert Worst(cfg, addr) == r + [q] + Burst(addr, span, m - 1);
  }

  lemma {:induction false} BurstFront(addr: string, now: int, n: nat)
    requires n > 0
    ensures Burst(addr, now, n) == [Request(addr, now)] + Burst(addr, now, n - 1)
  {
    if n > 1 {
      BurstFront(addr, now, n - 1);
    }
  }

  // ----- The announced retry time

  // After a refusal, requests of that address before the announced time are refused
  // with the same time and leave the window as it is.
  lemma {:induction false} RefusedUntil(cfg: Config, reqs: seq<Request>, more: seq<Request>, r: int)
    requires reqs != [] && NonDecreasing(reqs + more)
    requires var q := reqs[|reqs| - 1]; Asked(cfg, reqs[..|reqs| - 1], q) == Refused(r)
    requires var addr := reqs[|reqs| - 1].addr; forall i :: 0 <= i < |more| && more[i].addr == addr ==> more[i].now < r
    ensures var addr := reqs[|reqs| - 1].addr;
            var t := After(cfg, reqs + more);
            addr in t && t[addr].count >= cfg.maxRequests && t[addr].windowStart + Span(cfg) == r
    decreases |more|
  {
    var q := reqs[|reqs| - 1];
    if more == [] {
      assert reqs + more == reqs;
    } else {
      var front, last := more[..|more| - 1], more[|more| - 1];
      var all, before := reqs + more, reqs + front;
      assert all[..|all| - 1] == before && all[|all| - 1] == last;
      assert NonDecreasing(before) by {
        assert forall i :: 0 <= i < |before| ==> before[i] == all[i];
      }
      RefusedUntil(cfg, reqs, front, r);
      WindowsArePast(cfg, before, q.addr);
      assert before[|before| - 1].now <= last.now by {
        assert before[|before| - 1] == all[|all| - 2];
      }
      SecsToReaches(After(cfg, before)[q.addr].windowStart, last.now, cfg.windowSeconds);
    }
  }

  // The announced time is exact: asked again at any later moment, with anything in
  // between, the address is refused before it and allowed from it on.
  lemma RetryAfterIsExact(cfg: Config, reqs: seq<Request>, more: seq<Request>, q: Request, r: int)
    requires reqs != [] && NonDecreasing(reqs + more + [q])
    requires Asked(cfg, reqs[..|reqs| - 1], reqs[|reqs| - 1]) == Refused(r) && q.addr == reqs[|reqs| - 1].addr
    requires forall i :: 0 <= i < |more| && more[i].addr == q.addr ==> more[i].now < r
    ensures Asked(cfg, reqs + more, q) == if q.now < r then Refused(r) else Allowed
  {
    var before, all := reqs + more, reqs + more + [q];
    assert NonDecreasing(before) by {
      assert forall i :: 0 <= i < |before| ==> before[i] == all[i];
    }
    RefusedUntil(cfg, reqs, more, r);
    WindowsArePast(cfg, before, q.addr);
    assert before[|before| - 1] == all[|before| - 1] && q == all[|before|];
    SecsToReaches(After(cfg, before)[q.addr].windowStart, q.now, cfg.windowSeconds);
  }

  // ----- Addresses do not affect each other

  function Only(reqs: seq<Request>, addr: string): seq<Request> {
    if reqs == [] then []
    else if reqs[|reqs| - 1].addr == addr then Only(reqs[..|reqs| - 1], addr) + [reqs[|reqs| - 1]]
    else Only(reqs[..|reqs| - 1], addr)
  }

  function AnswersTo(cfg: Config, reqs: seq<Request>, addr: string): seq<Answer> {
    if reqs == [] then []
    else
      var front, q := reqs[..|reqs| - 1], reqs[|reqs| - 1];
      if q.addr == addr then AnswersTo(cfg, front, addr) + [Asked(cfg, front, q)] else AnswersTo(cfg, front, addr)
  }

  ghost predicate SameFor(t: Table, u: Table, addr: string) {
    (addr in t <==> addr in u) && (addr in t ==> t[addr] == u[addr])
  }

  // One step sees and changes only the entry of the address that asks.
  lemma StepIsLocal(cfg: Config, t: Table, u: Table, q: Request, addr: string)
    requires SameFor(t, u, addr)
    ensures q.addr == addr ==> SameFor(Next(cfg, t, addr, q.now), Next(cfg, u, addr, q.now), addr)
    ensures q.addr == addr ==> Ask(cfg, t, addr, q.now) == Ask(cfg, u, addr, q.now)
    ensures q.addr != addr ==> SameFor(Next(cfg, t, q.addr, q.now), u, addr)
  {
  }

  lemma {:induction false} OnlyItsOwnRequestsMatter(cfg: Config, reqs: seq<Request>, addr: string)
    ensures SameFor(After(cfg, reqs), After(cfg, Only(reqs, addr)), addr)
    ensures AnswersTo(cfg, reqs, addr) == AnswersTo(cfg, Only(reqs, addr), addr)
  {
    hide Next, Ask;
    if reqs != [] {
      var front, q := reqs[..|reqs| - 1], reqs[|reqs| - 1];
      OnlyItsOwnRequestsMatter(cfg, front, addr);
      StepIsLocal(cfg, After(cfg, front), After(cfg, Only(front, addr)), q, addr);
      if q.addr == addr {
        var own := Only(reqs, addr);
        assert own[..|own| - 1] == Only(front, addr) && own[|own| - 1] == q;
      }
    }
  }
}
