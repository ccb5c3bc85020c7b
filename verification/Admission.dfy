// Per-IP admission (irc/threaded_server.cpp) and the release of slots by the worker
// threads (irc/worker.cpp). Every mutex-protected section is one step.
module Admission {
  import opened Options
  import opened Lists

  // IPv4 address in host order; 0 when the peer name could not be read.
  type Ip = nat
  type Counts = map<Ip, int>

  // QHash::operator[] reads a missing entry as 0.
  function Get(counts: Counts, ip: Ip): int {
    if ip in counts then counts[ip] else 0
  }

  // The admission section: None when refused. The lookup stores the entry it reads.
  function Counted(counts: Counts, max: int, ip: Ip): Counts {
    if ip == 0 then counts
    else if Get(counts, ip) >= max then counts[ip := Get(counts, ip)]
    else counts[ip := Get(counts, ip) + 1]
  }

  predicate Admits(counts: Counts, max: int, ip: Ip) {
    ip == 0 || Get(counts, ip) < max
  }

  // A released slot lowers the count, and the entry goes when nothing is left of it.
  function ReleasedSlot(counts: Counts, ip: Ip): Counts {
    if Get(counts, ip) - 1 <= 0 then counts - {ip} else counts[ip := Get(counts, ip) - 1]
  }

  // ----- The classes

  // The QHash that the server owns and every worker refers to.
  class ActiveConnections {
    var table: Counts

    constructor ()
      ensures table == map[]
    {
      table := map[];
    }
  }

  class Worker {
    const m_activeConnections: ActiveConnections
    var connections: seq<nat>

    constructor (active: ActiveConnections)
      ensures m_activeConnections == active && connections == []
    {
      m_activeConnections := active;
      connections := [];
    }

    // `descriptorSet` is the outcome of setSocketDescriptor, `websocket` whether the
    // connection goes to the WebSocket handshake, where it keeps its slot.
    method HandleConnection(conn: nat, peer_ip: Ip, descriptorSet: bool, websocket: bool)
      modifies this, m_activeConnections
      ensures m_activeConnections.table
           == if descriptorSet then old(m_activeConnections.table)
              else ReleasedSlot(old(m_activeConnections.table), peer_ip)
      ensures connections == if descriptorSet && !websocket then old(connections) + [conn] else old(connections)
    {
      if !descriptorSet {
        Release(peer_ip);
        return;
      }
      if websocket {
        return;
      }
      connections := connections + [conn];
    }

    method Release(peer_ip: Ip)
      modifies m_activeConnections
      ensures m_activeConnections.table == ReleasedSlot(old(m_activeConnections.table), peer_ip)
    {
      var count := Get(m_activeConnections.table, peer_ip) - 1;
      m_activeConnections.table := m_activeConnections.table[peer_ip := count];
      if count <= 0 {
        m_activeConnections.table := m_activeConnections.table - {peer_ip};
      }
    }

    // The handler of `disconnected`. Dropping the connection from the list destroys
    // it, so it runs once per connection.
    method OnDisconnected(conn: nat, peer_ip: Ip)
      modifies this, m_activeConnections
      ensures m_activeConnections.table == ReleasedSlot(old(m_activeConnections.table), peer_ip)
      ensures connections == Without(old(connections), conn)
    {
      Release(peer_ip);
      connections := Without(connections, conn);
    }
  }

  class ThreadedServer {
    const activeConnections: ActiveConnections
    const m_max_per_ip: int
    const m_thread_count: nat
    var m_next_worker: nat

    ghost predicate Valid()
      reads this
    {
      m_next_worker < m_thread_count
    }

    constructor (thread_count: nat, max_per_ip: int)
      requires 0 < thread_count < 0x8000
      ensures Valid() && fresh(activeConnections) && activeConnections.table == map[]
      ensures m_thread_count == thread_count && m_max_per_ip == max_per_ip && m_next_worker == 0
    {
      activeConnections := new ActiveConnections();
      m_thread_count, m_max_per_ip, m_next_worker := thread_count, max_per_ip, 0;
    }

    // The worker the connection is handed to, or None when it is closed.
    method IncomingConnection(remote_ip: Ip) returns (worker: Option<nat>)
      requires Valid()
      modifies this, activeConnections
      ensures Valid()
      ensures activeConnections.table == Counted(old(activeConnections.table), m_max_per_ip, remote_ip)
      ensures if Admits(old(activeConnections.table), m_max_per_ip, remote_ip)
              then worker == Some(old(m_next_worker)) && m_next_worker == (old(m_next_worker) + 1) % m_thread_count
              else worker == None && m_next_worker == old(m_next_worker)
    {
      if remote_ip != 0 {
        var n := Get(activeConnections.table, remote_ip);
        activeConnections.table := activeConnections.table[remote_ip := n];
        if n >= m_max_per_ip {
          return None;
        }
        activeConnections.table := activeConnections.table[remote_ip := n + 1];
      }
      worker := Some(m_next_worker);
      m_next_worker := (m_next_worker + 1) % m_thread_count;
    }
  }

  // ----- Runs over all interleavings

  datatype Phase = Queued | Serving | Released

  datatype Conn = Conn(ip: Ip, phase: Phase)

  // `loads[w]` counts the connections dispatched to worker w.
  datatype State = State(counts: Counts, conns: seq<Conn>, next: nat, loads: seq<nat>)

  datatype Config = Config(max: int, threads: nat)

  // Pickup: a worker takes the connection up, as a client or for a WebSocket
  // handshake. Fail: its socket cannot be set up. Disconnect: a served connection ends.
  datatype Event = Accept(ip: Ip) | Pickup(id: nat) | Fail(id: nat) | Disconnect(id: nat)

  predicate Enabled(s: State, e: Event) {
    match e
    case Accept(_) => true
    case Pickup(id) => id < |s.conns| && s.conns[id].phase == Queued
    case Fail(id) => id < |s.conns| && s.conns[id].phase == Queued
    case Disconnect(id) => id < |s.conns| && s.conns[id].phase == Serving
  }

  function MovedTo(conns: seq<Conn>, id: nat, phase: Phase): seq<Conn>
    requires id < |conns|
  {
    conns[id := conns[id].(phase := phase)]
  }

  function Step(cfg: Config, s: State, e: Event): State
    requires cfg.threads > 0 && |s.loads| == cfg.threads && s.next < cfg.threads && Enabled(s, e)
  {
    match e
    case Accept(ip) =>
      if Admits(s.counts, cfg.max, ip) then
        State(Counted(s.counts, cfg.max, ip), s.conns + [Conn(ip, Queued)],
              (s.next + 1) % cfg.threads, s.loads[s.next := s.loads[s.next] + 1])
      else s.(counts := Counted(s.counts, cfg.max, ip))
    case Pickup(id) => s.(conns := MovedTo(s.conns, id, Serving))
    case Fail(id) => s.(counts := ReleasedSlot(s.counts, s.conns[id].ip), conns := MovedTo(s.conns, id, Released))
    case Disconnect(id) => s.(counts := ReleasedSlot(s.counts, s.conns[id].ip), conns := MovedTo(s.conns, id, Released))
  }

  function Initial(cfg: Config): State {
    State(map[], [], 0, seq(cfg.threads, _ => 0))
  }

  // `s` is reached from the initial state by `run`.
  ghost predicate Reaches(cfg: Config, run: seq<Event>, s: State)
    requires cfg.threads > 0
  {
    if run == [] then s == Initial(cfg)
    else exists before ::
      && Reaches(cfg, run[..|run| - 1], before)
      && |before.loads| == cfg.threads && before.next < cfg.threads
      && Enabled(before, run[|run| - 1])
      && s == Step(cfg, before, run[|run| - 1])
  }

  // Connections of `ip` admitted and not yet released.
  function Holding(conns: seq<Conn>, ip: Ip): nat {
    if conns == [] then 0
    else
      var c := conns[|conns| - 1];
      Holding(conns[..|conns| - 1], ip) + if c.ip == ip && c.phase != Released then 1 else 0
  }

  lemma {:induction false} HoldingMoved(conns: seq<Conn>, id: nat, phase: Phase, ip: Ip)
    requires id < |conns| && conns[id].phase != Released
    ensures Holding(MovedTo(conns, id, phase), ip)
         == Holding(conns, ip) - if conns[id].ip == ip && phase == Released then 1 else 0
  {
    var n := |conns| - 1;
    var moved := MovedTo(conns, id, phase);
    if id < n {
      HoldingMoved(conns[..n], id, phase, ip);
      assert moved[..n] == MovedTo(conns[..n], id, phase);
    } else {
      assert moved[..n] == conns[..n];
    }
  }

  lemma {:induction false} SomeoneHolds(conns: seq<Conn>, id: nat)
    requires id < |conns| && conns[id].phase != Released
    ensures Holding(conns, conns[id].ip) >= 1
  {
    if id < |conns| - 1 {
      SomeoneHolds(conns[..|conns| - 1], id);
    }
  }

  // The table counts exactly the slots in use, within the limit, and keeps no dead
  // entry; worker loads follow the cursor.
  ghost predicate Inv(cfg: Config, s: State) {
    && (forall ip :: ip != 0 ==> Get(s.counts, ip) == Holding(s.conns, ip))
    && (forall ip :: ip != 0 ==> Holding(s.conns, ip) <= if cfg.max > 0 then cfg.max else 0)
    && 0 !in s.counts
    && (cfg.max >= 1 ==> forall ip :: ip in s.counts ==> s.counts[ip] >= 1)
  }

  ghost predicate Balanced(cfg: Config, s: State) {
    && 0 < cfg.threads == |s.loads| && s.next < cfg.threads
    && forall w :: 0 <= w < cfg.threads ==> s.loads[w] == s.loads[cfg.threads - 1] + if w < s.next then 1 else 0
  }

  lemma ReleaseKeepsInv(cfg: Config, s: State, id: nat)
    requires Inv(cfg, s) && id < |s.conns| && s.conns[id].phase != Released
    ensures Inv(cfg, s.(counts := ReleasedSlot(s.counts, s.conns[id].ip), conns := MovedTo(s.conns, id, Released)))
  {
    SomeoneHolds(s.conns, id);
    forall ip
      ensures Holding(MovedTo(s.conns, id, Released), ip)
           == Holding(s.conns, ip) - if s.conns[id].ip == ip then 1 else 0
    {
      HoldingMoved(s.conns, id, Released, ip);
    }
  }

  lemma StepKeepsInv(cfg: Config, s: State, e: Event)
    requires Balanced(cfg, s) && Inv(cfg, s) && Enabled(s, e)
    ensures Inv(cfg, Step(cfg, s, e))
  {
    match e
    case Accept(peer) =>
      assert (s.conns + [Conn(peer, Queued)])[..|s.conns|] == s.conns;
    case Pickup(id) =>
      forall ip ensures Holding(MovedTo(s.conns, id, Serving), ip) == Holding(s.conns, ip) {
        HoldingMoved(s.conns, id, Serving, ip);
      }
    case Fail(id) => ReleaseKeepsInv(cfg, s, id);
    case Disconnect(id) => ReleaseKeepsInv(cfg, s, id);
  }

  lemma StepKeepsBalance(cfg: Config, s: State, e: Event)
    requires Balanced(cfg, s) && Enabled(s, e)
    ensures Balanced(cfg, Step(cfg, s, e))
  {
    hide Counted, ReleasedSlot, Admits;
    NextWorker(s.next, cfg.threads);
  }

  lemma NextWorker(next: nat, threads: nat)
    requires next < threads
    ensures (next + 1) % threads == if next + 1 == threads then 0 else next + 1
  {
  }

  // Over every interleaving, from an empty server on.
  lemma {:induction false} EveryRunKeepsInv(cfg: Config, run: seq<Event>, s: State)
    requires cfg.threads > 0 && Reaches(cfg, run, s)
    ensures Inv(cfg, s) && Balanced(cfg, s)
  {
    if run != [] {
      var before :| && Reaches(cfg, run[..|run| - 1], before)
                    && |before.loads| == cfg.threads && before.next < cfg.threads
                    && Enabled(before, run[|run| - 1])
                    && s == Step(cfg, before, run[|run| - 1]);
      EveryRunKeepsInv(cfg, run[..|run| - 1], before);
      StepKeepsInv(cfg, before, run[|run| - 1]);
      StepKeepsBalance(cfg, before, run[|run| - 1]);
    }
  }

  // The accounting a caller can rely on: exact, within the limit, and gone with the
  // last connection.
  lemma SlotsAreExact(cfg: Config, run: seq<Event>, s: State, ip: Ip)
    requires cfg.threads > 0 && cfg.max >= 1 && ip != 0 && Reaches(cfg, run, s)
    ensures Get(s.counts, ip) == Holding(s.conns, ip) <= cfg.max
    ensures ip in s.counts <==> Holding(s.conns, ip) > 0
    ensures Admits(s.counts, cfg.max, ip) <==> Holding(s.conns, ip) < cfg.max
  {
    EveryRunKeepsInv(cfg, run, s);
  }

  // A peer without a known address is admitted whatever the limit, and never counted.
  lemma UnknownPeerIsFree(cfg: Config, run: seq<Event>, s: State)
    requires cfg.threads > 0 && Reaches(cfg, run, s)
    ensures Admits(s.counts, cfg.max, 0) && 0 !in s.counts
    ensures |s.loads| == cfg.threads && s.next < cfg.threads && Step(cfg, s, Accept(0)).counts == s.counts
    ensures Step(cfg, s, Accept(0)).conns == s.conns + [Conn(0, Queued)]
  {
    EveryRunKeepsInv(cfg, run, s);
  }

  lemma LoadsDifferByOne(cfg: Config, run: seq<Event>, s: State, v: nat, w: nat)
    requires cfg.threads > 0 && Reaches(cfg, run, s) && v < cfg.threads && w < cfg.threads
    ensures |s.loads| == cfg.threads && s.loads[v] <= s.loads[w] + 1
  {
    EveryRunKeepsInv(cfg, run, s);
  }

  // Without a positive limit the refusal itself leaves an entry of 0 behind.
  lemma NoLimitLeavesDeadEntries(cfg: Config, ip: Ip)
    requires cfg.threads > 0 && ip != 0
    ensures var s := Step(cfg, Initial(cfg), Accept(ip));
            Reaches(cfg, [Accept(ip)], s) && (ip in s.counts && s.counts[ip] <= 0 <==> cfg.max <= 0)
  {
    var run := [Accept(ip)];
    assert run[..0] == [];
    assert Reaches(cfg, run[..0], Initial(cfg));
  }
}
