// Connection registration in irc/client_connection.cpp: the outstanding setup tasks,
// the commands that clear them, and the one attempt to finish.
module Registration {
  import opened Options
  import opened BitFlags

  const CAP_EXCHANGE: Bits := 1
  const NICK: Bits := 2
  const USER: Bits := 4

  datatype Account = Account(nick: string)

  // What a command finds outside the connection: the server password, nick syntax,
  // and the nick registry, looked up in lower case.
  datatype World = World(password: string, validNick: string -> bool, nickTaken: string -> bool)

  // `attempts` counts passes of the guard of try_finalize_setup, `welcomes` the welcome
  // bursts, `joined` the calls of add_connection, `closed` whether forceDisconnect was
  // called. `fault` is set where the source would index an empty list, throw, or
  // follow a null account; nothing runs after that.
  datatype Fault = NoFault | EmptyArguments | NickAlreadySet | NullAccount

  datatype Tally = Tally(attempts: nat, welcomes: nat, joined: nat, closed: bool)

  datatype Conn = Conn(
    tasks: Bits, ready: bool, account: Option<Account>, nick: string, pass: string,
    user: string, realname: string, loggedIn: bool, tally: Tally, fault: Fault)

  function NewConn(): Conn {
    Conn(Set(Set(Set(0, CAP_EXCHANGE), NICK), USER), false, None, "", "", "", "", false, Tally(0, 0, 0, false), NoFault)
  }

  function Closing(c: Conn): Conn {
    c.(tally := c.tally.(closed := true))
  }

  // client_connection::nick()
  function CurrentNick(c: Conn): string {
    if c.account.Some? then Shown(c.account.value.nick) else Shown(c.nick)
  }

  function Shown(nick: string): string {
    if nick == "" then "*" else nick
  }

  // try_finalize_setup
  function Finalized(w: World, c: Conn): Conn {
    if c.ready || !Empty(c.tasks) then c
    else
      var d := c.(tally := c.tally.(attempts := c.tally.attempts + 1));
      if w.password != "" && c.pass != w.password then Closing(d)
      else if c.account == None && w.nickTaken(c.nick) then Closing(d)
      else
        var acc := if c.account == None then Account(c.nick) else c.account.value;
        d.(account := Some(acc), nick := Shown(acc.nick), ready := true,
           tally := d.tally.(joined := d.tally.joined + 1, welcomes := d.tally.welcomes + 1))
  }

  datatype Command =
    | Pass(args: seq<string>)
    // `renames` is the answer of Account::setNick once registered.
    | Nick(args: seq<string>, renames: bool)
    | User(args: seq<string>)
    | Cap(args: seq<string>)
    // The outcome of AUTHENTICATE: the account logged in to, and whether a failure
    // closes the connection.
    | Authenticate(account: Option<Account>, closes: bool)
    | Other

  function OnPass(c: Conn, args: seq<string>): Conn {
    if args == [] then c else c.(pass := args[0])
  }

  function OnNick(w: World, c: Conn, args: seq<string>, renames: bool): Conn {
    if args == [] || !w.validNick(args[0]) then c
    else if c.account.Some? && w.nickTaken(args[0]) then c
    else if Has(c.tasks, NICK) then
      if c.nick != "" then c.(fault := NickAlreadySet)
      else Finalized(w, c.(nick := args[0], tasks := Clear(c.tasks, NICK)))
    else if !Empty(c.tasks) || args[0] == CurrentNick(c) then c
    else if c.account == None then c.(fault := NullAccount)
    else if renames then c.(account := Some(Account(args[0]))) else c
  }

  function OnUser(w: World, c: Conn, args: seq<string>): Conn {
    if !Has(c.tasks, USER) || |args| < 4 then c
    else
      var d := c.(user := args[0], realname := args[3]);
      if |args[0]| > 16 then Closing(d)
      else Finalized(w, d.(tasks := Clear(c.tasks, USER)))
  }

  function OnCap(w: World, c: Conn, args: seq<string>): Conn {
    if !Has(c.tasks, CAP_EXCHANGE) then c
    else if args == [] then c.(fault := EmptyArguments)
    else if args[0] == "END" then Finalized(w, c.(tasks := Clear(c.tasks, CAP_EXCHANGE)))
    else c
  }

  function OnAuthenticate(c: Conn, account: Option<Account>, closes: bool): Conn {
    match account
    case Some(acc) => c.(account := if c.account == None then Some(acc) else c.account, loggedIn := true)
    case None => if closes then Closing(c) else c
  }

  function Step(w: World, c: Conn, cmd: Command): Conn {
    if c.fault != NoFault then c
    else
      match cmd
      case Pass(args) => OnPass(c, args)
      case Nick(args, renames) => OnNick(w, c, args, renames)
      case User(args) => OnUser(w, c, args)
      case Cap(args) => OnCap(w, c, args)
      case Authenticate(account, closes) => OnAuthenticate(c, account, closes)
      case Other => c
  }

  // ----- The connection object

  class ClientConnection {
    var setup_tasks: Bits
    var is_ready: bool
    var m_account: Option<Account>
    var m_nick: string
    var m_passGiven: string
    var user: string
    var realname: string
    var logged_in: bool
    var tally: Tally
    var fault: Fault

    function State(): Conn
      reads this
    {
      Conn(setup_tasks, is_ready, m_account, m_nick, m_passGiven, user, realname, logged_in, tally, fault)
    }

    constructor ()
      ensures State() == NewConn()
    {
      setup_tasks := Set(Set(Set(0, CAP_EXCHANGE), NICK), USER);
      is_ready, m_account, logged_in := false, None, false;
      m_nick, m_passGiven, user, realname := "", "", "", "";
      tally, fault := Tally(0, 0, 0, false), NoFault;
    }

    method TryFinalizeSetup(w: World)
      modifies this
      ensures State() == Finalized(w, old(State()))
    {
      hide Empty, Shown;
      if is_ready || !Empty(setup_tasks) {
        return;
      }
      tally := tally.(attempts := tally.attempts + 1);
      if w.password != "" {
        if m_passGiven == "" || m_passGiven != w.password {
          tally := tally.(closed := true);
          return;
        }
      }
      if m_account == None && w.nickTaken(m_nick) {
        tally := tally.(closed := true);
        return;
      }
      if m_account == None {
        m_account := Some(Account(m_nick));
      }
      var account_nick := Shown(m_account.value.nick);
      if account_nick != m_nick {
        m_nick := account_nick;
      }
      tally := tally.(joined := tally.joined + 1);
      tally := tally.(welcomes := tally.welcomes + 1);
      is_ready := true;
    }

    method HandlePASS(args: seq<string>)
      modifies this
      ensures State() == OnPass(old(State()), args)
    {
      if args == [] {
        return;
      }
      m_passGiven := args[0];
    }

    // handleAUTHENTICATE once the credentials have been checked.
    method FinishAUTHENTICATE(account: Option<Account>, closes: bool)
      modifies this
      ensures State() == OnAuthenticate(old(State()), account, closes)
    {
      match account {
        case Some(acc) =>
          if m_account == None {
            m_account := account;
          }
          logged_in := true;
        case None =>
          if closes {
            tally := tally.(closed := true);
          }
      }
    }

    method HandleNICK(w: World, args: seq<string>, renames: bool)
      modifies this
      ensures State() == OnNick(w, old(State()), args, renames)
    {
      hide Has, Clear, Empty;
      if args == [] {
        return;
      }
      var new_nick := args[0];
      if !w.validNick(new_nick) {
        return;
      }
      if m_account != None && w.nickTaken(new_nick) {
        return;
      }
      if Has(setup_tasks, NICK) {
        if m_nick != "" {
          fault := NickAlreadySet;
          return;
        }
        m_nick := new_nick;
        setup_tasks := Clear(setup_tasks, NICK);
        TryFinalizeSetup(w);
        return;
      }
      if !Empty(setup_tasks) {
        return;
      }
      if new_nick == CurrentNick(State()) {
        return;
      }
      if m_account == None {
        fault := NullAccount;
        return;
      }
      if renames {
        m_account := Some(Account(new_nick));
      }
    }

    method HandleUSER(w: World, args: seq<string>)
      modifies this
      ensures State() == OnUser(w, old(State()), args)
    {
      hide Has, Clear, Empty;
      if !Has(setup_tasks, USER) || |args| < 4 {
        return;
      }
      realname := args[3];
      user := args[0];
      if |user| > 16 {
        tally := tally.(closed := true);
        return;
      }
      setup_tasks := Clear(setup_tasks, USER);
      TryFinalizeSetup(w);
    }

    method HandleCAP(w: World, args: seq<string>)
      modifies this
      ensures State() == OnCap(w, old(State()), args)
    {
      hide Has, Clear, Empty;
      if !Has(setup_tasks, CAP_EXCHANGE) {
        return;
      }
      if args == [] {
        fault := EmptyArguments;
        return;
      }
      if args[0] == "END" {
        setup_tasks := Clear(setup_tasks, CAP_EXCHANGE);
        TryFinalizeSetup(w);
      }
    }
  }

  // ----- Over all runs

  // One command and the world it runs in; the world may differ from one to the next.
  datatype Event = Event(w: World, cmd: Command)

  function Continued(c: Conn, run: seq<Event>): Conn {
    if run == [] then c
    else Step(run[|run| - 1].w, Continued(c, run[..|run| - 1]), run[|run| - 1].cmd)
  }

  function After(run: seq<Event>): Conn {
    Continued(NewConn(), run)
  }

  lemma TaskBits()
    ensures OneBit(CAP_EXCHANGE) && OneBit(NICK) && OneBit(USER)
    ensures CAP_EXCHANGE != NICK && CAP_EXCHANGE != USER && NICK != USER
  {
  }

  // No bits beside the three tasks.
  predicate Within(bits: Bits) {
    bits & 7 == bits
  }

  lemma EmptyIffNone(bits: Bits)
    requires Within(bits)
    ensures Empty(bits) <==> !Has(bits, NICK) && !Has(bits, USER) && !Has(bits, CAP_EXCHANGE)
  {
  }

  lemma ClearKeepsWithin(bits: Bits, e: Bits)
    requires Within(bits)
    ensures Within(Clear(bits, e))
  {
  }

  // What every reachable connection satisfies.
  ghost predicate Inv(c: Conn) {
    && Within(c.tasks)
    && (c.ready ==> Empty(c.tasks) && c.account.Some?)
    // the setup is attempted exactly when no task is left, and once
    && c.tally.attempts == (if Empty(c.tasks) then 1 else 0)
    && c.tally.welcomes == c.tally.joined == (if c.ready then 1 else 0)
    // the nick is free to be set while it is outstanding
    && (Has(c.tasks, NICK) ==> c.nick == "")
    && c.fault != NickAlreadySet
    // a failed attempt asked for the connection to be closed
    && (Empty(c.tasks) && !c.ready ==> c.tally.closed)
    && (c.fault == NullAccount ==> Empty(c.tasks) && !c.ready && c.tally.closed)
  }

  lemma ClearedTask(bits: Bits, e: Bits)
    requires OneBit(e) && Has(bits, e)
    ensures !Empty(bits) && !Has(Clear(bits, e), e)
  {
  }

  lemma NewConnIsGood()
    ensures Inv(NewConn()) && !NewConn().ready
    ensures Has(NewConn().tasks, CAP_EXCHANGE) && Has(NewConn().tasks, NICK) && Has(NewConn().tasks, USER)
  {
  }

  // Clearing an outstanding task and trying to finish keeps the invariant.
  lemma FinalizeKeepsInv(w: World, c: Conn, d: Conn, e: Bits)
    requires Inv(c) && OneBit(e) && Has(c.tasks, e) && c.fault == NoFault
    requires d == c.(nick := d.nick, user := d.user, realname := d.realname, tasks := Clear(c.tasks, e))
    requires Has(d.tasks, NICK) ==> d.nick == ""
    ensures Inv(Finalized(w, d))
    ensures Finalized(w, d).tasks == Clear(c.tasks, e)
  {
    hide Has, Clear, Empty, OneBit, Within;
    ClearedTask(c.tasks, e);
    ClearKeepsWithin(c.tasks, e);
    EmptyHas(d.tasks);
  }

  lemma EmptyHas(bits: Bits)
    ensures Empty(bits) ==> !Has(bits, NICK) && !Has(bits, USER) && !Has(bits, CAP_EXCHANGE)
  {
  }

  lemma NickKeepsInv(w: World, c: Conn, args: seq<string>, renames: bool)
    requires Inv(c) && c.fault == NoFault
    ensures Inv(OnNick(w, c, args, renames))
  {
    hide Has, Clear, Empty, OneBit, Within, Finalized;
    TaskBits();
    EmptyIffNone(c.tasks);
    if Has(c.tasks, NICK) && args != [] {
      ClearedNick(c.tasks);
      FinalizeKeepsInv(w, c, c.(nick := args[0], tasks := Clear(c.tasks, NICK)), NICK);
    }
  }

  lemma UserKeepsInv(w: World, c: Conn, args: seq<string>)
    requires Inv(c) && c.fault == NoFault
    ensures Inv(OnUser(w, c, args))
  {
    hide Has, Clear, Empty, OneBit, Within, Finalized;
    TaskBits();
    if Has(c.tasks, USER) && |args| >= 4 {
      ClearedNick(c.tasks);
      FinalizeKeepsInv(w, c, c.(user := args[0], realname := args[3], tasks := Clear(c.tasks, USER)), USER);
    }
  }

  lemma CapKeepsInv(w: World, c: Conn, args: seq<string>)
    requires Inv(c) && c.fault == NoFault
    ensures Inv(OnCap(w, c, args))
  {
    hide Has, Clear, Empty, OneBit, Within, Finalized;
    TaskBits();
    if Has(c.tasks, CAP_EXCHANGE) {
      ClearedNick(c.tasks);
      FinalizeKeepsInv(w, c, c.(tasks := Clear(c.tasks, CAP_EXCHANGE)), CAP_EXCHANGE);
    }
  }

  lemma StepKeepsInv(w: World, c: Conn, cmd: Command)
    requires Inv(c)
    ensures Inv(Step(w, c, cmd))
  {
    hide Has, Empty, Within, OnNick, OnUser, OnCap;
    if c.fault == NoFault {
      match cmd
      case Nick(args, renames) => NickKeepsInv(w, c, args, renames);
      case User(args) => UserKeepsInv(w, c, args);
      case Cap(args) => CapKeepsInv(w, c, args);
      case _ =>
    }
  }

  lemma ClearedNick(bits: Bits)
    ensures !Has(Clear(bits, NICK), NICK)
    ensures Has(Clear(bits, USER), NICK) ==> Has(bits, NICK)
    ensures Has(Clear(bits, CAP_EXCHANGE), NICK) ==> Has(bits, NICK)
  {
  }

  lemma {:induction false} EveryRunKeepsInv(run: seq<Event>)
    ensures Inv(After(run))
  {
    hide Inv, Step, NewConn;
    if run == [] {
      NewConnIsGood();
    } else {
      EveryRunKeepsInv(run[..|run| - 1]);
      StepKeepsInv(run[|run| - 1].w, After(run[..|run| - 1]), run[|run| - 1].cmd);
    }
  }

  // At most one welcome and one add_connection in any run, and none before the last
  // task is done; a ready connection has an account.
  lemma WelcomedOnce(run: seq<Event>)
    ensures var c := After(run);
            && c.tally.attempts <= 1 && c.tally.welcomes == c.tally.joined <= 1
            && (c.tally.welcomes == 1 <==> c.ready)
            && (c.ready ==> Empty(c.tasks) && c.account.Some?)
            && c.fault != NickAlreadySet
  {
    EveryRunKeepsInv(run);
  }

  // Tasks are only ever taken away.
  lemma TasksOnlyShrink(w: World, c: Conn, cmd: Command, task: Bits)
    requires OneBit(task) && Has(Step(w, c, cmd).tasks, task)
    ensures Has(c.tasks, task)
  {
    hide Has, Clear, Empty, OneBit;
    TaskBits();
    ClearHas(c.tasks, NICK, task);
    ClearHas(c.tasks, USER, task);
    ClearHas(c.tasks, CAP_EXCHANGE, task);
  }

  // A failed attempt is final: nothing makes the connection ready afterwards.
  lemma {:induction false} FailureIsFinal(run: seq<Event>, more: seq<Event>)
    requires Empty(After(run).tasks) && !After(run).ready
    ensures var c := After(run + more);
            Empty(c.tasks) && !c.ready && c.tally.attempts == 1 && c.tally.welcomes == 0 && c.tally.closed
    decreases |more|
  {
    hide Step, NewConn;
    if more == [] {
      assert run + more == run;
      EveryRunKeepsInv(run);
    } else {
      var front, last := more[..|more| - 1], more[|more| - 1];
      FailureIsFinal(run, front);
      assert (run + more)[..|run + more| - 1] == run + front;
      StuckStep(last.w, After(run + front), last.cmd);
      EveryRunKeepsInv(run + more);
    }
  }

  lemma StuckStep(w: World, c: Conn, cmd: Command)
    requires Empty(c.tasks) && !c.ready
    ensures Step(w, c, cmd).tasks == c.tasks && !Step(w, c, cmd).ready
  {
    EmptyHas(c.tasks);
    hide Has, Clear, Empty;
  }

  // NICK follows a null account exactly after a failed attempt, with a well-formed
  // nick other than the current one.
  lemma NullAccountExactly(run: seq<Event>, w: World, args: seq<string>, renames: bool)
    requires After(run).fault == NoFault
    ensures var c := After(run);
            (Step(w, c, Nick(args, renames)).fault == NullAccount <==>
              && Empty(c.tasks) && !c.ready && c.account == None
              && args != [] && w.validNick(args[0]) && args[0] != CurrentNick(c))
  {
    EveryRunKeepsInv(run);
    EmptyHas(After(run).tasks);
    hide After, Has, Clear, Empty;
  }

  // ----- What a run of commands amounts to

  // The functions of this section speak of the events of a run only, not of connections.

  // The argument of the last PASS that has one.
  function PassGiven(run: seq<Event>): string {
    if run == [] then ""
    else
      var cmd := run[|run| - 1].cmd;
      if cmd.Pass? && cmd.args != [] then cmd.args[0] else PassGiven(run[..|run| - 1])
  }

  // The account of the first successful AUTHENTICATE.
  function LoginOf(run: seq<Event>): Option<Account> {
    if run == [] then None
    else
      var before, cmd := LoginOf(run[..|run| - 1]), run[|run| - 1].cmd;
      if before == None && cmd.Authenticate? then cmd.account else before
  }

  // A nick in use is refused only to a client that has logged in.
  predicate AcceptsNick(e: Event, login: Option<Account>) {
    && e.cmd.Nick? && e.cmd.args != [] && e.w.validNick(e.cmd.args[0])
    && !(login.Some? && e.w.nickTaken(e.cmd.args[0]))
  }

  // The nick of the first accepted NICK.
  function NickGiven(run: seq<Event>): Option<string> {
    if run == [] then None
    else
      var front, last := run[..|run| - 1], run[|run| - 1];
      if NickGiven(front) == None && AcceptsNick(last, LoginOf(front)) then Some(last.cmd.args[0]) else NickGiven(front)
  }

  predicate AcceptsUser(cmd: Command) {
    cmd.User? && |cmd.args| >= 4 && |cmd.args[0]| <= 16
  }

  // The arguments of the first accepted USER.
  function UserGiven(run: seq<Event>): Option<seq<string>>
    ensures UserGiven(run).Some? ==> |UserGiven(run).value| >= 4
  {
    if run == [] then None
    else
      var before, cmd := UserGiven(run[..|run| - 1]), run[|run| - 1].cmd;
      if before == None && AcceptsUser(cmd) then Some(cmd.args) else before
  }

  predicate EndsCap(cmd: Command) {
    cmd.Cap? && cmd.args != [] && cmd.args[0] == "END"
  }

  predicate CapEnded(run: seq<Event>) {
    run != [] && (CapEnded(run[..|run| - 1]) || EndsCap(run[|run| - 1].cmd))
  }

  predicate AllThree(run: seq<Event>) {
    NickGiven(run).Some? && UserGiven(run).Some? && CapEnded(run)
  }

  // The server's two questions to a client that has done its tasks.
  predicate LetsIn(w: World, pass: string, login: Option<Account>, nick: string) {
    (w.password == "" || pass == w.password) && (login.Some? || !w.nickTaken(nick))
  }

  // The event at `i` does the last task, and the server lets the client in.
  predicate CompletesAt(run: seq<Event>, i: nat)
    requires i < |run|
  {
    && !AllThree(run[..i]) && AllThree(run[..i + 1])
    && LetsIn(run[i].w, PassGiven(run[..i]), LoginOf(run[..i]), NickGiven(run[..i + 1]).value)
  }

  predicate SomeCompletes(run: seq<Event>) {
    exists i :: 0 <= i < |run| && CompletesAt(run, i)
  }

  // What an event does to the account of a client with no task left.
  function Renamed(acc: Account, e: Event): Account {
    if && e.cmd.Nick? && e.cmd.renames && e.cmd.args != [] && e.w.validNick(e.cmd.args[0])
       && !e.w.nickTaken(e.cmd.args[0]) && e.cmd.args[0] != Shown(acc.nick)
    then Account(e.cmd.args[0]) else acc
  }

  // The account of the client: the first it logs in to, or a new one with its nick when
  // it is let in without; renamed once all three tasks are done.
  function AccountOf(run: seq<Event>): Option<Account> {
    if run == [] then None
    else
      var k := |run| - 1;
      match AccountOf(run[..k])
      case Some(acc) => Some(if AllThree(run[..k]) then Renamed(acc, run[k]) else acc)
      case None =>
        if run[k].cmd.Authenticate? then run[k].cmd.account
        else if CompletesAt(run, k) then Some(Account(NickGiven(run[..k + 1]).value))
        else None
  }

  // The nick under which the client came in.
  function EntryNick(run: seq<Event>): string {
    if run == [] then ""
    else
      var k := |run| - 1;
      if CompletesAt(run, k) then
        Shown(if LoginOf(run[..k]).Some? then LoginOf(run[..k]).value.nick else NickGiven(run[..k + 1]).value)
      else EntryNick(run[..k])
  }

  // A command that closes the connection by itself: a user name that is too long, or a
  // failed login.
  predicate ClosesAlone(cmd: Command, needsUser: bool) {
    || (needsUser && cmd.User? && |cmd.args| >= 4 && |cmd.args[0]| > 16)
    || (cmd.Authenticate? && cmd.account == None && cmd.closes)
  }

  // Some command of the run closed the connection, or the last task was done in vain.
  predicate Closed(run: seq<Event>) {
    run != [] &&
    var k := |run| - 1;
    || Closed(run[..k])
    || ClosesAlone(run[k].cmd, UserGiven(run[..k]) == None)
    || (!AllThree(run[..k]) && AllThree(run[..k + 1]) && !CompletesAt(run, k))
  }

  lemma {:induction false} AccountIsLogin(run: seq<Event>)
    requires !AllThree(run)
    ensures AccountOf(run) == LoginOf(run)
  {
    hide AcceptsNick, AcceptsUser, EndsCap, LetsIn;
    if run != [] {
      AccountIsLogin(run[..|run| - 1]);
      assert run[..|run| - 1 + 1] == run;
    }
  }

  // ----- ... is the state they leave

  lemma FaultsStay(w: World, c: Conn, cmd: Command)
    ensures c.fault != NoFault ==> Step(w, c, cmd).fault != NoFault
  {
  }

  lemma AfterFront(run: seq<Event>)
    requires run != []
    ensures var front, last := run[..|run| - 1], run[|run| - 1];
            && After(run) == Step(last.w, After(front), last.cmd)
            && (After(run).fault == NoFault ==> After(front).fault == NoFault)
  {
    hide Step;
    FaultsStay(run[|run| - 1].w, After(run[..|run| - 1]), run[|run| - 1].cmd);
  }

  // What one command does to the tasks, ...
  ghost predicate TasksStep(e: Event, c: Conn, d: Conn) {
    && (Has(d.tasks, NICK) <==> Has(c.tasks, NICK) && !AcceptsNick(e, c.account))
    && (Has(d.tasks, USER) <==> Has(c.tasks, USER) && !AcceptsUser(e.cmd))
    && (Has(d.tasks, CAP_EXCHANGE) <==> Has(c.tasks, CAP_EXCHANGE) && !EndsCap(e.cmd))
  }

  // ... to what the client has told, ...
  ghost predicate ToldStep(e: Event, c: Conn, d: Conn) {
    && d.pass == (if e.cmd.Pass? && e.cmd.args != [] then e.cmd.args[0] else c.pass)
    && (d.loggedIn <==> c.loggedIn || (e.cmd.Authenticate? && e.cmd.account.Some?))
    && (Has(c.tasks, USER) && AcceptsUser(e.cmd) ==> d.user == e.cmd.args[0] && d.realname == e.cmd.args[3])
    && (!Has(c.tasks, USER) ==> d.user == c.user && d.realname == c.realname)
  }

  // ... and to being on the server: `nick` is the nick at an attempt.
  ghost predicate EntryStep(e: Event, c: Conn, d: Conn) {
    var nick := if Has(c.tasks, NICK) && AcceptsNick(e, c.account) then e.cmd.args[0] else c.nick;
    && (d.ready <==> c.ready || (!Empty(c.tasks) && Empty(d.tasks) && LetsIn(e.w, c.pass, c.account, nick)))
    && d.nick == (if c.ready then c.nick
                  else if !d.ready then nick
                  else Shown(if c.account.Some? then c.account.value.nick else nick))
    && (d.tally.closed <==>
         || c.tally.closed || ClosesAlone(e.cmd, Has(c.tasks, USER))
         || (!Empty(c.tasks) && Empty(d.tasks) && !d.ready))
    && d.account == AccountStep(e, c.account, Empty(c.tasks), !c.ready && d.ready, nick)
  }

  function AccountStep(e: Event, account: Option<Account>, done: bool, enters: bool, nick: string): Option<Account> {
    match account
    case Some(acc) => Some(if done then Renamed(acc, e) else acc)
    case None =>
      if e.cmd.Authenticate? then e.cmd.account else if enters then Some(Account(nick)) else None
  }

  ghost predicate StepsAs(e: Event, c: Conn, d: Conn) {
    TasksStep(e, c, d) && ToldStep(e, c, d) && EntryStep(e, c, d)
  }

  // A task's command takes away that task and nothing else.
  lemma ClearsOne(w: World, c: Conn, d: Conn, e: Bits)
    requires Inv(c) && Has(c.tasks, e) && (e == NICK || e == USER || e == CAP_EXCHANGE)
    requires d == c.(nick := d.nick, user := d.user, realname := d.realname, tasks := Clear(c.tasks, e))
    ensures var f := Finalized(w, d);
            && (forall g :: g == NICK || g == USER || g == CAP_EXCHANGE ==>
                  (Has(f.tasks, g) <==> g != e && Has(c.tasks, g)))
            && !Empty(c.tasks) && !c.ready && f.pass == c.pass && f.loggedIn == c.loggedIn
            && f.user == d.user && f.realname == d.realname
            && (f.ready <==> Empty(f.tasks) && LetsIn(w, c.pass, c.account, d.nick))
            && f.account == (if f.ready && c.account == None then Some(Account(d.nick)) else c.account)
            && f.nick == (if !f.ready then d.nick
                          else Shown(if c.account.Some? then c.account.value.nick else d.nick))
            && (f.tally.closed <==> c.tally.closed || (Empty(f.tasks) && !f.ready))
  {
    hide Has, Clear, Empty, OneBit, Within, Shown;
    TaskBits();
    ClearedTask(c.tasks, e);
    forall g | g == NICK || g == USER || g == CAP_EXCHANGE
      ensures Has(Clear(c.tasks, e), g) <==> g != e && Has(c.tasks, g)
    {
      ClearHas(c.tasks, e, g);
    }
  }

  // A command that is none of the three, or whose task is done.
  lemma StepKept(e: Event, c: Conn, d: Conn)
    requires Inv(c) && d.tasks == c.tasks && d.ready == c.ready && d.nick == c.nick && ToldStep(e, c, d)
    requires Has(c.tasks, NICK) ==> !AcceptsNick(e, c.account)
    requires Has(c.tasks, USER) ==> !AcceptsUser(e.cmd)
    requires Has(c.tasks, CAP_EXCHANGE) ==> !EndsCap(e.cmd)
    requires d.account == AccountStep(e, c.account, Empty(c.tasks), false, c.nick)
    requires d.tally.closed <==> c.tally.closed || ClosesAlone(e.cmd, Has(c.tasks, USER))
    ensures StepsAs(e, c, d)
  {
    hide Has, Empty, Within, ToldStep, LetsIn;
  }

  lemma NickStep(w: World, c: Conn, args: seq<string>, renames: bool)
    requires Inv(c) && OnNick(w, c, args, renames).fault == NoFault
    ensures StepsAs(Event(w, Nick(args, renames)), c, OnNick(w, c, args, renames))
  {
    hide Has, Clear, Empty, Within, Finalized, LetsIn;
    var e := Event(w, Nick(args, renames));
    EmptyHas(c.tasks);
    if Has(c.tasks, NICK) && AcceptsNick(e, c.account) {
      ClearsOne(w, c, c.(nick := args[0], tasks := Clear(c.tasks, NICK)), NICK);
    } else {
      StepKept(e, c, OnNick(w, c, args, renames));
    }
  }

  lemma UserStep(w: World, c: Conn, args: seq<string>)
    requires Inv(c)
    ensures StepsAs(Event(w, User(args)), c, OnUser(w, c, args))
  {
    hide Has, Clear, Empty, Within, Finalized, LetsIn;
    var e := Event(w, User(args));
    if Has(c.tasks, USER) && AcceptsUser(e.cmd) {
      ClearsOne(w, c, c.(user := args[0], realname := args[3], tasks := Clear(c.tasks, USER)), USER);
    } else {
      StepKept(e, c, OnUser(w, c, args));
    }
  }

  lemma CapStep(w: World, c: Conn, args: seq<string>)
    requires Inv(c) && OnCap(w, c, args).fault == NoFault
    requires c.fault == NoFault
    ensures StepsAs(Event(w, Cap(args)), c, OnCap(w, c, args))
  {
    hide Has, Clear, Empty, Within, Finalized, LetsIn;
    var e := Event(w, Cap(args));
    if Has(c.tasks, CAP_EXCHANGE) && EndsCap(e.cmd) {
      ClearsOne(w, c, c.(tasks := Clear(c.tasks, CAP_EXCHANGE)), CAP_EXCHANGE);
    } else {
      StepKept(e, c, OnCap(w, c, args));
    }
  }

  lemma OtherStep(e: Event, c: Conn)
    requires Inv(c) && c.fault == NoFault && (e.cmd.Pass? || e.cmd.Authenticate? || e.cmd.Other?)
    ensures StepsAs(e, c, Step(e.w, c, e.cmd))
  {
    hide Inv, Has, Empty, OnNick, OnUser, OnCap, StepsAs;
    StepKept(e, c, Step(e.w, c, e.cmd));
  }

  lemma OneStep(e: Event, c: Conn)
    requires Inv(c) && c.fault == NoFault && Step(e.w, c, e.cmd).fault == NoFault
    ensures StepsAs(e, c, Step(e.w, c, e.cmd))
  {
    hide Inv, OnNick, OnUser, OnCap, StepsAs;
    match e.cmd
    case Nick(args, renames) => NickStep(e.w, c, args, renames);
    case User(args) => UserStep(e.w, c, args);
    case Cap(args) => CapStep(e.w, c, args);
    case _ => OtherStep(e, c);
  }

  // What the client has told and done, as the connection has it.
  ghost predicate TasksAgree(run: seq<Event>, c: Conn) {
    && (Has(c.tasks, NICK) <==> NickGiven(run) == None)
    && (Has(c.tasks, USER) <==> UserGiven(run) == None)
    && (Has(c.tasks, CAP_EXCHANGE) <==> !CapEnded(run))
    && (Empty(c.tasks) <==> AllThree(run))
  }

  ghost predicate ToldAgrees(run: seq<Event>, c: Conn) {
    && c.pass == PassGiven(run) && (c.loggedIn <==> LoginOf(run).Some?)
    && (UserGiven(run).Some? ==> c.user == UserGiven(run).value[0] && c.realname == UserGiven(run).value[3])
  }

  ghost predicate EntryAgrees(run: seq<Event>, c: Conn) {
    && (c.ready <==> SomeCompletes(run)) && c.account == AccountOf(run) && (c.tally.closed <==> Closed(run))
    && c.nick == if c.ready then EntryNick(run) else if NickGiven(run).Some? then NickGiven(run).value else ""
  }

  lemma CompletesMore(run: seq<Event>)
    requires run != []
    ensures SomeCompletes(run) <==> SomeCompletes(run[..|run| - 1]) || CompletesAt(run, |run| - 1)
  {
    hide AllThree, LetsIn, PassGiven, LoginOf, NickGiven;
    var front := run[..|run| - 1];
    forall i | 0 <= i < |front| ensures CompletesAt(front, i) <==> CompletesAt(run, i) {
      assert front[..i] == run[..i] && front[..i + 1] == run[..i + 1];
    }
  }

  lemma TasksMore(run: seq<Event>, c: Conn, d: Conn)
    requires run != [] && Inv(c) && Inv(d)
    requires TasksAgree(run[..|run| - 1], c) && EntryAgrees(run[..|run| - 1], c)
    requires TasksStep(run[|run| - 1], c, d)
    ensures TasksAgree(run, d)
  {
    hide Has, Empty, AccountOf, LoginOf, AcceptsNick, AcceptsUser, EndsCap, Within, SomeCompletes;
    EmptyHas(c.tasks);
    EmptyIffNone(d.tasks);
    if !AllThree(run[..|run| - 1]) {
      AccountIsLogin(run[..|run| - 1]);
    }
  }

  lemma ToldMore(run: seq<Event>, c: Conn, d: Conn)
    requires run != [] && TasksAgree(run[..|run| - 1], c)
    requires ToldAgrees(run[..|run| - 1], c) && ToldStep(run[|run| - 1], c, d)
    ensures ToldAgrees(run, d)
  {
    hide Has, Empty, AllThree, CapEnded, AcceptsUser;
  }

  lemma EntryMore(run: seq<Event>, c: Conn, d: Conn)
    requires run != [] && Inv(c) && TasksAgree(run[..|run| - 1], c) && TasksAgree(run, d)
    requires ToldAgrees(run[..|run| - 1], c) && EntryAgrees(run[..|run| - 1], c)
    requires EntryStep(run[|run| - 1], c, d)
    ensures EntryAgrees(run, d)
  {
    hide Has, Empty, CapEnded, LetsIn, AcceptsNick, AcceptsUser, Renamed, Within, SomeCompletes, LoginOf, ClosesAlone;
    var k := |run| - 1;
    assert run[..k + 1] == run;
    EmptyHas(c.tasks);
    CompletesMore(run);
    if !AllThree(run[..k]) {
      AccountIsLogin(run[..k]);
    }
    if !c.ready {
      NickMore(run, c);
    }
  }

  // The nick at an attempt is the one given so far.
  lemma NickMore(run: seq<Event>, c: Conn)
    requires run != [] && Inv(c) && TasksAgree(run[..|run| - 1], c) && EntryAgrees(run[..|run| - 1], c) && !c.ready
    ensures var e := run[|run| - 1];
            ((if Has(c.tasks, NICK) && AcceptsNick(e, c.account) then e.cmd.args[0] else c.nick)
            == if NickGiven(run).Some? then NickGiven(run).value else "")
  {
    hide Has, Empty, AllThree, AcceptsNick, Within, SomeCompletes, LoginOf, AccountOf;
    var front := run[..|run| - 1];
    EmptyHas(c.tasks);
    if !AllThree(front) {
      AccountIsLogin(front);
    }
  }

  // After any run without a fault, through any changing world, the connection is what its
  // events amount to.
  lemma {:induction false} StateOfRun(run: seq<Event>)
    requires After(run).fault == NoFault
    ensures TasksAgree(run, After(run)) && ToldAgrees(run, After(run)) && EntryAgrees(run, After(run))
  {
    if run == [] {
      hide Has, Empty;
      NewConnIsGood();
      EmptyHas(NewConn().tasks);
    } else {
      hide After, Step, Inv, TasksAgree, ToldAgrees, EntryAgrees, TasksStep, ToldStep, EntryStep;
      var front, last := run[..|run| - 1], run[|run| - 1];
      AfterFront(run);
      StateOfRun(front);
      EveryRunKeepsInv(front);
      EveryRunKeepsInv(run);
      OneStep(last, After(front));
      TasksMore(run, After(front), After(run));
      ToldMore(run, After(front), After(run));
      EntryMore(run, After(front), After(run));
    }
  }

  // The password that counts is the last one given.
  lemma PassIsTheLastGiven(run: seq<Event>)
    requires After(run).fault == NoFault
    ensures After(run).pass == PassGiven(run)
  {
    hide After;
    StateOfRun(run);
  }

  // Each task is done exactly by its command.
  lemma EachTaskByItsCommand(run: seq<Event>)
    requires After(run).fault == NoFault
    ensures Has(After(run).tasks, NICK) <==> NickGiven(run) == None
    ensures Has(After(run).tasks, USER) <==> UserGiven(run) == None
    ensures Has(After(run).tasks, CAP_EXCHANGE) <==> !CapEnded(run)
  {
    hide After, Has, Empty;
    StateOfRun(run);
  }

  // The connection is ready exactly if some event did the last of the three tasks, the
  // last password given before was right and, without a login, the nick was free.
  lemma ReadyExactly(run: seq<Event>)
    requires After(run).fault == NoFault
    ensures After(run).ready <==> exists i :: 0 <= i < |run| && CompletesAt(run, i)
  {
    hide After, CompletesAt, AccountOf;
    StateOfRun(run);
  }

  // Which command faults after which run: CAP without arguments while it is outstanding, and
  // a new nick from a client that was refused and has no account.
  lemma FaultsExactly(run: seq<Event>, e: Event)
    requires After(run).fault == NoFault
    ensures var fault := Step(e.w, After(run), e.cmd).fault;
            && (fault == EmptyArguments <==> e.cmd.Cap? && e.cmd.args == [] && !CapEnded(run))
            && (fault == NullAccount <==>
                 && AllThree(run) && AccountOf(run) == None && e.cmd.Nick? && e.cmd.args != []
                 && e.w.validNick(e.cmd.args[0]) && e.cmd.args[0] != Shown(NickGiven(run).value))
            && fault != NickAlreadySet
  {
    hide After, Step, Has, Empty, NickGiven, AccountOf, CapEnded, UserGiven, SomeCompletes, Within, Inv, Closed;
    hide EntryNick;
    StateOfRun(run);
    EveryRunKeepsInv(run);
    FaultOfStep(e, After(run));
    ReadyHasAccount(After(run));
  }

  lemma ReadyHasAccount(c: Conn)
    requires Inv(c)
    ensures c.ready ==> c.account.Some?
  {
  }

  lemma FaultOfStep(e: Event, c: Conn)
    requires Inv(c) && c.fault == NoFault
    ensures var fault := Step(e.w, c, e.cmd).fault;
            && (fault == EmptyArguments <==> e.cmd.Cap? && e.cmd.args == [] && Has(c.tasks, CAP_EXCHANGE))
            && (fault == NullAccount <==>
                 && Empty(c.tasks) && !c.ready && c.account == None && e.cmd.Nick? && e.cmd.args != []
                 && e.w.validNick(e.cmd.args[0]) && e.cmd.args[0] != Shown(c.nick))
            && fault != NickAlreadySet
  {
    EmptyHas(c.tasks);
    hide Has, Clear, Empty, Within;
  }

  // A connection is closed exactly if a command of its run closed it, or the last of its
  // tasks was done without being let in.
  lemma ClosedExactly(run: seq<Event>)
    requires After(run).fault == NoFault
    ensures After(run).tally.closed <==> Closed(run)
  {
    hide After, Closed;
    StateOfRun(run);
  }

  // Which account a connection has: as its AUTHENTICATE and NICK events say.
  lemma AccountIsOfTheRun(run: seq<Event>)
    requires After(run).fault == NoFault
    ensures After(run).account == AccountOf(run)
    ensures After(run).loggedIn <==> LoginOf(run).Some?
  {
    hide After, AccountOf;
    StateOfRun(run);
  }

  // ----- Order does not matter

  function TaskMask(n: bool, u: bool, e: bool): Bits {
    Set(Set(if e then 0 else CAP_EXCHANGE, if n then 0 else NICK), if u then 0 else USER)
  }

  // The connection once NICK `nick`, USER `user` and CAP END have been seen or not.
  function Seen(pass: string, nick: string, user: string, realname: string, n: bool, u: bool, e: bool): Conn {
    var done := n && u && e;
    NewConn().(pass := pass, tasks := TaskMask(n, u, e),
               ready := done, account := if done then Some(Account(nick)) else None,
               nick := if n then nick else "", user := if u then user else "", realname := if u then realname else "",
               tally := if done then Tally(1, 1, 1, false) else Tally(0, 0, 0, false))
  }

  lemma TaskMaskBits(n: bool, u: bool, e: bool)
    ensures Has(TaskMask(n, u, e), NICK) <==> !n
    ensures Has(TaskMask(n, u, e), USER) <==> !u
    ensures Has(TaskMask(n, u, e), CAP_EXCHANGE) <==> !e
    ensures Empty(TaskMask(n, u, e)) <==> n && u && e
    ensures Clear(TaskMask(n, u, e), NICK) == TaskMask(true, u, e)
    ensures Clear(TaskMask(n, u, e), USER) == TaskMask(n, true, e)
    ensures Clear(TaskMask(n, u, e), CAP_EXCHANGE) == TaskMask(n, u, true)
  {
  }

  lemma SeenNothing(pass: string, nick: string, user: string, realname: string)
    ensures Seen(pass, nick, user, realname, false, false, false) == NewConn().(pass := pass)
  {
  }

  lemma SeeOne(w: World, pass: string, nick: string, args: seq<string>, cmd: Command, n: bool, u: bool, e: bool)
    requires nick != "" && w.validNick(nick) && |args| >= 4 && |args[0]| <= 16
    requires cmd == Nick([nick], true) || cmd == User(args) || cmd == Cap(["END"])
    requires (n || cmd.Nick?) && (u || cmd.User?) && (e || cmd.Cap?) ==> LetsIn(w, pass, None, nick)
    ensures Step(w, Seen(pass, nick, args[0], args[3], n, u, e), cmd)
         == Seen(pass, nick, args[0], args[3], n || cmd.Nick?, u || cmd.User?, e || cmd.Cap?)
  {
    hide TaskMask, Has, Clear, Empty;
    TaskMaskBits(n, u, e);
    TaskMaskBits(n || cmd.Nick?, u || cmd.User?, e || cmd.Cap?);
  }

  // The state after any sequence of one client's NICK, USER and CAP END, repeated or not.
  lemma {:induction false} OrderFrom(w: World, pass: string, nick: string, args: seq<string>, run: seq<Event>)
    requires LetsIn(w, pass, None, nick) && nick != "" && w.validNick(nick) && |args| >= 4 && |args[0]| <= 16
    requires forall i :: 0 <= i < |run| ==> run[i].w == w
    requires forall i :: 0 <= i < |run| ==>
      run[i].cmd == Nick([nick], true) || run[i].cmd == User(args) || run[i].cmd == Cap(["END"])
    ensures Continued(NewConn().(pass := pass), run)
         == Seen(pass, nick, args[0], args[3],
                 Event(w, Nick([nick], true)) in run, Event(w, User(args)) in run, Event(w, Cap(["END"])) in run)
  {
    hide Step, Seen, NewConn;
    if run == [] {
      SeenNothing(pass, nick, args[0], args[3]);
    } else {
      var front, last := run[..|run| - 1], run[|run| - 1];
      OrderFrom(w, pass, nick, args, front);
      SeeOne(w, pass, nick, args, last.cmd,
        Event(w, Nick([nick], true)) in front, Event(w, User(args)) in front, Event(w, Cap(["END"])) in front);
      assert run == front + [last];
    }
  }

  lemma {:induction false} ContinuedFrom(c: Conn, first: Event, run: seq<Event>)
    ensures Continued(c, [first] + run) == Continued(Step(first.w, c, first.cmd), run)
  {
    hide Step;
    if run == [] {
      assert ([first] + run)[..0] == [];
    } else {
      ContinuedFrom(c, first, run[..|run| - 1]);
      assert ([first] + run)[..|run|] == [first] + run[..|run| - 1];
    }
  }

  // A client that begins with the right PASS and has a free nick may send NICK, USER and
  // CAP END in any order and repeatedly: the state depends only on which of the three
  // occurred, so all orders end in the same ready state.
  lemma OrderIsIrrelevant(w: World, pass: string, nick: string, args: seq<string>, run: seq<Event>)
    requires LetsIn(w, pass, None, nick) && nick != "" && w.validNick(nick) && |args| >= 4 && |args[0]| <= 16
    requires forall i :: 0 <= i < |run| ==> run[i].w == w
    requires forall i :: 0 <= i < |run| ==>
      run[i].cmd == Nick([nick], true) || run[i].cmd == User(args) || run[i].cmd == Cap(["END"])
    ensures After([Event(w, Pass([pass]))] + run)
         == Seen(pass, nick, args[0], args[3],
                 Event(w, Nick([nick], true)) in run, Event(w, User(args)) in run, Event(w, Cap(["END"])) in run)
  {
    hide Seen, Continued;
    ContinuedFrom(NewConn(), Event(w, Pass([pass])), run);
    PassFirst(w, pass);
    OrderFrom(w, pass, nick, args, run);
  }

  lemma PassFirst(w: World, pass: string)
    ensures Step(w, NewConn(), Pass([pass])) == NewConn().(pass := pass)
  {
  }

  // The null account is reached: a client that gives no password to a server with one
  // does its three tasks, and then asks for another nick.
  lemma NullAccountOccurs(w: World, nick: string, args: seq<string>, other: string, renames: bool)
    requires w.password != "" && nick != "" && w.validNick(nick) && |args| >= 4 && |args[0]| <= 16
    requires w.validNick(other) && other != nick
    ensures var run := [Event(w, Nick([nick], true)), Event(w, User(args)), Event(w, Cap(["END"])),
                        Event(w, Nick([other], renames))];
            After(run).fault == NullAccount && forall e :: e in run ==> !e.cmd.Pass?
  {
    hide TaskMask, Has, Clear, Empty, Step, Seen, After;
    var run := [Event(w, Nick([nick], true)), Event(w, User(args)), Event(w, Cap(["END"])),
                Event(w, Nick([other], renames))];
    assert run[..3][..2] == run[..2] && run[..2][..1] == run[..1] && run[..1][..0] == [];
    AfterFront(run);
    AfterFront(run[..3]);
    AfterFront(run[..2]);
    AfterFront(run[..1]);
    AfterNothing();
    SeenNothing("", nick, args[0], args[3]);
    SeeOne(w, "", nick, args, run[0].cmd, false, false, false);
    SeeOne(w, "", nick, args, run[1].cmd, true, false, false);
    LastTaskRefused(w, nick, args, other, renames);
  }

  lemma AfterNothing()
    ensures After([]) == NewConn() && NewConn().pass == ""
  {
  }

  lemma LastTaskRefused(w: World, nick: string, args: seq<string>, other: string, renames: bool)
    requires w.password != "" && nick != "" && |args| >= 4 && w.validNick(other) && other != nick
    ensures var c := Seen("", nick, args[0], args[3], true, true, false);
            Step(w, Step(w, c, Cap(["END"])), Nick([other], renames)).fault == NullAccount
  {
    hide TaskMask, Has, Clear, Empty;
    TaskMaskBits(true, true, false);
    TaskMaskBits(true, true, true);
  }
}
