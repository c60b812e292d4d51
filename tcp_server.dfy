/**
  The TCP server's listener thread and the TCP client's constructor.

  Every call into lwIP or FreeRTOS is an oracle: the listener reads a script
  of `Setup` items (one per pass of the outer "prepare listener socket" loop)
  and `Poll` items (one per pass of the inner "handle incoming connections"
  loop).  Destroying the server from another thread is the `...Unload` item
  of the script: it is the moment the listener's loop test reads
  `__instanceUnloading__ == true`.
 */
module TcpServers {
  import opened Common
  import opened TcpTiming
  import opened TcpConnections

  /** `LISTENER_STATE_TYPE`. */
  datatype ListenerState = NotRunning | Running | AcceptingConnections | Stopped | Finished

  /** The numeric value of each enumerator; the source compares them with `<`. */
  function Code(s: ListenerState): int
  {
    match s
    case NotRunning => 9
    case Running => 1
    case AcceptingConnections => 2
    case Stopped => 3
    case Finished => 4
  }

  /**
    TcpServer::started (): it waits while the state is numerically below
    ACCEPTING_CONNECTIONS (`None`: still waiting), then answers whether the
    state is ACCEPTING_CONNECTIONS.  NOT_RUNNING is 9, so it does not wait.
   */
  function StartedAnswer(s: ListenerState): (answer: Option<bool>)
    ensures answer.None? <==> s == Running
    ensures answer == Some(true) <==> s == AcceptingConnections
    ensures s == NotRunning ==> answer == Some(false)
  {
    if Code(s) < Code(AcceptingConnections) then None else Some(s == AcceptingConnections)
  }

  /**
    One pass of the outer loop: the destructor's flag was seen, or the results
    of socket (), bind (), listen () and fcntl () on the listener socket.
   */
  datatype Setup =
    | SetupUnload
    | Attempt(socket: int, bindOk: bool, listenOk: bool, fcntlOk: bool)

  /**
    One pass of the inner loop: the destructor's flag was seen, or the clock,
    the result of accept () (-1: nothing arrived), the client's address as
    inet_ntoa () renders it, what the firewall callback answers for it, the
    result of fcntl () on the new socket and whether xTaskCreate () starts
    its thread (threaded mode only).
   */
  datatype Poll =
    | PollUnload
    | Tick(now: uint32, accepted: int, clientIP: string, firewallAnswer: bool, fcntlOk: bool, taskCreated: bool)

  /** What the listener does with an accepted socket. */
  datatype Admission =
    | Rejected(fd: int)               // refused by the firewall callback, closed
    | Unconfigured(fd: int)           // fcntl () failed, closed
    | Handed(fd: int, started: bool)  // passed to __newConnection__

  /** Why the listener stopped, or `StillRunning` when the script ran out first. */
  datatype ListenerExit = Unloaded | SetupFailed | TimedOut | OneConnection | StillRunning

  /** A listener socket that socket (), bind (), listen () and fcntl () all accept. */
  predicate Ready(s: Setup)
  {
    s.Attempt? && s.socket != -1 && s.bindOk && s.listenOk && s.fcntlOk
  }

  /** inet_ntoa () writes at most 15 characters, as TcpConnection requires. */
  predicate ClientIPsFit(polls: seq<Poll>)
  {
    forall k :: 0 <= k < |polls| && polls[k].Tick? ==> |polls[k].clientIP| <= 15
  }

  /** The sockets closed for an admission: all but a connection whose thread runs. */
  function ClosedBy(a: Admission): seq<int>
  {
    if a.Handed? && a.started then [] else [a.fd]
  }

  /** The sockets closed for these admissions, in order. */
  function ClosedFds(adms: seq<Admission>): (fds: seq<int>)
    ensures |fds| <= |adms|
  {
    if adms == [] then [] else ClosedFds(adms[..|adms| - 1]) + ClosedBy(adms[|adms| - 1])
  }

  /** The number of sockets handed to __newConnection__. */
  function HandedCount(adms: seq<Admission>): nat
  {
    if adms == [] then 0
    else HandedCount(adms[..|adms| - 1]) + (if adms[|adms| - 1].Handed? then 1 else 0)
  }

  lemma AdmissionsSnoc(adms: seq<Admission>, a: Admission)
    ensures ClosedFds(adms + [a]) == ClosedFds(adms) + ClosedBy(a)
    ensures HandedCount(adms + [a]) == HandedCount(adms) + (if a.Handed? then 1 else 0)
  {
    assert (adms + [a])[..|adms + [a]| - 1] == adms;
  }

  /** The states in `h` never go back in numeric order. */
  predicate Ascending(h: seq<ListenerState>)
  {
    forall i, j :: 0 <= i < j < |h| ==> Code(h[i]) <= Code(h[j])
  }

  class TcpServer {
    /** `__threadedMode__ ()`: a connection handler was given. */
    const threaded: bool
    const timeOutMillis: uint32
    /**
      `__firewallCallback__ != NULL`.  The callback is code of the caller's;
      its answer for each client is part of the script (`firewallAnswer`).
     */
    const hasFirewall: bool
    /** Set once when the instance is created and never updated. */
    const lastActiveMillis: uint32
    var listenerState: ListenerState
    /** Every value `__listenerState__` has held, in order. */
    ghost var stateHistory: seq<ListenerState>
    var instanceUnloading: bool
    /** `__connection__`, only ever set in non-threaded mode. */
    var connection: TcpConnection?
    /** The sockets the listener thread has closed, in order. */
    ghost var closes: seq<int>
    /** What the listener did with each accepted socket, in order. */
    ghost var admissions: seq<Admission>

    ghost predicate Valid()
      reads this
    {
      stateHistory != [] && listenerState == stateHistory[|stateHistory| - 1]
    }

    /**
      Both constructors up to the start of the listener thread; `hasHandler`
      tells the threaded one from the non-threaded one.
     */
    constructor (hasHandler: bool, timeOut: uint32, firewallCallback: bool, now: uint32)
      ensures Valid()
      ensures threaded == hasHandler && timeOutMillis == timeOut
      ensures hasFirewall == firewallCallback && lastActiveMillis == now
      ensures listenerState == NotRunning && stateHistory == [NotRunning]
      ensures !instanceUnloading && connection == null && closes == [] && admissions == []
    {
      threaded := hasHandler;
      timeOutMillis := timeOut;
      hasFirewall := firewallCallback;
      lastActiveMillis := now;
      listenerState := NotRunning;
      stateHistory := [NotRunning];
      instanceUnloading := false;
      connection := null;
      closes := [];
      admissions := [];
    }

    /** TcpServer::timeOut () with `millis ()` read as `now`. */
    function TimeOut(now: uint32): (expired: bool)
      ensures expired ==> !threaded && timeOutMillis != INFINITE_TIMEOUT
      ensures !threaded && timeOutMillis != INFINITE_TIMEOUT ==>
                (expired <==> Elapsed(now, lastActiveMillis) > timeOutMillis)
    {
      if threaded then false
      else if timeOutMillis == INFINITE_TIMEOUT then false
      else Elapsed(now, lastActiveMillis) > timeOutMillis
    }

    /**
      The server times out exactly when more than `timeOutMillis` milliseconds
      have passed since it was created, however often the millisecond counter
      has wrapped around in between.
     */
    lemma {:induction false} TimeOutAfter(d: uint32)
      ensures TimeOut((lastActiveMillis + d) % TWO_32) <==>
                !threaded && timeOutMillis != INFINITE_TIMEOUT && d > timeOutMillis
    {
      ElapsedAcrossWrap(lastActiveMillis, d);
    }

    /**
      The server's strict `>` against a connection's rules with the same
      time-out and start: when the server times out, the connection no longer
      retries and its peek has expired; at exactly `timeOutMillis` elapsed the
      peek has expired but the server has not timed out.
     */
    lemma TimeOutAfterConnectionRules(now: uint32)
      ensures TimeOut(now) ==>
                !MayRetry(timeOutMillis, now, lastActiveMillis) && PeekExpired(timeOutMillis, now, lastActiveMillis)
      ensures !threaded && Elapsed(now, lastActiveMillis) == timeOutMillis ==>
                !TimeOut(now) && PeekExpired(timeOutMillis, now, lastActiveMillis)
    {
    }

    /** `__callFirewallCallback__`: without a callback every client is let through. */
    function CallFirewall(answer: bool): (admit: bool)
      ensures !hasFirewall ==> admit
      ensures hasFirewall ==> (admit <==> answer)
    {
      if hasFirewall then answer else true
    }

    /** What happens to a socket accept () returned. */
    function Admit(p: Poll): (a: Admission)
      requires p.Tick? && p.accepted != -1
      ensures a.fd == p.accepted
      ensures a.Rejected? <==> !CallFirewall(p.firewallAnswer)
      ensures a.Handed? <==> CallFirewall(p.firewallAnswer) && p.fcntlOk
      ensures a.Handed? ==> (a.started <==> !threaded || p.taskCreated)
    {
      if !CallFirewall(p.firewallAnswer) then Rejected(p.accepted)
      else if !p.fcntlOk then Unconfigured(p.accepted)
      else Handed(p.accepted, !threaded || p.taskCreated)
    }

    /** A poll that gets past the time-out test and sets ACCEPTING_CONNECTIONS. */
    predicate Reached(p: Poll)
    {
      p.Tick? && !TimeOut(p.now)
    }

    /**
      How a poll ends the accept loop (unloading, the non-threaded time-out,
      or the one connection of a non-threaded server), or `StillRunning` when
      the loop goes on.
     */
    function PollExit(p: Poll): ListenerExit
    {
      match p
      case PollUnload => Unloaded
      case Tick(now, fd, _, _, _, _) =>
        if TimeOut(now) then TimedOut
        else if fd != -1 && !threaded && Admit(p).Handed? then OneConnection
        else StillRunning
    }

    /** None of the first `n` polls ends the accept loop. */
    predicate Continuing(ps: seq<Poll>, n: nat)
      requires n <= |ps|
    {
      n == 0 || (Continuing(ps, n - 1) && PollExit(ps[n - 1]) == StillRunning)
    }

    /** `Continuing` says that each of the first `n` polls leaves the loop running. */
    lemma {:induction false} ContinuingEveryPoll(ps: seq<Poll>, n: nat)
      requires n <= |ps|
      ensures Continuing(ps, n) <==> forall k :: 0 <= k < n ==> PollExit(ps[k]) == StillRunning
    {
      if n > 0 {
        ContinuingEveryPoll(ps, n - 1);
      }
    }

    /** The state a poll sets, if any. */
    function AcceptedBy(p: Poll): seq<ListenerState>
    {
      if Reached(p) then [AcceptingConnections] else []
    }

    /** The admission a poll adds, if any. */
    function AdmittedBy(p: Poll): seq<Admission>
    {
      if Reached(p) && p.accepted != -1 then [Admit(p)] else []
    }

    /** The sockets a poll closes. */
    function ClosedByPoll(p: Poll): seq<int>
    {
      if Reached(p) && p.accepted != -1 then ClosedBy(Admit(p)) else []
    }

    /** The states the first `n` polls set, in order. */
    function StatesOf(ps: seq<Poll>, n: nat): seq<ListenerState>
      requires n <= |ps|
    {
      if n == 0 then [] else StatesOf(ps, n - 1) + AcceptedBy(ps[n - 1])
    }

    /** The admissions of the sockets the first `n` polls accepted, in order. */
    function AdmittedOf(ps: seq<Poll>, n: nat): seq<Admission>
      requires n <= |ps|
    {
      if n == 0 then [] else AdmittedOf(ps, n - 1) + AdmittedBy(ps[n - 1])
    }

    /** The sockets the first `n` polls closed, in order. */
    function ClosedOf(ps: seq<Poll>, n: nat): seq<int>
      requires n <= |ps|
    {
      if n == 0 then [] else ClosedOf(ps, n - 1) + ClosedByPoll(ps[n - 1])
    }

    /**
      The connection __newConnection__ makes in non-threaded mode for the
      socket `p` accepted: open on that socket, talking to that client, with
      the server's time-out, last active when it was made.
     */
    ghost predicate ConnectionFor(c: TcpConnection, p: Poll)
      reads c
    {
      p.Tick? && c.Valid() && c.socket == p.accepted && c.handle == p.accepted && c.otherSideIP == p.clientIP &&
      c.timeOutMillis == timeOutMillis && c.lastActiveMillis == p.now && !c.timedOut && !c.threadedMode
    }

    /**
      `__newConnection__`.  In threaded mode the connection runs in its own
      thread and the server keeps no reference to it; when its thread did not
      start it is deleted, which closes its socket.  In non-threaded mode the
      connection is stored in `__connection__`.
     */
    method NewConnection(connectionSocket: int, clientIP: string, now: uint32, taskCreated: bool)
      requires connectionSocket != -1 && |clientIP| <= 15
      modifies this`connection, this`closes
      ensures threaded ==> connection == old(connection)
      ensures threaded ==> closes == old(closes) + (if taskCreated then [] else [connectionSocket])
      ensures !threaded ==> closes == old(closes)
      ensures !threaded ==>
                connection != null && fresh(connection) && connection.Valid() &&
                connection.socket == connectionSocket && connection.handle == connectionSocket &&
                connection.otherSideIP == clientIP && connection.timeOutMillis == timeOutMillis &&
                connection.lastActiveMillis == now && !connection.timedOut && !connection.threadedMode
    {
      if threaded {
        var c := new TcpConnection.Threaded(true, connectionSocket, clientIP, timeOutMillis, now, taskCreated);
        if !c.started {
          c.CloseConnection();
          closes := closes + c.closeCalls;
        }
      } else {
        connection := new TcpConnection(connectionSocket, clientIP, timeOutMillis, now);
      }
    }

    /**
      The inner loop of `__listener__`: wait for connections on a ready
      listener socket until unloading, a time-out or (non-threaded mode) the
      first connection; `StillRunning` when the script runs out first.
     */
    method AcceptConnections(polls: seq<Poll>) returns (exit: ListenerExit, used: nat)
      requires Valid() && !instanceUnloading && ClientIPsFit(polls)
      modifies this`listenerState, this`stateHistory, this`instanceUnloading, this`connection, this`closes, this`admissions
      ensures Valid() && used <= |polls|
      ensures exit == StillRunning ==> used == |polls| && Continuing(polls, used)
      ensures exit != StillRunning ==> 0 < used && PollExit(polls[used - 1]) == exit && Continuing(polls, used - 1)
      ensures instanceUnloading <==> exit == Unloaded
      ensures stateHistory == old(stateHistory) + StatesOf(polls, used)
      ensures admissions == old(admissions) + AdmittedOf(polls, used)
      ensures closes == old(closes) + ClosedOf(polls, used)
      ensures exit != OneConnection ==> connection == old(connection)
      ensures exit == OneConnection ==>
                0 < used && connection != null && fresh(connection) && ConnectionFor(connection, polls[used - 1])
    {
      used := 0;
      exit := StillRunning;
      while exit == StillRunning && used < |polls|
        invariant Valid() && used <= |polls|
        invariant used == 0 ==> exit == StillRunning
        invariant 0 < used ==> exit == PollExit(polls[used - 1])
        invariant 0 < used ==> Continuing(polls, used - 1)
        invariant instanceUnloading <==> exit == Unloaded
        invariant stateHistory == old(stateHistory) + StatesOf(polls, used)
        invariant admissions == old(admissions) + AdmittedOf(polls, used)
        invariant closes == old(closes) + ClosedOf(polls, used)
        invariant exit != OneConnection ==> connection == old(connection)
        invariant exit == OneConnection ==>
                    0 < used && connection != null && fresh(connection) && ConnectionFor(connection, polls[used - 1])
        decreases |polls| - used
      {
        var p := polls[used];
        used := used + 1;
        AppendAssociative(old(stateHistory), StatesOf(polls, used - 1), AcceptedBy(p));
        AppendAssociative(old(admissions), AdmittedOf(polls, used - 1), AdmittedBy(p));
        AppendAssociative(old(closes), ClosedOf(polls, used - 1), ClosedByPoll(p));
        exit := HandlePoll(p);
      }
    }

    /** One pass of the accept loop; `StillRunning` when the loop goes on. */
    method HandlePoll(p: Poll) returns (x: ListenerExit)
      requires Valid() && !instanceUnloading && (p.Tick? ==> |p.clientIP| <= 15)
      modifies this`listenerState, this`stateHistory, this`instanceUnloading, this`connection, this`closes, this`admissions
      ensures Valid() && x == PollExit(p)
      ensures instanceUnloading <==> p.PollUnload?
      ensures stateHistory == old(stateHistory) + AcceptedBy(p)
      ensures admissions == old(admissions) + AdmittedBy(p)
      ensures closes == old(closes) + ClosedByPoll(p)
      ensures x != OneConnection ==> connection == old(connection)
      ensures x == OneConnection ==>
                connection != null && fresh(connection) && ConnectionFor(connection, p)
    {
      match p
      case PollUnload =>
        instanceUnloading := true;
        return Unloaded;
      case Tick(now, connectionSocket, clientIP, firewallAnswer, fcntlOk, taskCreated) =>
        // SPIFFSsafeDelay (1) is a yield
        if !threaded && TimeOut(now) {
          return TimedOut;
        }
        listenerState := AcceptingConnections;
        stateHistory := stateHistory + [AcceptingConnections];
        if connectionSocket == -1 {
          return StillRunning;
        }
        if !CallFirewall(firewallAnswer) {
          closes := closes + [connectionSocket];
          admissions := admissions + [Rejected(connectionSocket)];
          return StillRunning;
        }
        if !fcntlOk {
          closes := closes + [connectionSocket];
          admissions := admissions + [Unconfigured(connectionSocket)];
          return StillRunning;
        }
        NewConnection(connectionSocket, clientIP, now, taskCreated);
        admissions := admissions + [Handed(connectionSocket, !threaded || taskCreated)];
        if !threaded {
          return OneConnection;
        }
        return StillRunning;
    }

    /**
      `__listener__`, run once on a server fresh from its constructor.  Every
      way out of it goes through `terminateListener`: STOPPED, close of the
      listener socket, FINISHED.
     */
    method Listener(setups: seq<Setup>, polls: seq<Poll>) returns (exit: ListenerExit, setupsUsed: nat, pollsUsed: nat)
      requires Valid() && ClientIPsFit(polls)
      modifies this`listenerState, this`stateHistory, this`instanceUnloading, this`connection, this`closes, this`admissions
      ensures Valid() && setupsUsed <= |setups| && pollsUsed <= |polls|
      // socket () failures are retried; nothing else comes back to the outer loop
      ensures forall k :: 0 <= k < setupsUsed - 1 ==> setups[k].Attempt? && setups[k].socket == -1
      ensures exit == SetupFailed <==>
                0 < setupsUsed && setups[setupsUsed - 1].Attempt? &&
                setups[setupsUsed - 1].socket != -1 && !Ready(setups[setupsUsed - 1])
      ensures var accepting := Accepting(setups, setupsUsed);
              && (!accepting ==> pollsUsed == 0 && exit != TimedOut && exit != OneConnection)
              && (!accepting && exit == StillRunning ==>
                    setupsUsed == |setups| &&
                    (0 < setupsUsed ==> setups[setupsUsed - 1].Attempt? && setups[setupsUsed - 1].socket == -1))
              && (!accepting && exit == Unloaded ==>
                    (setupsUsed == 0 && old(instanceUnloading)) || (0 < setupsUsed && setups[setupsUsed - 1].SetupUnload?))
              && (accepting && exit == StillRunning ==>
                    pollsUsed == |polls| && Continuing(polls, pollsUsed))
              && (accepting && exit != StillRunning ==>
                    0 < pollsUsed && PollExit(polls[pollsUsed - 1]) == exit && Continuing(polls, pollsUsed - 1))
      ensures exit == Unloaded <==> instanceUnloading
      ensures stateHistory == old(stateHistory) + [Running] + StatesOf(polls, pollsUsed) + Termination(exit)
      ensures exit != StillRunning ==> listenerState == Finished
      ensures admissions == old(admissions) + AdmittedOf(polls, pollsUsed)
      ensures closes == old(closes) + ClosedOf(polls, pollsUsed) +
                (if exit == StillRunning then [] else [ListenerSocketOf(setups, setupsUsed)])
      ensures exit != OneConnection ==> connection == old(connection)
      ensures exit == OneConnection ==>
                0 < pollsUsed && connection != null && fresh(connection) && ConnectionFor(connection, polls[pollsUsed - 1])
    {
      listenerState := Running;
      stateHistory := stateHistory + [Running];
      var listenerSocket, ready;
      exit, setupsUsed, listenerSocket, ready := PrepareListenerSocket(setups);
      assert admissions == old(admissions) && closes == old(closes) && connection == old(connection);
      if ready {
        exit, pollsUsed := ServeListenerSocket(polls, listenerSocket);
      } else {
        pollsUsed := 0;
        assert StatesOf(polls, 0) == [] && AdmittedOf(polls, 0) == [] && ClosedOf(polls, 0) == [];
        assert old(stateHistory) + [Running] + [] == old(stateHistory) + [Running];
        assert old(admissions) + [] == old(admissions);
        assert old(closes) + [] == old(closes);
        if exit != StillRunning {
          TerminateListener(listenerSocket);
        }
      }
    }

    /**
      The accept loop on a listener socket that is ready, followed by
      `terminateListener` when the loop ends.
     */
    method ServeListenerSocket(polls: seq<Poll>, listenerSocket: int) returns (exit: ListenerExit, used: nat)
      requires Valid() && !instanceUnloading && ClientIPsFit(polls)
      modifies this`listenerState, this`stateHistory, this`instanceUnloading, this`connection, this`closes, this`admissions
      ensures Valid() && used <= |polls|
      ensures exit == StillRunning ==> used == |polls| && Continuing(polls, used)
      ensures exit != StillRunning ==>
                0 < used && PollExit(polls[used - 1]) == exit && Continuing(polls, used - 1) && listenerState == Finished
      ensures instanceUnloading <==> exit == Unloaded
      ensures stateHistory == old(stateHistory) + StatesOf(polls, used) + Termination(exit)
      ensures admissions == old(admissions) + AdmittedOf(polls, used)
      ensures closes == old(closes) + ClosedOf(polls, used) + (if exit == StillRunning then [] else [listenerSocket])
      ensures exit != OneConnection ==> connection == old(connection)
      ensures exit == OneConnection ==>
                0 < used && connection != null && fresh(connection) && ConnectionFor(connection, polls[used - 1])
    {
      exit, used := AcceptConnections(polls);
      if exit != StillRunning {
        TerminateListener(listenerSocket);
      }
    }

    /** The last setup attempt produced a listener socket that accepts connections. */
    static predicate Accepting(setups: seq<Setup>, used: nat)
    {
      0 < used <= |setups| && Ready(setups[used - 1])
    }

    /** The value of the variable `listenerSocket` after `used` setup attempts. */
    static function ListenerSocketOf(setups: seq<Setup>, used: nat): int
    {
      if 0 < used <= |setups| && setups[used - 1].Attempt? then setups[used - 1].socket else -1
    }

    /** The states `terminateListener` passes through once the listener ends. */
    static function Termination(exit: ListenerExit): seq<ListenerState>
    {
      if exit == StillRunning then [] else [Stopped, Finished]
    }

    /** The code after the label `terminateListener`. */
    method TerminateListener(listenerSocket: int)
      modifies this`listenerState, this`stateHistory, this`closes
      ensures Valid() && listenerState == Finished
      ensures stateHistory == old(stateHistory) + [Stopped, Finished]
      ensures closes == old(closes) + [listenerSocket]
    {
      listenerState := Stopped;
      stateHistory := stateHistory + [Stopped];
      closes := closes + [listenerSocket];
      listenerState := Finished;
      stateHistory := stateHistory + [Finished];
      AppendAssociative(old(stateHistory), [Stopped], [Finished]);
    }

    /**
      The outer loop of `__listener__` up to a listener socket that accepts
      connections (`ready`): a failed socket () is retried, a failed bind (),
      listen () or fcntl () ends it, and so does unloading.  `listenerSocket`
      is the value of the source's variable of that name.
     */
    method PrepareListenerSocket(setups: seq<Setup>) returns (exit: ListenerExit, used: nat, listenerSocket: int, ready: bool)
      modifies this`instanceUnloading
      ensures used <= |setups|
      ensures forall k :: 0 <= k < used - 1 ==> setups[k].Attempt? && setups[k].socket == -1
      ensures exit != TimedOut && exit != OneConnection
      ensures ready <==> Accepting(setups, used)
      ensures ready ==> exit == StillRunning && !instanceUnloading
      ensures exit == StillRunning && !ready ==>
                used == |setups| && !instanceUnloading && (0 < used ==> setups[used - 1].Attempt? && setups[used - 1].socket == -1)
      ensures exit == SetupFailed <==>
                0 < used && setups[used - 1].Attempt? && setups[used - 1].socket != -1 && !Ready(setups[used - 1])
      ensures exit == Unloaded <==> instanceUnloading
      ensures exit == Unloaded ==> (used == 0 && old(instanceUnloading)) || (0 < used && setups[used - 1].SetupUnload?)
      ensures listenerSocket == ListenerSocketOf(setups, used)
    {
      used, listenerSocket, ready := 0, -1, false;
      exit := StillRunning;
      while exit == StillRunning && !ready && !instanceUnloading && used < |setups|
        invariant used <= |setups|
        invariant forall k :: 0 <= k < used - 1 ==> setups[k].Attempt? && setups[k].socket == -1
        invariant exit == StillRunning || exit == SetupFailed
        invariant ready <==> 0 < used && Ready(setups[used - 1])
        invariant ready ==> exit == StillRunning && !instanceUnloading
        invariant exit == StillRunning && !ready && !instanceUnloading ==>
                    0 < used ==> setups[used - 1].Attempt? && setups[used - 1].socket == -1
        invariant exit == SetupFailed <==>
                    0 < used && setups[used - 1].Attempt? && setups[used - 1].socket != -1 && !Ready(setups[used - 1])
        invariant exit == SetupFailed ==> !instanceUnloading
        invariant instanceUnloading ==> (used == 0 && old(instanceUnloading)) || (0 < used && setups[used - 1].SetupUnload?)
        invariant listenerSocket == if 0 < used && setups[used - 1].Attempt? then setups[used - 1].socket else -1
        decreases |setups| - used
      {
        var s := setups[used];
        used := used + 1;
        match s
        case SetupUnload =>
          instanceUnloading := true;
        case Attempt(socket, bindOk, listenOk, fcntlOk) =>
          listenerSocket := socket;
          if socket == -1 {
            // SPIFFSsafeDelay (1000) is a yield, then the loop test again
          } else if !bindOk || !listenOk || !fcntlOk {
            exit := SetupFailed;
          } else {
            ready := true;
          }
      }
      if instanceUnloading {
        exit := Unloaded;
      }
    }

    /**
      The destructor up to its wait: delete the stored connection (which
      closes it) and tell the listener to stop.
     */
    method Unload()
      requires connection != null ==> connection.Valid()
      modifies this`instanceUnloading, connection
      ensures instanceUnloading
      ensures connection != null ==> connection.Valid() && connection.socket == -1
      ensures connection != null ==>
                connection.closeCalls == if old(connection.socket) != -1
                                         then old(connection.closeCalls) + [old(connection.socket)]
                                         else old(connection.closeCalls)
    {
      if connection != null {
        connection.CloseConnection();
      }
      instanceUnloading := true;
    }

    // ----- properties of the listener's run -----

    /** Every state the accept loop sets is ACCEPTING_CONNECTIONS. */
    lemma {:induction false} AcceptLoopStatesAccepting(ps: seq<Poll>, n: nat)
      requires n <= |ps|
      ensures forall i :: 0 <= i < |StatesOf(ps, n)| ==> StatesOf(ps, n)[i] == AcceptingConnections
    {
      if n > 0 {
        AcceptLoopStatesAccepting(ps, n - 1);
      }
    }

    /**
      A finished listener's states run RUNNING, ACCEPTING_CONNECTIONS...,
      STOPPED, FINISHED: they never go back in numeric order and end with
      FINISHED, so the destructor's wait for `< FINISHED` ends.
     */
    lemma {:induction false} FinishedHistoryAscends(ps: seq<Poll>, n: nat)
      requires n <= |ps|
      ensures var h := [Running] + StatesOf(ps, n) + [Stopped, Finished];
              Ascending(h) && h[|h| - 1] == Finished
    {
      AcceptLoopStatesAccepting(ps, n);
      var m := StatesOf(ps, n);
      var h := [Running] + m + [Stopped, Finished];
      forall i, j | 0 <= i < j < |h|
        ensures Code(h[i]) <= Code(h[j])
      {
        assert 0 < i <= |m| ==> h[i] == m[i - 1];
        assert 0 < j <= |m| ==> h[j] == m[j - 1];
      }
    }

    /**
      The sockets the accept loop closes are exactly those of its admissions
      other than the connections whose thread runs, in the same order.
     */
    lemma {:induction false} ClosedAreRefused(ps: seq<Poll>, n: nat)
      requires n <= |ps|
      ensures ClosedOf(ps, n) == ClosedFds(AdmittedOf(ps, n))
    {
      if n > 0 {
        ClosedAreRefused(ps, n - 1);
        var p := ps[n - 1];
        assert AdmittedOf(ps, n) == AdmittedOf(ps, n - 1) + AdmittedBy(p);
        assert ClosedOf(ps, n) == ClosedOf(ps, n - 1) + ClosedByPoll(p);
        if Reached(p) && p.accepted != -1 {
          AdmissionsSnoc(AdmittedOf(ps, n - 1), Admit(p));
          assert AdmittedBy(p) == [Admit(p)];
          assert ClosedByPoll(p) == ClosedBy(Admit(p));
        } else {
          assert AdmittedOf(ps, n) == AdmittedOf(ps, n - 1);
          assert ClosedOf(ps, n) == ClosedOf(ps, n - 1);
        }
      }
    }

    /**
      A non-threaded listener hands at most one socket to __newConnection__:
      exactly one when it stopped for that connection, none otherwise.
     */
    lemma {:induction false} NonThreadedHandsAtMostOne(ps: seq<Poll>, n: nat)
      requires !threaded && n <= |ps|
      requires 0 < n ==> Continuing(ps, n - 1)
      ensures HandedCount(AdmittedOf(ps, n)) == (if n > 0 && PollExit(ps[n - 1]) == OneConnection then 1 else 0)
    {
      if n > 0 {
        NonThreadedHandsNone(ps, n - 1);
        var p := ps[n - 1];
        if Reached(p) && p.accepted != -1 {
          assert AdmittedOf(ps, n) == AdmittedOf(ps, n - 1) + [Admit(p)];
          AdmissionsSnoc(AdmittedOf(ps, n - 1), Admit(p));
        } else {
          assert AdmittedOf(ps, n) == AdmittedOf(ps, n - 1);
        }
      }
    }

    lemma {:induction false} NonThreadedHandsNone(ps: seq<Poll>, n: nat)
      requires !threaded && n <= |ps|
      requires Continuing(ps, n)
      ensures HandedCount(AdmittedOf(ps, n)) == 0
    {
      if n > 0 {
        NonThreadedHandsNone(ps, n - 1);
        var p := ps[n - 1];
        if Reached(p) && p.accepted != -1 {
          assert AdmittedOf(ps, n) == AdmittedOf(ps, n - 1) + [Admit(p)];
          AdmissionsSnoc(AdmittedOf(ps, n - 1), Admit(p));
        } else {
          assert AdmittedOf(ps, n) == AdmittedOf(ps, n - 1);
        }
      }
    }

    /** Without a firewall callback no client is ever rejected. */
    lemma {:induction false} NoFirewallRejectsNobody(ps: seq<Poll>, n: nat)
      requires !hasFirewall && n <= |ps|
      ensures forall i :: 0 <= i < |AdmittedOf(ps, n)| ==> !AdmittedOf(ps, n)[i].Rejected?
    {
      if n > 0 {
        NoFirewallRejectsNobody(ps, n - 1);
      }
    }
  }

  /**
    The TcpClient constructor.  `socketResult` is what socket () returned,
    `fcntlOk` whether making it non-blocking worked, and `connectErrno` the
    errno of a failed connect () (`None` when connect () returned 0).  The
    connection object is created before the connection is established.
   */
  class TcpClient {
    var connection: TcpConnection?
    /** The sockets the constructor closed. */
    ghost var closes: seq<int>

    constructor (serverIP: string, timeOut: uint32, now: uint32, socketResult: int, fcntlOk: bool, connectErrno: Option<int>)
      requires |serverIP| <= 15
      ensures connection != null <==>
                socketResult != -1 && fcntlOk && (connectErrno.None? || connectErrno.value == EINPROGRESS)
      ensures connection != null ==>
                fresh(connection) && connection.Valid() && connection.socket == socketResult &&
                connection.otherSideIP == serverIP && connection.timeOutMillis == timeOut &&
                connection.lastActiveMillis == now && !connection.threadedMode &&
                !connection.timedOut && connection.thisSideIP == "" && connection.closeCalls == []
      ensures closes == (if socketResult != -1 && connection == null then [socketResult] else [])
    {
      if socketResult == -1 {
        connection := null;
        closes := [];
      } else if !fcntlOk {
        connection := null;
        closes := [socketResult];
      } else if connectErrno.Some? && connectErrno.value != EINPROGRESS {
        // connect () failed for another reason than "in progress"
        connection := null;
        closes := [socketResult];
      } else {
        connection := new TcpConnection(socketResult, serverIP, timeOut, now);
        closes := [];
      }
    }
  }
}
