/**
  TcpConnection: one accepted or initiated socket with time-out aware
  receive, send, peek and close.

  The socket, the clock and the other thread are oracles: recvData and
  sendData consume a scripted sequence of Reply values, one per recv()/send()
  call, each carrying the `millis ()` value read after the call.
 */
module TcpConnections {
  import opened Common
  import opened TcpTiming

  /** sendData never offers more than this many bytes to one send() call. */
  const MAX_CHUNK: nat := 2048

  /** The results of available (): NOT_AVAILABLE = 0, AVAILABLE = 1, ERROR = 3. */
  datatype Availability = NotAvailable | Available | Error

  /** One send() request: where in the caller's buffer it starts and how many bytes it offers. */
  datatype Chunk = Chunk(offset: nat, length: nat)

  function Sum(s: seq<nat>): nat
  {
    if s == [] then 0 else s[0] + Sum(s[1..])
  }

  /** The chunk lengths sendData offers when every send() takes its whole chunk. */
  function ChunkPlan(size: nat): (plan: seq<nat>)
    decreases size
  {
    if size == 0 then [] else
    var c := Min(size, MAX_CHUNK);
    [c] + ChunkPlan(size - c)
  }

  /**
    The plan covers the buffer exactly, in chunks of 1 to 2048 bytes of which
    all but the last are full, so there are ceil(size / 2048) of them.
   */
  lemma {:induction false} ChunkPlanShape(size: nat)
    ensures var plan := ChunkPlan(size);
            && Sum(plan) == size
            && (forall k :: 0 <= k < |plan| ==> 0 < plan[k] <= MAX_CHUNK)
            && (forall k :: 0 <= k < |plan| - 1 ==> plan[k] == MAX_CHUNK)
            && |plan| == (size + MAX_CHUNK - 1) / MAX_CHUNK
    decreases size
  {
    if size > 0 {
      var c := Min(size, MAX_CHUNK);
      var rest := ChunkPlan(size - c);
      ChunkPlanShape(size - c);
      var plan := ChunkPlan(size);
      assert plan == [c] + rest;
      assert plan[1..] == rest;
      assert forall k :: 1 <= k < |plan| ==> plan[k] == rest[k - 1];
      if size > MAX_CHUNK {
        assert (size + MAX_CHUNK - 1) / MAX_CHUNK == (size - c + MAX_CHUNK - 1) / MAX_CHUNK + 1;
      } else {
        assert rest == [];
      }
    }
  }

  /** 5000 bytes go out as 2048, 2048 and 904. */
  lemma FiveThousandBytes()
    ensures ChunkPlan(5000) == [2048, 2048, 904]
  {
    assert ChunkPlan(904) == [904] + ChunkPlan(0);
    assert ChunkPlan(2952) == [2048] + ChunkPlan(904);
    assert ChunkPlan(5000) == [2048] + ChunkPlan(2952);
  }

  /** A reply that recvData and sendData answer by yielding and calling again. */
  predicate Retryable(r: Reply, timeOut: uint32, last: uint32)
  {
    r.ret.Fail? && WouldBlock(r.ret.errno) && MayRetry(timeOut, r.millis, last)
  }

  /** Every reply in `rs` is a retry measured against the same last activity. */
  ghost predicate AllRetries(rs: seq<Reply>, timeOut: uint32, last: uint32)
  {
    forall k :: 0 <= k < |rs| ==> Retryable(rs[k], timeOut, last)
  }

  /** What send() returns for a non-failing reply when `len` bytes were offered: never more than `len`. */
  function Accepted(r: Reply, len: nat): nat
  {
    if r.ret.Fail? then 0 else Min(r.ret.n, len)
  }

  /** The lengths of a list of requests. */
  function Lengths(cs: seq<Chunk>): (r: seq<nat>)
    ensures |r| == |cs|
  {
    if cs == [] then [] else [cs[0].length] + Lengths(cs[1..])
  }

  /**
    What the sendData loop does with one send() result when `chunk` bytes
    were offered: ask again having accepted `accepted` bytes and with last
    activity `last`, or return, `failed` saying whether it gave up on a
    failure (setting the time-out flag and closing).
   */
  datatype Step = Again(accepted: nat, last: uint32) | Stop(failed: bool)

  /**
    The switch on one send() result: a retried would-block accepts nothing
    and keeps the last activity; a positive count accepts at most the chunk
    and refreshes the last activity; 0 stops; any other failure stops and
    gives up.
   */
  function SendStep(r: Reply, timeOut: uint32, chunk: nat, last: uint32): (s: Step)
    ensures s.Again? <==> Retryable(r, timeOut, last) || (r.ret.Count? && r.ret.n > 0)
    ensures s.Again? ==> s.accepted == Accepted(r, chunk) <= chunk
    ensures s.Again? ==> s.last == (if r.ret.Count? then r.millis else last)
    ensures s.Stop? ==> (s.failed <==> r.ret.Fail?)
  {
    match r.ret
    case Fail(errno) =>
      if WouldBlock(errno) && MayRetry(timeOut, r.millis, last) then Again(0, last) else Stop(true)
    case Count(n) =>
      if n == 0 then Stop(false) else Again(Min(n, chunk), r.millis)
  }

  /**
    How a sendData call ends: its outcome, the number of replies it consumed,
    the send() requests it made, the last-activity time it leaves, and whether
    it gave up on a failure (setting the time-out flag and closing).
   */
  datatype SendEnd = SendEnd(outcome: Outcome, used: nat, requests: seq<Chunk>, last: uint32, timedOut: bool)

  /**
    The sendData loop from the point where `written` of `size` bytes have been
    accepted, `used` replies consumed and the last activity is `last`; `open`
    says that the handle is not -1.
   */
  function SendFrom(size: nat, rs: seq<Reply>, timeOut: uint32, open: bool, written: nat, used: nat, last: uint32): (e: SendEnd)
    requires written <= size && used <= |rs|
    ensures used <= e.used <= |rs| && |e.requests| == e.used - used
    ensures e.outcome.Returned? ==> written <= e.outcome.n <= size
    decreases |rs| - used
  {
    if written == size || !open then SendEnd(Returned(written), used, [], last, false)
    else if used == |rs| then SendEnd(Pending, used, [], last, false)
    else
      var chunk := Chunk(written, Min(size - written, MAX_CHUNK));
      match SendStep(rs[used], timeOut, chunk.length, last)
      case Again(accepted, next) =>
        var e := SendFrom(size, rs, timeOut, open, written + accepted, used + 1, next);
        e.(requests := [chunk] + e.requests)
      case Stop(failed) =>
        SendEnd(Returned(written), used + 1, [chunk], last, failed)
  }

  /** A request starts inside the buffer, at or after `written`, and offers min(rest, 2048) bytes. */
  predicate ChunkFits(size: nat, written: nat, c: Chunk)
  {
    written <= c.offset < size && c.length == Min(size - c.offset, MAX_CHUNK)
  }

  /** Request `next` starts where the bytes that reply `r` accepted of request `prev` end. */
  predicate Follows(prev: Chunk, r: Reply, next: Chunk)
  {
    next.offset == prev.offset + Accepted(r, prev.length)
  }

  /**
    Chunking: every request starts inside the buffer, at or after the bytes
    already written, and offers min(rest of the buffer, 2048) bytes; the first
    one starts at exactly the bytes already written.
   */
  lemma {:induction false} SendChunkBounds(size: nat, rs: seq<Reply>, timeOut: uint32, open: bool, written: nat, used: nat, last: uint32)
    requires written <= size && used <= |rs|
    ensures var e := SendFrom(size, rs, timeOut, open, written, used, last);
            && (e.requests != [] ==> e.requests[0].offset == written)
            && forall k :: 0 <= k < |e.requests| ==> ChunkFits(size, written, e.requests[k])
    decreases |rs| - used
  {
    if written < size && open && used < |rs| {
      var chunk := Chunk(written, Min(size - written, MAX_CHUNK));
      var e := SendFrom(size, rs, timeOut, open, written, used, last);
      match SendStep(rs[used], timeOut, chunk.length, last)
      case Again(accepted, next) =>
        SendChunkBounds(size, rs, timeOut, open, written + accepted, used + 1, next);
        var t := SendFrom(size, rs, timeOut, open, written + accepted, used + 1, next);
        assert e.requests == [chunk] + t.requests;
        forall k | 0 < k < |e.requests|
          ensures ChunkFits(size, written, e.requests[k])
        {
          assert e.requests[k] == t.requests[k - 1];
          assert ChunkFits(size, written + accepted, t.requests[k - 1]);
        }
      case Stop(_) =>
    }
  }

  /**
    Each request starts where the bytes accepted of the one before it end,
    reply `rs[from + k]` answering request `reqs[k]`.
   */
  ghost predicate Chained(reqs: seq<Chunk>, rs: seq<Reply>, from: nat)
    decreases |reqs|
  {
    |reqs| <= 1 || (from < |rs| && Follows(reqs[0], rs[from], reqs[1]) && Chained(reqs[1..], rs, from + 1))
  }

  /** The requests sendData makes are chained by what each send() accepted. */
  lemma {:induction false} SendChunksFollow(size: nat, rs: seq<Reply>, timeOut: uint32, open: bool, written: nat, used: nat, last: uint32)
    requires written <= size && used <= |rs|
    ensures var e := SendFrom(size, rs, timeOut, open, written, used, last);
            Chained(e.requests, rs, used)
    decreases |rs| - used
  {
    if written < size && open && used < |rs| {
      var chunk := Chunk(written, Min(size - written, MAX_CHUNK));
      var e := SendFrom(size, rs, timeOut, open, written, used, last);
      match SendStep(rs[used], timeOut, chunk.length, last)
      case Again(accepted, next) =>
        SendChunksFollow(size, rs, timeOut, open, written + accepted, used + 1, next);
        SendChunkBounds(size, rs, timeOut, open, written + accepted, used + 1, next);
        var t := SendFrom(size, rs, timeOut, open, written + accepted, used + 1, next);
        assert e == t.(requests := [chunk] + t.requests);
        assert e.requests[1..] == t.requests;
      case Stop(_) =>
    }
  }

  /** The bytes that replies `rs[from..]` accepted of requests `reqs`, one reply per request. */
  function AcceptedTotal(reqs: seq<Chunk>, rs: seq<Reply>, from: nat): nat
    requires from + |reqs| <= |rs|
    decreases |reqs|
  {
    if reqs == [] then 0 else Accepted(rs[from], reqs[0].length) + AcceptedTotal(reqs[1..], rs, from + 1)
  }

  /** Without any send() request, sendData returns at once: Pending only when no reply is left. */
  lemma SendWithoutRequests(size: nat, rs: seq<Reply>, timeOut: uint32, open: bool, written: nat, used: nat, last: uint32)
    requires written <= size && used <= |rs|
    ensures var e := SendFrom(size, rs, timeOut, open, written, used, last);
            e.requests == [] <==> written == size || !open || used == |rs|
    ensures var e := SendFrom(size, rs, timeOut, open, written, used, last);
            e.requests == [] ==> e.used == used && e.last == last && !e.timedOut
                                 && e.outcome == (if written < size && open then Pending else Returned(written))
  {
  }

  /** sendData returns the bytes already written plus, request by request, what each send() accepted. */
  lemma {:induction false} SendReturnsAccepted(size: nat, rs: seq<Reply>, timeOut: uint32, open: bool, written: nat, used: nat, last: uint32)
    requires written <= size && used <= |rs|
    ensures var e := SendFrom(size, rs, timeOut, open, written, used, last);
            e.outcome.Returned? ==> e.outcome.n == written + AcceptedTotal(e.requests, rs, used)
    decreases |rs| - used
  {
    if written < size && open && used < |rs| {
      var chunk := Chunk(written, Min(size - written, MAX_CHUNK));
      var e := SendFrom(size, rs, timeOut, open, written, used, last);
      match SendStep(rs[used], timeOut, chunk.length, last)
      case Again(accepted, next) =>
        SendReturnsAccepted(size, rs, timeOut, open, written + accepted, used + 1, next);
        var t := SendFrom(size, rs, timeOut, open, written + accepted, used + 1, next);
        assert e == t.(requests := [chunk] + t.requests);
        assert e.requests[1..] == t.requests;
      case Stop(failed) =>
        assert e == SendEnd(Returned(written), used + 1, [chunk], last, failed);
        assert AcceptedTotal([chunk][1..], rs, used + 1) == 0;
    }
  }

  /**
    Short of the whole buffer sendData returns only on a closed handle, on a
    send() result of 0, or on a failure it does not retry; only the last of
    these sets the time-out flag, and a Pending call has used every reply.
   */
  lemma {:induction false} SendShortReturn(size: nat, rs: seq<Reply>, timeOut: uint32, open: bool, written: nat, used: nat, last: uint32)
    requires written <= size && used <= |rs|
    ensures var e := SendFrom(size, rs, timeOut, open, written, used, last);
            && (e.outcome.Returned? && e.outcome.n < size ==>
                  || (!open && e.used == used)
                  || (e.used > used && rs[e.used - 1].ret == Count(0) && !e.timedOut)
                  || (e.used > used && rs[e.used - 1].ret.Fail? && e.timedOut))
            && (e.outcome.Pending? ==> !e.timedOut && e.used == |rs|)
    decreases |rs| - used
  {
    if written < size && open && used < |rs| {
      var chunk := Chunk(written, Min(size - written, MAX_CHUNK));
      match SendStep(rs[used], timeOut, chunk.length, last)
      case Again(accepted, next) =>
        SendShortReturn(size, rs, timeOut, open, written + accepted, used + 1, next);
      case Stop(_) =>
    }
  }

  /**
    sendData gives up (time-out flag, close) exactly on a failure it may not
    retry: not EAGAIN/ENAVAIL, or the time-out has run out since the last
    activity it leaves behind.
   */
  lemma {:induction false} SendGivesUp(size: nat, rs: seq<Reply>, timeOut: uint32, open: bool, written: nat, used: nat, last: uint32)
    requires written <= size && used <= |rs|
    ensures var e := SendFrom(size, rs, timeOut, open, written, used, last);
            e.timedOut <==>
              e.used > used && e.outcome.Returned? && rs[e.used - 1].ret.Fail? && !Retryable(rs[e.used - 1], timeOut, e.last)
    decreases |rs| - used
  {
    if written < size && open && used < |rs| {
      var chunk := Chunk(written, Min(size - written, MAX_CHUNK));
      match SendStep(rs[used], timeOut, chunk.length, last)
      case Again(accepted, next) =>
        SendGivesUp(size, rs, timeOut, open, written + accepted, used + 1, next);
        SendKeepsGoing(size, rs, timeOut, open, written + accepted, used + 1, next);
      case Stop(_) =>
    }
  }

  /**
    Every reply before the last one consumed was a would-block failure or a
    positive count, and so is the last one when the call is Pending.
   */
  lemma {:induction false} SendKeepsGoing(size: nat, rs: seq<Reply>, timeOut: uint32, open: bool, written: nat, used: nat, last: uint32)
    requires written <= size && used <= |rs|
    ensures var e := SendFrom(size, rs, timeOut, open, written, used, last);
            forall k :: used <= k < (if e.outcome.Pending? then e.used else e.used - 1) ==>
              (rs[k].ret.Fail? && WouldBlock(rs[k].ret.errno)) || (rs[k].ret.Count? && rs[k].ret.n > 0)
    decreases |rs| - used
  {
    if written < size && open && used < |rs| {
      var chunk := Chunk(written, Min(size - written, MAX_CHUNK));
      match SendStep(rs[used], timeOut, chunk.length, last)
      case Again(accepted, next) =>
        SendKeepsGoing(size, rs, timeOut, open, written + accepted, used + 1, next);
      case Stop(_) =>
    }
  }

  /** With an infinite time-out, sendData gives up only on a failure other than EAGAIN/ENAVAIL. */
  lemma SendInfiniteTimeOut(size: nat, rs: seq<Reply>, open: bool, written: nat, used: nat, last: uint32)
    requires written <= size && used <= |rs|
    ensures var e := SendFrom(size, rs, INFINITE_TIMEOUT, open, written, used, last);
            e.timedOut ==> rs[e.used - 1].ret.Fail? && !WouldBlock(rs[e.used - 1].ret.errno)
  {
    SendGivesUp(size, rs, INFINITE_TIMEOUT, open, written, used, last);
  }

  /** The replies from index `from` on accept, in order, at least each chunk of the plan. */
  ghost predicate AcceptsPlan(rs: seq<Reply>, from: nat, plan: seq<nat>)
    decreases |plan|
  {
    || plan == []
    || (from < |rs| && rs[from].ret.Count? && rs[from].ret.n >= plan[0] && AcceptsPlan(rs, from + 1, plan[1..]))
  }

  /**
    When every send() takes its whole chunk, sendData returns the whole
    buffer, asking for exactly the chunks of ChunkPlan.
   */
  lemma {:induction false} SendAcceptingEverything(size: nat, rs: seq<Reply>, timeOut: uint32, written: nat, used: nat, last: uint32)
    requires written <= size && used <= |rs|
    requires AcceptsPlan(rs, used, ChunkPlan(size - written))
    ensures var e := SendFrom(size, rs, timeOut, true, written, used, last);
            e.outcome == Returned(size) && !e.timedOut && Lengths(e.requests) == ChunkPlan(size - written)
    decreases |rs| - used
  {
    if written < size {
      var c := Min(size - written, MAX_CHUNK);
      var rest := ChunkPlan(size - (written + c));
      assert ChunkPlan(size - written) == [c] + rest;
      assert used < |rs| && rs[used].ret.Count? && rs[used].ret.n >= c > 0;
      var r := rs[used];
      assert SendStep(r, timeOut, c, last) == Again(c, r.millis);
      assert ChunkPlan(size - written)[1..] == rest;
      SendAcceptingEverything(size, rs, timeOut, written + c, used + 1, r.millis);
      var t := SendFrom(size, rs, timeOut, true, written + c, used + 1, r.millis);
      var e := SendFrom(size, rs, timeOut, true, written, used, last);
      assert e.outcome == t.outcome && e.timedOut == t.timedOut;
      assert e.requests == [Chunk(written, c)] + t.requests;
      assert e.requests[1..] == t.requests;
      assert Lengths(e.requests) == [c] + Lengths(t.requests);
    }
  }

  /** A healthy link takes 5000 bytes as 2048, 2048 and 904, and sendData returns 5000. */
  lemma SendFiveThousand(rs: seq<Reply>, timeOut: uint32, last: uint32)
    requires |rs| >= 3
    requires rs[0].ret == Count(2048) && rs[1].ret == Count(2048) && rs[2].ret == Count(904)
    ensures var e := SendFrom(5000, rs, timeOut, true, 0, 0, last);
            e.outcome == Returned(5000) && e.used == 3 && Lengths(e.requests) == [2048, 2048, 904]
  {
    FiveThousandBytes();
    var plan: seq<nat> := [2048, 2048, 904];
    assert plan[1..][1..][1..] == [];
    assert AcceptsPlan(rs, 2, plan[1..][1..]);
    assert AcceptsPlan(rs, 1, plan[1..]);
    assert AcceptsPlan(rs, 0, plan);
    SendAcceptingEverything(5000, rs, timeOut, 0, 0, last);
  }

  class TcpConnection {
    /** `__socket__`: the connection's handle, -1 once closed. */
    var socket: int
    /** The handle the connection was constructed with. */
    ghost const handle: int
    /** The handles this connection has passed to the OS close(). */
    ghost var closeCalls: seq<int>
    /** `__otherSideIP__`, captured at construction. */
    const otherSideIP: string
    /** `__thisSideIP__`, the cached local address ("" until known). */
    var thisSideIP: string
    /** `__timeOutMillis__` */
    var timeOutMillis: uint32
    /** `__lastActiveMillis__` */
    var lastActiveMillis: uint32
    /** `__timeOut__`: set once a time-out or hard error closed the connection. */
    var timedOut: bool
    /** Constructed in threaded mode with a connection handler. */
    const threadedMode: bool
    /** `__listenerThreadStarted__`, fixed before the constructor returns. */
    const started: bool

    /**
      The handle only moves from its initial value to -1, and a real handle is
      passed to close() exactly once, when that happens.
     */
    ghost predicate Valid()
      reads this
    {
      && (socket == handle || socket == -1)
      && closeCalls == (if socket == -1 && handle != -1 then [handle] else [])
    }

    /** The non-threaded constructor. */
    constructor (connectionSocket: int, ip: string, timeOut: uint32, now: uint32)
      requires |ip| <= 15
      ensures Valid() && socket == connectionSocket && handle == connectionSocket && closeCalls == []
      ensures otherSideIP == ip && thisSideIP == ""
      ensures timeOutMillis == timeOut && lastActiveMillis == now && !timedOut
      ensures !threadedMode && !started
    {
      socket := connectionSocket;
      handle := connectionSocket;
      closeCalls := [];
      otherSideIP := ip;
      thisSideIP := "";
      timeOutMillis := timeOut;
      lastActiveMillis := now;
      timedOut := false;
      threadedMode := false;
      started := false;
    }

    /**
      The threaded constructor: `started` is set, and cleared again only when a
      handler was given and its task could not be created.
     */
    constructor Threaded(hasHandler: bool, connectionSocket: int, ip: string, timeOut: uint32, now: uint32, taskCreated: bool)
      requires |ip| <= 15
      ensures Valid() && socket == connectionSocket && handle == connectionSocket && closeCalls == []
      ensures otherSideIP == ip && thisSideIP == ""
      ensures timeOutMillis == timeOut && lastActiveMillis == now && !timedOut
      ensures threadedMode == hasHandler
      ensures started <==> !hasHandler || taskCreated
    {
      socket := connectionSocket;
      handle := connectionSocket;
      closeCalls := [];
      otherSideIP := ip;
      thisSideIP := "";
      timeOutMillis := timeOut;
      lastActiveMillis := now;
      timedOut := false;
      threadedMode := hasHandler;
      var threadStarted := true;
      if hasHandler && !taskCreated {
        threadStarted := false;
      }
      started := threadStarted;
    }

    /**
      closeConnection: swaps the handle with -1 and closes what it took out,
      unless that was -1 already. A second call therefore closes nothing.
     */
    method CloseConnection()
      requires Valid()
      modifies this`socket, this`closeCalls
      ensures Valid() && socket == -1
      ensures closeCalls == if old(socket) != -1 then old(closeCalls) + [old(socket)] else old(closeCalls)
    {
      var connectionSocket := socket;
      socket := -1;
      if connectionSocket != -1 {
        closeCalls := closeCalls + [connectionSocket];
      }
    }

    /**
      recvData: returns 0 at once on a closed handle; retries would-block
      results while the time-out allows; a positive count is returned as it is
      and refreshes the last activity; a count of 0 returns 0; any other
      failure, or a would-block once the time-out has run out, sets the
      time-out flag, closes, and returns 0.
     */
    method RecvData(bufferSize: int, replies: seq<Reply>) returns (outcome: Outcome, used: nat)
      requires Valid()
      modifies this`socket, this`closeCalls, this`timedOut, this`lastActiveMillis
      ensures Valid() && used <= |replies|
      ensures old(socket) == -1 ==> outcome == Returned(0) && used == 0 && unchanged(this)
      ensures outcome.Pending? ==>
                && old(socket) != -1 && used == |replies|
                && AllRetries(replies, timeOutMillis, old(lastActiveMillis))
                && socket == old(socket) && timedOut == old(timedOut) && lastActiveMillis == old(lastActiveMillis)
      ensures outcome.Returned? && old(socket) != -1 ==>
                && 0 < used
                && AllRetries(replies[..used - 1], timeOutMillis, old(lastActiveMillis))
                && !Retryable(replies[used - 1], timeOutMillis, old(lastActiveMillis))
      ensures outcome.Returned? && old(socket) != -1 && replies[used - 1].ret.Count? ==>
                && outcome.n == replies[used - 1].ret.n
                && socket == old(socket) && timedOut == old(timedOut)
                && lastActiveMillis == (if outcome.n > 0 then replies[used - 1].millis else old(lastActiveMillis))
      ensures outcome.Returned? && old(socket) != -1 && replies[used - 1].ret.Fail? ==>
                && outcome.n == 0 && timedOut && socket == -1
                && lastActiveMillis == old(lastActiveMillis)
    {
      used := 0;
      while true
        invariant Valid() && used <= |replies|
        invariant socket == old(socket) && timedOut == old(timedOut) && lastActiveMillis == old(lastActiveMillis)
        invariant closeCalls == old(closeCalls)
        invariant old(socket) == -1 ==> used == 0
        invariant AllRetries(replies[..used], timeOutMillis, lastActiveMillis)
        decreases |replies| - used
      {
        if socket == -1 {
          return Returned(0), used;
        }
        if used == |replies| {
          assert replies[..used] == replies;
          return Pending, used;
        }
        var r := replies[used];
        used := used + 1;
        assert replies[..used - 1] == replies[..used][..used - 1];
        match r.ret
        case Fail(errno) =>
          if WouldBlock(errno) && MayRetry(timeOutMillis, r.millis, lastActiveMillis) {
            // SPIFFSsafeDelay (1): a yield, then the next recv()
            assert replies[..used] == replies[..used - 1] + [r];
          } else {
            timedOut := true;
            CloseConnection();
            return Returned(0), used;
          }
        case Count(n) =>
          if n > 0 {
            lastActiveMillis := r.millis;
          }
          return Returned(n), used;
      }
    }

    /**
      available: peeks one byte. A successful peek (even of a closed peer)
      gives Available. EAGAIN or EBADF give NotAvailable while a finite
      time-out has not run out, and otherwise (the infinite time-out included)
      set the time-out flag, close and give Error. Any other errno gives Error
      without closing. A peek on handle -1 fails with EBADF.
     */
    method Available(peek: Reply) returns (a: Availability)
      requires Valid()
      modifies this`socket, this`closeCalls, this`timedOut
      ensures Valid()
      ensures var ret := if old(socket) == -1 then Fail(EBADF) else peek.ret;
              var expired := PeekExpired(timeOutMillis, peek.millis, lastActiveMillis);
              && (ret.Count? ==> a == Availability.Available)
              && (ret.Fail? && (ret.errno == EAGAIN || ret.errno == EBADF) ==> a == (if expired then Error else NotAvailable))
              && (ret.Fail? && ret.errno != EAGAIN && ret.errno != EBADF ==> a == Error)
              && (if ret.Fail? && (ret.errno == EAGAIN || ret.errno == EBADF) && expired
                  then timedOut && socket == -1
                  else timedOut == old(timedOut) && socket == old(socket) && closeCalls == old(closeCalls))
    {
      var ret := if socket == -1 then Fail(EBADF) else peek.ret;
      if ret.Fail? {
        if ret.errno == EAGAIN || ret.errno == EBADF {
          if timeOutMillis == INFINITE_TIMEOUT || Elapsed(peek.millis, lastActiveMillis) >= timeOutMillis {
            timedOut := true;
            CloseConnection();
            return Error;
          }
          return NotAvailable;
        } else {
          return Error;
        }
      } else {
        return Availability.Available;
      }
    }

    /**
      One pass of the sendData loop on an open handle: a send() of
      min(remaining, 2048) bytes answered by `r`, and the switch on its result
      as SendStep describes it; `accepted` is 0 when the loop stops.
     */
    method SendOnce(remaining: nat, r: Reply) returns (accepted: nat, stop: bool)
      requires Valid() && socket != -1
      modifies this`socket, this`closeCalls, this`timedOut, this`lastActiveMillis
      ensures Valid()
      ensures var s := SendStep(r, timeOutMillis, Min(remaining, MAX_CHUNK), old(lastActiveMillis));
              && stop == s.Stop? && accepted == (if s.Again? then s.accepted else 0)
              && lastActiveMillis == (if s.Again? then s.last else old(lastActiveMillis))
              && timedOut == (old(timedOut) || (s.Stop? && s.failed))
              && socket == (if s.Stop? && s.failed then -1 else old(socket))
    {
      var chunk := Min(remaining, MAX_CHUNK);
      match r.ret
      case Fail(errno) =>
        if WouldBlock(errno) && MayRetry(timeOutMillis, r.millis, lastActiveMillis) {
          // SPIFFSsafeDelay (1): a yield, then the next send()
          return 0, false;
        }
        timedOut := true;
        CloseConnection();
        return 0, true;
      case Count(n) =>
        if n == 0 {
          return 0, true;
        }
        lastActiveMillis := r.millis;
        return Min(n, chunk), false;
    }

    /**
      sendData: offers the buffer to send() in chunks of at most 2048 bytes,
      advancing past what each positive result accepted. It returns the bytes
      accepted so far when the handle is -1, when send() returns 0, or when a
      failure is not retried (then it also sets the time-out flag and closes).
     */
    method SendData(bufferSize: nat, replies: seq<Reply>) returns (outcome: Outcome, used: nat, ghost offered: seq<Chunk>)
      requires Valid()
      modifies this`socket, this`closeCalls, this`timedOut, this`lastActiveMillis
      ensures Valid()
      ensures var e := SendFrom(bufferSize, replies, timeOutMillis, old(socket) != -1, 0, 0, old(lastActiveMillis));
              && outcome == e.outcome && used == e.used && offered == e.requests
              && lastActiveMillis == e.last
              && timedOut == (old(timedOut) || e.timedOut)
              && socket == (if e.timedOut then -1 else old(socket))
    {
      var writtenTotal: nat := 0;
      var remaining: nat := bufferSize;
      used, offered := 0, [];
      ghost var open := socket != -1;
      ghost var e0 := SendFrom(bufferSize, replies, timeOutMillis, open, 0, 0, lastActiveMillis);
      while remaining != 0
        invariant Valid()
        invariant writtenTotal + remaining == bufferSize && used <= |replies|
        invariant socket == old(socket) && timedOut == old(timedOut) && closeCalls == old(closeCalls)
        invariant var e := SendFrom(bufferSize, replies, timeOutMillis, open, writtenTotal, used, lastActiveMillis);
                  && e0.outcome == e.outcome && e0.used == e.used && e0.last == e.last && e0.timedOut == e.timedOut
                  && e0.requests == offered + e.requests
        decreases |replies| - used
      {
        if socket == -1 {
          return Returned(writtenTotal), used, offered;
        }
        if used == |replies| {
          return Pending, used, offered;
        }
        var r := replies[used];
        ghost var before := SendFrom(bufferSize, replies, timeOutMillis, open, writtenTotal, used, lastActiveMillis);
        ghost var offeredBefore, request := offered, Chunk(writtenTotal, Min(remaining, MAX_CHUNK));
        offered := offered + [request];
        used := used + 1;
        var accepted, stop := SendOnce(remaining, r);
        if stop {
          return Returned(writtenTotal), used, offered;
        }
        writtenTotal := writtenTotal + accepted;
        remaining := remaining - accepted;
        ghost var after := SendFrom(bufferSize, replies, timeOutMillis, open, writtenTotal, used, lastActiveMillis);
        assert before == after.(requests := [request] + after.requests);
        assert offeredBefore + ([request] + after.requests) == offered + after.requests;
      }
      return Returned(writtenTotal), used, offered;
    }

    /** setTimeOut: replaces the time-out and restarts the idle clock. */
    method SetTimeOut(timeOut: uint32, now: uint32)
      modifies this`timeOutMillis, this`lastActiveMillis
      ensures timeOutMillis == timeOut && lastActiveMillis == now
    {
      timeOutMillis := timeOut;
      lastActiveMillis := now;
    }

    /**
      getThisSideIP: `local` is what getsockname() and inet_ntoa() give, None
      when getsockname() fails. A failure empties the cache and answers "";
      otherwise the first address obtained is cached and always answered.
     */
    method GetThisSideIP(local: Option<string>) returns (ip: string)
      modifies this`thisSideIP
      ensures local.None? ==> thisSideIP == "" && ip == ""
      ensures local.Some? ==> thisSideIP == (if old(thisSideIP) == "" then local.value else old(thisSideIP))
      ensures ip == thisSideIP
    {
      if local.None? {
        thisSideIP := "";
      } else if thisSideIP == "" {
        thisSideIP := local.value;
      }
      ip := thisSideIP;
    }
  }
}
