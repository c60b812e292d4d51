/**
  Millisecond clock arithmetic, errno values and the scripted socket results
  shared by TcpConnection and TcpServer.

  On the ESP32 `unsigned long` is 32 bits wide, so `millis () - last` is a
  subtraction modulo 2^32 and the comparisons with a time-out are unsigned.
 */
module TcpTiming {
  import opened Common

  /** `TcpConnection::INFINITE_TIMEOUT`: a time-out of 0 never expires. */
  const INFINITE_TIMEOUT: uint32 := 0

  /** `millis () - last` computed in 32-bit unsigned arithmetic. */
  function Elapsed(now: uint32, last: uint32): (d: uint32)
    ensures (last + d) % TWO_32 == now
    ensures now >= last ==> d == now - last
    ensures now < last ==> d == now + TWO_32 - last
  {
    (now - last) % TWO_32
  }

  /** The elapsed time survives the millisecond counter wrapping around. */
  lemma ElapsedAcrossWrap(last: uint32, d: uint32)
    ensures Elapsed((last + d) % TWO_32, last) == d
  {
    if last + d >= TWO_32 {
      assert (last + d) % TWO_32 == last + d - TWO_32;
    }
  }

  /** Elapsed is the only 32-bit value that, added to `last`, gives `now`. */
  lemma ElapsedUnique(now: uint32, last: uint32, d: uint32)
    requires (last + d) % TWO_32 == now
    ensures d == Elapsed(now, last)
  {
    ElapsedAcrossWrap(last, d);
  }

  /**
    The retry rule of recvData and sendData: a would-block result is retried
    while the time-out is infinite or has not yet run out (strict `<`).
   */
  predicate MayRetry(timeOut: uint32, now: uint32, last: uint32)
  {
    timeOut == INFINITE_TIMEOUT || Elapsed(now, last) < timeOut
  }

  /**
    The rule of available(): a would-block peek counts as timed out when the
    time-out is 0 or when at least the time-out has elapsed (`>=`).
   */
  predicate PeekExpired(timeOut: uint32, now: uint32, last: uint32)
  {
    timeOut == INFINITE_TIMEOUT || Elapsed(now, last) >= timeOut
  }

  /**
    For a finite time-out the peek rule and the retry rule are exact
    opposites; for the infinite time-out both hold at once, so recvData keeps
    waiting while available() reports an error.
   */
  lemma PeekExpiredVersusRetry(timeOut: uint32, now: uint32, last: uint32)
    ensures timeOut != INFINITE_TIMEOUT ==> (PeekExpired(timeOut, now, last) <==> !MayRetry(timeOut, now, last))
    ensures timeOut == INFINITE_TIMEOUT ==> PeekExpired(timeOut, now, last) && MayRetry(timeOut, now, last)
  {
  }

  /**
    Measured in true time: when `d` milliseconds (less than 2^32) have passed
    since `last`, however the counter wrapped, a would-block is retried
    exactly while `d` is below a finite time-out, and a peek has expired
    exactly once `d` has reached it.
   */
  lemma WaitAcrossWrap(timeOut: uint32, last: uint32, d: uint32)
    ensures MayRetry(timeOut, (last + d) % TWO_32, last) <==> timeOut == INFINITE_TIMEOUT || d < timeOut
    ensures PeekExpired(timeOut, (last + d) % TWO_32, last) <==> timeOut == INFINITE_TIMEOUT || d >= timeOut
  {
    ElapsedAcrossWrap(last, d);
  }

  // ----- errno values and scripted system-call results -----

  /** `EBADF` as lwIP defines it (not part of TcpServer.hpp). */
  const EBADF: int := 9
  /** `#define EAGAIN 11` in TcpServer.hpp. */
  const EAGAIN: int := 11
  /** `#define ENAVAIL 119` in TcpServer.hpp. */
  const ENAVAIL: int := 119
  /** `#define EINPROGRESS 119` in TcpServer.hpp (the same value as ENAVAIL). */
  const EINPROGRESS: int := 119

  /** The errno values recvData and sendData treat as "not ready yet". */
  predicate WouldBlock(errno: int)
  {
    errno == EAGAIN || errno == ENAVAIL
  }

  /**
    The result of one recv()/send() call: `Count(n)` is a return value n >= 0,
    `Fail(errno)` a return value of -1 with errno set.
   */
  datatype SysRet = Count(n: nat) | Fail(errno: int)

  /** One scripted socket call: its result and the `millis ()` value read after it. */
  datatype Reply = Reply(ret: SysRet, millis: uint32)

  /**
    How a receive or send call ends: it returned a byte count, or the script
    ran out while it was still retrying (the real call has not returned yet).
   */
  datatype Outcome = Returned(n: nat) | Pending
}
