/**
 * The subscriber a pooled connection's flow is wired to while it sits idle
 * (`ConnectionPool.CleanupTrigger`). Any signal the flow delivers (an error,
 * completion or data) marks the trigger done and cleans the connection out
 * of the pool. The trigger's two flags are state here; the flow plumbing
 * around it is reduced to the three signals.
 */
module CleanupTriggers {
  import opened Options
  import opened CacheKeys
  import opened ConnectionPool
  import opened PoolInvariants

  datatype CleanupTrigger = CleanupTrigger(connection: Connection, done: bool, dropped: bool)

  /** What the connection's flow can deliver to the trigger. `remaining` is
      the number of bytes in the delivered buffers. */
  datatype Signal = OnError(error: Failure) | OnComplete | OnNext(remaining: nat)

  /** A trigger as `returnToPool` registers it. */
  function NewTrigger(c: Connection): CleanupTrigger {
    CleanupTrigger(c, false, false)
  }

  /** `onSubscribe`: whether the trigger asks its upstream for one item. */
  function OnSubscribe(t: CleanupTrigger): (requested: bool)
    ensures t == NewTrigger(t.connection) ==> requested
    ensures t.done || t.dropped ==> !requested
  {
    !t.dropped && !t.done
  }

  /** `dropSubscription`: the flow has been detached from the trigger. */
  function DropSubscription(t: CleanupTrigger): (r: CleanupTrigger)
    ensures r.connection == t.connection && r.done == t.done
    ensures !OnSubscribe(r)
  {
    t.(dropped := true)
  }

  /** The pending byte count and the error each signal passes to cleanup. */
  function PendingData(s: Signal): (n: nat)
    ensures s.OnNext? ==> n == s.remaining
    ensures !s.OnNext? ==> n == 0
  {
    match s
    case OnNext(remaining) => remaining
    case _ => 0
  }

  function ErrorOf(s: Signal): (e: Option<Failure>)
    ensures s.OnComplete? <==> e.None?
    ensures s.OnNext? ==> e == Some(DataReceivedWhileInPool)
    ensures s.OnError? ==> e == Some(s.error)
  {
    match s
    case OnError(error) => Some(error)
    case OnComplete => None
    case OnNext(_) => Some(DataReceivedWhileInPool)
  }

  /**
   * `triggerCleanup`, reached from `onError`, `onComplete` and `onNext`:
   * sets `done`, then runs the pool's `cleanup` for the connection. Nothing
   * checks `done` first, so a trigger that has already fired fires again.
   */
  function Fire(p: Pool, t: CleanupTrigger, s: Signal): (r: (CleanupTrigger, Step<Option<Cause>>))
    ensures r.0 == t.(done := true)
    ensures r.1.closed == [t.connection]
    ensures r.1.result.Some? <==> !Pooled(p, t.connection) && PendingData(s) != 0
    ensures r.1.result.Some? ==> r.1.result.value.error == ErrorOf(s)
  {
    (t.(done := true), Cleanup(p, t.connection, PendingData(s), ErrorOf(s)))
  }

  /** A trigger that has fired, or whose subscription was dropped, asks for
      nothing more; a fresh one asks for one item. */
  lemma SubscribeRequestsOnlyWhenIdle(p: Pool, t: CleanupTrigger, s: Signal)
    ensures OnSubscribe(NewTrigger(t.connection))
    ensures !OnSubscribe(Fire(p, t, s).0)
    ensures !OnSubscribe(DropSubscription(t))
  {
  }

  /** Errors and completion never carry the "unexpected cleanup" cause;
      data does, unless the connection was pooled or the buffers were empty. */
  lemma CauseOnlyForUnexpectedData(p: Pool, t: CleanupTrigger, s: Signal)
    ensures !s.OnNext? ==> Fire(p, t, s).1.result.None?
    ensures s.OnNext? ==>
              (Fire(p, t, s).1.result == Some(UnexpectedCleanup(Some(DataReceivedWhileInPool)))
               <==> !Pooled(p, t.connection) && s.remaining > 0)
  {
  }

  /**
   * Whatever signal an idle connection's flow delivers, the connection is
   * closed and leaves the pool for good: the pool stays valid, nothing
   * contains the connection, a later lookup never hands it out, and every
   * other pooled connection stays pooled.
   */
  lemma SignalEvicts(p: Pool, t: CleanupTrigger, s: Signal,
                     secure: bool, addr: Option<Address>, proxy: Option<Address>)
    requires Valid(p)
    ensures var q := Fire(p, t, s).1.pool;
            && Valid(q)
            && !Contains(q, t.connection)
            && GetConnection(q, secure, addr, proxy).result != Some(t.connection)
            && (forall x | x != t.connection :: Pooled(q, x) <==> Pooled(p, x))
  {
    var c := t.connection;
    var q := Fire(p, t, s).1.pool;
    CleanupSpec(p, c, PendingData(s), ErrorOf(s));
    ContainsIffPooled(q, c);
    GetConnectionSpec(q, secure, addr, proxy);
  }

  /**
   * A signal that arrives while `returnToPool` is still registering the
   * trigger (before it takes the lock) closes the connection; the trigger
   * is then done, so `returnToPool` leaves the pool as it was and the
   * connection is never pooled.
   */
  lemma EarlySignalKeepsConnectionOut(p: Pool, conn: Connection, s: Signal, now: int, keepAlive: int)
    requires Valid(p) && !Pooled(p, conn)
    ensures var (t, fired) := Fire(p, NewTrigger(conn), s);
            var r := ReturnToPool(fired.pool, conn, t.done, now, keepAlive);
            && fired.closed == [conn]
            && r.closed == []
            && !Pooled(r.pool, conn)
            && SameContents(r.pool, p)
            && r.pool.expiryList == p.expiryList
  {
    CleanupUnpooledKeepsContents(p, conn, PendingData(s), ErrorOf(s));
  }

  /** A second signal to a trigger that has already fired closes the
      connection once more but changes the pool no further. */
  lemma SecondSignalChangesNothing(p: Pool, t: CleanupTrigger, s1: Signal, s2: Signal)
    requires Valid(p)
    ensures var (t1, r1) := Fire(p, t, s1);
            var (t2, r2) := Fire(r1.pool, t1, s2);
            && t2 == t1
            && SameContents(r2.pool, r1.pool)
            && r2.pool.expiryList == r1.pool.expiryList
            && r2.closed == [t.connection]
  {
    CleanupIdempotent(p, t.connection, PendingData(s1), ErrorOf(s1), PendingData(s2), ErrorOf(s2));
  }
}
