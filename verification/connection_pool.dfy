/**
 * The HTTP/1.1 idle-connection pool (`ConnectionPool`): two key-to-list
 * buckets, one for plain and one for secure connections, an expiry list
 * ordering every pooled connection by deadline, and a terminal `stopped`
 * flag.
 *
 * Each public operation runs under the pool's lock in the source; here each
 * is one atomic step, a pure function from the old pool to a `Step` that
 * carries the operation's answer, the new pool and the connections the
 * operation closes (in the source, after releasing the lock).
 */
module ConnectionPool {
  import opened Options
  import opened Seqs
  import opened CacheKeys
  import E = ExpiryLists

  /**
   * A connection as the pool sees it: an identity, the key it is cached
   * under and its security flag. A connection that is not secure stands for
   * a `PlainHttpConnection`; only those two kinds are ever returned to the
   * pool.
   */
  datatype Connection = Connection(id: nat, cacheKey: CacheKey, isSecure: bool)

  /** A `HashMap<CacheKey, LinkedList<HttpConnection>>`, keyed by the class
      of keys `CacheKey.equals` identifies. */
  type Buckets = map<KeyClass, seq<Connection>>

  datatype Pool = Pool(
    maxPoolSize: int,
    plainPool: Buckets,
    sslPool: Buckets,
    expiryList: E.ExpiryList<Connection>,
    stopped: bool)

  /** The outcome of one operation: its answer, the pool afterwards, and the
      connections it closes plainly. */
  datatype Step<T> = Step(result: T, pool: Pool, closed: seq<Connection>)

  /** Why cleanup closed a connection, when it says so. */
  datatype Failure = TransportError | DataReceivedWhileInPool

  /** The cause `cleanup` attaches: "unexpected cleanup triggered for non
      pooled connection", wrapping the signal's own error (null for none). */
  datatype Cause = UnexpectedCleanup(error: Option<Failure>)

  /** A pool as built by its constructor; `maxPoolSize` is the
      `jdk.httpclient.connectionPoolSize` property, 0 (or less) for unbounded. */
  function NewPool(maxPoolSize: int): (p: Pool)
    ensures p.maxPoolSize == maxPoolSize && !p.stopped
    ensures Size(p) == 0 && !p.expiryList.mayContainEntries
    ensures forall c :: !Pooled(p, c) && !Contains(p, c)
  {
    Pool(maxPoolSize, map[], map[], E.Empty(), false)
  }

  // ---------------------------------------------------------------------
  // Views
  // ---------------------------------------------------------------------

  /** `pool.get(k)`, with a missing list read as empty. */
  function Lookup(m: Buckets, k: KeyClass): seq<Connection> {
    if k in m then m[k] else []
  }

  function BucketsFor(p: Pool, secure: bool): Buckets {
    if secure then p.sslPool else p.plainPool
  }

  function WithBuckets(p: Pool, secure: bool, m: Buckets): Pool {
    if secure then p.(sslPool := m) else p.(plainPool := m)
  }

  /** `c` sits in the bucket its kind and its key select. */
  predicate Pooled(p: Pool, c: Connection) {
    c in Lookup(BucketsFor(p, c.isSecure), ClassOf(c.cacheKey))
  }

  /** The connections of the expiry list, head (farthest deadline) first. */
  function Idle(p: Pool): seq<Connection> {
    E.Connections(p.expiryList.entries)
  }

  function Size(p: Pool): nat {
    |p.expiryList.entries|
  }

  // ---------------------------------------------------------------------
  // Bucket primitives
  // ---------------------------------------------------------------------

  /** `putConnection`: appends `c` to the list of its key, creating the list
      when there is none; no other list changes. */
  function PutConnection(m: Buckets, c: Connection): (r: Buckets)
    ensures Lookup(r, ClassOf(c.cacheKey)) == Lookup(m, ClassOf(c.cacheKey)) + [c]
    ensures forall k | k != ClassOf(c.cacheKey) :: Lookup(r, k) == Lookup(m, k)
  {
    var k := ClassOf(c.cacheKey);
    m[k := Lookup(m, k) + [c]]
  }

  /** `removeFromPool(c, pool)`: removes the first occurrence of `c` from the
      list of its key and reports whether there was one; a missing or empty
      list is dropped from the map. */
  function RemoveFromBuckets(m: Buckets, c: Connection): (r: (bool, Buckets))
    ensures r.0 <==> c in Lookup(m, ClassOf(c.cacheKey))
    ensures Lookup(r.1, ClassOf(c.cacheKey)) == RemoveFirst(Lookup(m, ClassOf(c.cacheKey)), c)
    ensures forall k | k != ClassOf(c.cacheKey) :: Lookup(r.1, k) == Lookup(m, k)
  {
    var k := ClassOf(c.cacheKey);
    if k !in m || |m[k]| == 0 then (false, m - {k})
    else (c in m[k], m[k := RemoveFirst(m[k], c)])
  }

  /** `removeFromPool(c)`: the same, in the bucket map of the connection's kind. */
  function RemoveFromPool(p: Pool, c: Connection): (r: (bool, Pool))
    ensures r.0 <==> Pooled(p, c)
    ensures r.1.expiryList == p.expiryList && r.1.stopped == p.stopped && r.1.maxPoolSize == p.maxPoolSize
    ensures BucketsFor(r.1, !c.isSecure) == BucketsFor(p, !c.isSecure)
  {
    var (found, m) := RemoveFromBuckets(BucketsFor(p, c.isSecure), c);
    (found, WithBuckets(p, c.isSecure, m))
  }

  // ---------------------------------------------------------------------
  // getConnection
  // ---------------------------------------------------------------------

  /** The key `getConnection` looks up: for a plain connection through a
      proxy the destination plays no part. */
  function LookupKey(secure: bool, addr: Option<Address>, proxy: Option<Address>): (k: CacheKey)
    ensures k.secure == secure && k.proxy == proxy
    ensures k.destination == None <==> addr == None || (!secure && proxy != None)
    ensures k.destination != None ==> k.destination == addr
  {
    CacheKey(secure, if secure || proxy.None? then addr else None, proxy)
  }

  /** `findConnection`: takes the first connection of the key's list, and
      its expiry entry, or answers null. */
  function FindConnection(p: Pool, key: CacheKey, secure: bool): (r: Step<Option<Connection>>)
    ensures r.closed == []
    ensures r.result.None? <==> |Lookup(BucketsFor(p, secure), ClassOf(key))| == 0
    ensures r.result.None? ==> r.pool == p
    ensures r.result.Some? ==>
              && r.result.value == Lookup(BucketsFor(p, secure), ClassOf(key))[0]
              && Lookup(BucketsFor(r.pool, secure), ClassOf(key)) == Lookup(BucketsFor(p, secure), ClassOf(key))[1..]
              && r.pool.expiryList == E.Remove(p.expiryList, r.result)
    ensures forall k | k != ClassOf(key) :: Lookup(BucketsFor(r.pool, secure), k) == Lookup(BucketsFor(p, secure), k)
    ensures BucketsFor(r.pool, !secure) == BucketsFor(p, !secure)
    ensures r.pool.stopped == p.stopped && r.pool.maxPoolSize == p.maxPoolSize
  {
    var m := BucketsFor(p, secure);
    var k := ClassOf(key);
    if k !in m || |m[k]| == 0 then Step(None, p, [])
    else
      var c := m[k][0];
      var m1 := m[k := m[k][1..]];
      assert forall k2 | k2 != k :: Lookup(m1, k2) == Lookup(m, k2);
      var p1 := WithBuckets(p, secure, m1);
      assert BucketsFor(p1, secure) == m1 && BucketsFor(p1, !secure) == BucketsFor(p, !secure);
      Step(Some(c), p1.(expiryList := E.Remove(p.expiryList, Some(c))), [])
  }

  /** `getConnection` / `getConnection0`: null once stopped, otherwise a
      lookup in the bucket map the security flag selects. */
  function GetConnection(p: Pool, secure: bool, addr: Option<Address>, proxy: Option<Address>): (r: Step<Option<Connection>>)
    ensures r.closed == []
    ensures p.stopped ==> r.result.None?
    ensures r.result.None? ==> r.pool == p
    ensures r.result.Some? ==> r.result.value in Lookup(BucketsFor(p, secure), ClassOf(LookupKey(secure, addr, proxy)))
    ensures r.pool.stopped == p.stopped && r.pool.maxPoolSize == p.maxPoolSize
  {
    if p.stopped then Step(None, p, [])
    else FindConnection(p, LookupKey(secure, addr, proxy), secure)
  }

  // ---------------------------------------------------------------------
  // returnToPool
  // ---------------------------------------------------------------------

  /** `putConnection` into the bucket map of the connection's kind. */
  function Put(p: Pool, c: Connection): (r: Pool)
    ensures Pooled(r, c)
    ensures r.expiryList == p.expiryList && r.stopped == p.stopped && r.maxPoolSize == p.maxPoolSize
  {
    WithBuckets(p, c.isSecure, PutConnection(BucketsFor(p, c.isSecure), c))
  }

  /** Whether returning a connection must first evict the oldest one. */
  predicate AtCapacity(p: Pool) {
    p.maxPoolSize > 0 && Size(p) >= p.maxPoolSize
  }

  /**
   * The eviction half of `returnToPool`: at capacity the tail of the expiry
   * list (the nearest deadline, whatever its key) is taken off the list,
   * removed from its bucket and scheduled for closing; below capacity
   * nothing happens.
   */
  function MakeRoom(p: Pool): (r: Step<()>)
    ensures !AtCapacity(p) ==> r.pool == p && r.closed == []
    ensures AtCapacity(p) ==> |r.closed| == 1 && |r.pool.expiryList.entries| + 1 == |p.expiryList.entries|
    ensures AtCapacity(p) ==> r.closed == [Idle(p)[Size(p) - 1]]
    ensures r.pool.stopped == p.stopped && r.pool.maxPoolSize == p.maxPoolSize
  {
    var (toClose, el1) :=
      if AtCapacity(p) then E.RemoveOldestConnections(p.expiryList); E.RemoveOldest(p.expiryList)
      else (None, p.expiryList);
    var p1 := p.(expiryList := el1);
    var p2 := if toClose.Some? then RemoveFromPool(p1, toClose.value).1 else p1;
    Step((), p2, if toClose.Some? then [toClose.value] else [])
  }

  /**
   * `returnToPool(conn, now, keepAlive)`. `triggerDone` is what the freshly
   * registered cleanup trigger's `isDone()` answers under the lock. A fired
   * trigger means cleanup already closed the connection: nothing happens.
   * A stopped pool closes the connection. Otherwise the pool first makes
   * room (`MakeRoom`), then the connection is appended to the end of its
   * bucket and given an expiry entry `keepAlive` seconds past `now`.
   */
  function ReturnToPool(p: Pool, conn: Connection, triggerDone: bool, now: int, keepAlive: int): (r: Step<()>)
    ensures triggerDone ==> r.pool == p && r.closed == []
    ensures !triggerDone && p.stopped ==> r.pool == p && r.closed == [conn]
    ensures !triggerDone && !p.stopped ==>
              && Pooled(r.pool, conn)
              && conn in Idle(r.pool)
              && r.pool.expiryList.mayContainEntries
              && |r.closed| == (if AtCapacity(p) then 1 else 0)
              && Size(r.pool) == (if AtCapacity(p) then Size(p) else Size(p) + 1)
    ensures !triggerDone && !p.stopped ==>
              var room := MakeRoom(p);
              && r.closed == room.closed
              && Lookup(BucketsFor(r.pool, conn.isSecure), ClassOf(conn.cacheKey))
                 == Lookup(BucketsFor(room.pool, conn.isSecure), ClassOf(conn.cacheKey)) + [conn]
              && multiset(r.pool.expiryList.entries)
                 == multiset(room.pool.expiryList.entries) + multiset{E.Entry(conn, E.ExpiryFor(now, keepAlive))}
    ensures r.pool.stopped == p.stopped && r.pool.maxPoolSize == p.maxPoolSize
  {
    if triggerDone then Step((), p, [])
    else if p.stopped then Step((), p, [conn])
    else
      var room := MakeRoom(p);
      var p3 := Put(room.pool, conn);
      var p4 := p3.(expiryList := E.Add(p3.expiryList, conn, now, keepAlive));
      Step((), p4, room.closed)
  }

  // ---------------------------------------------------------------------
  // purgeExpiredConnectionsAndReturnNextDeadline
  // ---------------------------------------------------------------------

  /** Removes each connection of `cs` from its bucket, in order; the flag
      says whether every one of them was found (the source asserts so). */
  function RemoveAllFromPool(p: Pool, cs: seq<Connection>): (r: (bool, Pool))
    ensures r.1.expiryList == p.expiryList && r.1.stopped == p.stopped && r.1.maxPoolSize == p.maxPoolSize
    decreases |cs|
  {
    if |cs| == 0 then (true, p)
    else
      var (found, p1) := RemoveFromPool(p, cs[0]);
      var (rest, p2) := RemoveAllFromPool(p1, cs[1..]);
      (found && rest, p2)
  }

  /**
   * `purgeExpiredConnectionsAndReturnNextDeadline(now)`: when the hint says
   * the list may hold entries, purges every entry due at or before `now`,
   * removes those connections from their buckets and closes them; answers
   * the milliseconds until the nearest remaining deadline, 0 when none
   * remains or when the hint said there was nothing to do.
   */
  function PurgeExpiredConnections(p: Pool, now: int): (r: Step<int>)
    ensures !p.expiryList.mayContainEntries ==> r == Step(0, p, [])
    ensures r.result >= 0
    ensures p.expiryList.mayContainEntries ==> (r.result > 0 <==> Size(r.pool) > 0)
    ensures Size(r.pool) + |r.closed| == Size(p)
    ensures forall i | 0 <= i < |r.pool.expiryList.entries| ::
              r.pool.expiryList.entries[i] == p.expiryList.entries[i]
    ensures r.pool.stopped == p.stopped && r.pool.maxPoolSize == p.maxPoolSize
  {
    if !p.expiryList.mayContainEntries then Step(0, p, [])
    else
      var purge := E.PurgeUntil(p.expiryList, now);
      var p1 := RemoveAllFromPool(p.(expiryList := purge.list), purge.closed).1;
      var next := match E.NextExpiryDeadline(purge.list)
        case Some(d) => d - now
        case None => 0;
      assert p1.expiryList == purge.list;
      Step(next, p1, purge.closed)
  }

  // ---------------------------------------------------------------------
  // stop, contains, cleanup
  // ---------------------------------------------------------------------

  /** `stop`: marks the pool stopped, hands every idle connection over for
      closing (head of the expiry list first) and empties everything. */
  function Stop(p: Pool): (r: Step<()>)
    ensures r.pool.stopped && Size(r.pool) == 0 && !r.pool.expiryList.mayContainEntries
    ensures forall c :: !Pooled(r.pool, c)
    ensures |r.closed| == Size(p)
    ensures forall c :: c in r.closed <==> c in Idle(p)
    ensures r.pool.maxPoolSize == p.maxPoolSize
  {
    Step((), Pool(p.maxPoolSize, map[], map[], E.Clear(p.expiryList), true), Idle(p))
  }

  /** `contains0`: whether `c` is in the list of its key in either bucket map. */
  function Contains(p: Pool, c: Connection): (found: bool)
    ensures Pooled(p, c) ==> found
  {
    var k := ClassOf(c.cacheKey);
    (k in p.plainPool && c in p.plainPool[k]) || (k in p.sslPool && c in p.sslPool[k])
  }

  /**
   * `cleanup(c, pendingData, error)`: removes `c` from its bucket and from
   * the expiry list, then closes it; the close carries an "unexpected
   * cleanup" cause only when `c` was not in its bucket and data had arrived.
   */
  function Cleanup(p: Pool, c: Connection, pendingData: int, error: Option<Failure>): (r: Step<Option<Cause>>)
    ensures r.closed == [c]
    ensures r.result.Some? <==> !Pooled(p, c) && pendingData != 0
    ensures r.result.Some? ==> r.result.value.error == error
    ensures r.pool.stopped == p.stopped && r.pool.maxPoolSize == p.maxPoolSize
  {
    var (removed, p1) := RemoveFromPool(p, c);
    var p2 := p1.(expiryList := E.Remove(p1.expiryList, Some(c)));
    Step(if !removed && pendingData != 0 then Some(UnexpectedCleanup(error)) else None, p2, [c])
  }
}
