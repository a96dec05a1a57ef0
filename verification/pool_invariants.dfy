/**
 * The invariants the pool keeps across its operations, and the properties
 * of each operation on a pool that satisfies them:
 *  - the expiry list is sorted and its hint is conservative;
 *  - every bucket holds only connections of its kind filed under their own
 *    key, each at most once;
 *  - a connection is in a bucket exactly when it has an entry in the
 *    expiry list, and has at most one entry there;
 *  - with a positive maximum, the pool never holds more connections;
 *  - a stopped pool holds nothing.
 */
module PoolInvariants {
  import opened Options
  import opened Seqs
  import opened CacheKeys
  import E = ExpiryLists
  import opened ConnectionPool

  ghost predicate PlacedIn(m: Buckets, secure: bool) {
    forall k, c | k in m && c in m[k] :: c.isSecure == secure && ClassOf(c.cacheKey) == k
  }

  ghost predicate DistinctIn(m: Buckets) {
    forall k | k in m :: NoDup(m[k])
  }

  ghost predicate BucketsOk(p: Pool) {
    && PlacedIn(p.plainPool, false) && PlacedIn(p.sslPool, true)
    && DistinctIn(p.plainPool) && DistinctIn(p.sslPool)
  }

  /** A connection is in a bucket iff it has an entry in the expiry list. */
  ghost predicate CoMembership(p: Pool) {
    forall c :: Pooled(p, c) <==> c in Idle(p)
  }

  ghost predicate Valid(p: Pool) {
    && E.Valid(p.expiryList)
    && BucketsOk(p)
    && NoDup(Idle(p))
    && CoMembership(p)
    && (p.maxPoolSize > 0 ==> Size(p) <= p.maxPoolSize)
    && (p.stopped ==> Size(p) == 0)
  }

  /** Same bucket contents and same expiry entries (empty lists and the
      hint aside). */
  ghost predicate SameContents(p: Pool, q: Pool) {
    && p.expiryList.entries == q.expiryList.entries
    && p.stopped == q.stopped && p.maxPoolSize == q.maxPoolSize
    && forall s: bool, k: KeyClass :: Lookup(BucketsFor(p, s), k) == Lookup(BucketsFor(q, s), k)
  }

  lemma NewPoolValid(maxPoolSize: int)
    ensures Valid(NewPool(maxPoolSize))
    ensures forall c :: !Pooled(NewPool(maxPoolSize), c)
  {
  }

  // ---------------------------------------------------------------------
  // Effects of the bucket primitives
  // ---------------------------------------------------------------------

  lemma PutEffect(p: Pool, c: Connection)
    requires BucketsOk(p) && !Pooled(p, c)
    ensures BucketsOk(Put(p, c))
    ensures forall x :: Pooled(Put(p, c), x) <==> Pooled(p, x) || x == c
  {
    var s := c.isSecure;
    var k := ClassOf(c.cacheKey);
    var m := BucketsFor(p, s);
    var m' := PutConnection(m, c);
    AppendNoDup(Lookup(m, k), c);
    assert PlacedIn(m', s) by {
      forall k2: KeyClass, x: Connection | k2 in m' && x in m'[k2]
        ensures x.isSecure == s && ClassOf(x.cacheKey) == k2
      {
        assert m'[k2] == Lookup(m', k2);
        if k2 != k {
          assert m'[k2] == m[k2];
        } else if x != c {
          assert x in Lookup(m, k);
        }
      }
    }
    assert DistinctIn(m') by {
      forall k2 | k2 in m'
        ensures NoDup(m'[k2])
      {
        assert m'[k2] == Lookup(m', k2);
        if k2 != k {
          assert m'[k2] == m[k2];
        }
      }
    }
  }

  /** Replacing the expiry list leaves the buckets as they were. */
  lemma WithListKeepsBuckets(p: Pool, el: E.ExpiryList<Connection>)
    ensures BucketsOk(p.(expiryList := el)) == BucketsOk(p)
    ensures forall x :: Pooled(p.(expiryList := el), x) == Pooled(p, x)
  {
    var q := p.(expiryList := el);
    assert BucketsFor(q, true) == BucketsFor(p, true) && BucketsFor(q, false) == BucketsFor(p, false);
  }

  /** Replacing one list by a duplicate-free sub-collection of it keeps a
      bucket map well shaped. */
  lemma ShrinkListKeepsShape(m: Buckets, s: bool, k: KeyClass, l: seq<Connection>)
    requires PlacedIn(m, s) && DistinctIn(m)
    requires k in m && NoDup(l) && forall x | x in l :: x in m[k]
    ensures PlacedIn(m[k := l], s) && DistinctIn(m[k := l])
  {
    var m' := m[k := l];
    forall k2: KeyClass, x: Connection | k2 in m' && x in m'[k2]
      ensures x.isSecure == s && ClassOf(x.cacheKey) == k2
    {
      if k2 == k {
        assert x in m[k];
      } else {
        assert x in m[k2];
      }
    }
  }

  lemma RemoveFromBucketsKeepsShape(m: Buckets, s: bool, c: Connection)
    requires PlacedIn(m, s) && DistinctIn(m)
    ensures PlacedIn(RemoveFromBuckets(m, c).1, s) && DistinctIn(RemoveFromBuckets(m, c).1)
  {
    var k := ClassOf(c.cacheKey);
    if k in m && |m[k]| > 0 {
      RemoveFirstMembership(m[k], c);
      ShrinkListKeepsShape(m, s, k, RemoveFirst(m[k], c));
    }
  }

  /** `removeFromPool` keeps the buckets well shaped and unpools exactly `c`. */
  lemma RemoveEffect(p: Pool, c: Connection)
    requires BucketsOk(p)
    ensures BucketsOk(RemoveFromPool(p, c).1)
    ensures forall x :: Pooled(RemoveFromPool(p, c).1, x) <==> Pooled(p, x) && x != c
  {
    var s := c.isSecure;
    var k := ClassOf(c.cacheKey);
    var m := BucketsFor(p, s);
    var m' := RemoveFromBuckets(m, c).1;
    var q := RemoveFromPool(p, c).1;
    assert q == WithBuckets(p, s, m');
    RemoveFromBucketsKeepsShape(m, s, c);
    assert NoDup(Lookup(m, k));
    RemoveFirstMembership(Lookup(m, k), c);
    forall x
      ensures Pooled(q, x) <==> Pooled(p, x) && x != c
    {
      if x.isSecure != s {
        assert BucketsFor(q, x.isSecure) == BucketsFor(p, x.isSecure);
      } else if ClassOf(x.cacheKey) != k {
        assert Lookup(m', ClassOf(x.cacheKey)) == Lookup(m, ClassOf(x.cacheKey));
      } else {
        assert Lookup(m', k) == RemoveFirst(Lookup(m, k), c);
      }
    }
  }

  /** Every connection found in a bucket is pooled under its own key. */
  lemma InBucketIsPooled(p: Pool, s: bool, k: KeyClass, c: Connection)
    requires BucketsOk(p)
    requires c in Lookup(BucketsFor(p, s), k)
    ensures c.isSecure == s && ClassOf(c.cacheKey) == k && Pooled(p, c)
  {
  }

  /** A connection taken out of both its bucket and the expiry list, as
      `cleanup` and a `getConnection` hit do. */
  ghost function TakeOut(p: Pool, c: Connection): Pool {
    RemoveFromPool(p, c).1.(expiryList := E.Remove(p.expiryList, Some(c)))
  }

  /** `findConnection` on a hit removes the first connection of the list
      exactly as `removeFromPool` would. */
  lemma FindIsRemoveFirst(p: Pool, key: CacheKey, secure: bool)
    requires BucketsOk(p)
    requires |Lookup(BucketsFor(p, secure), ClassOf(key))| > 0
    ensures var c := Lookup(BucketsFor(p, secure), ClassOf(key))[0];
            FindConnection(p, key, secure).pool == TakeOut(p, c)
  {
    var m := BucketsFor(p, secure);
    var k := ClassOf(key);
    var c := m[k][0];
    InBucketIsPooled(p, secure, k, c);
    assert IndexOf(m[k], c) == 0;
    assert RemoveFirst(m[k], c) == m[k][1..];
  }

  // ---------------------------------------------------------------------
  // getConnection
  // ---------------------------------------------------------------------

  /**
   * On a valid pool, a hit hands out a pooled connection of the requested
   * kind filed under the requested key, and takes it out of both its bucket
   * and the expiry list, shrinking the pool by one; a miss means no pooled
   * connection of that kind and key exists.
   */
  lemma GetConnectionSpec(p: Pool, secure: bool, addr: Option<Address>, proxy: Option<Address>)
    requires Valid(p)
    ensures var r := GetConnection(p, secure, addr, proxy);
            && Valid(r.pool)
            && (r.result.Some? ==>
                  var c := r.result.value;
                  && c.isSecure == secure
                  && ClassOf(c.cacheKey) == ClassOf(LookupKey(secure, addr, proxy))
                  && Pooled(p, c) && !Pooled(r.pool, c)
                  && Size(r.pool) == Size(p) - 1
                  && (forall x | x != c :: Pooled(r.pool, x) <==> Pooled(p, x)))
            && (r.result.None? && !p.stopped ==>
                  forall x | Pooled(p, x) && x.isSecure == secure ::
                    ClassOf(x.cacheKey) != ClassOf(LookupKey(secure, addr, proxy)))
  {
    var r := GetConnection(p, secure, addr, proxy);
    var key := LookupKey(secure, addr, proxy);
    var k := ClassOf(key);
    if r.result.Some? {
      var c := r.result.value;
      InBucketIsPooled(p, secure, k, c);
      FindIsRemoveFirst(p, key, secure);
      assert r.pool == TakeOut(p, c);
      TakeOutEffect(p, c);
    } else if !p.stopped {
      forall x | Pooled(p, x) && x.isSecure == secure
        ensures ClassOf(x.cacheKey) != k
      {
      }
    }
  }

  /** What a hit hands out is equal, by `CacheKey.equals`, to the key looked
      up (for a lookup key with a known host, as every real one has). */
  lemma AcquiredKeyMatches(p: Pool, secure: bool, addr: Option<Address>, proxy: Option<Address>)
    requires Valid(p)
    requires HostKnown(LookupKey(secure, addr, proxy))
    ensures var r := GetConnection(p, secure, addr, proxy);
            r.result.Some? ==> KeyEquals(LookupKey(secure, addr, proxy), r.result.value.cacheKey)
  {
    GetConnectionSpec(p, secure, addr, proxy);
    var r := GetConnection(p, secure, addr, proxy);
    if r.result.Some? {
      KeyEqualsIffSameClass(LookupKey(secure, addr, proxy), r.result.value.cacheKey);
    }
  }

  // ---------------------------------------------------------------------
  // returnToPool
  // ---------------------------------------------------------------------

  /** The eviction step of `returnToPool` (`MakeRoom`): on a valid pool,
      the connections it closes leave both structures, and nothing else
      does. */
  lemma EvictOldestEffect(p: Pool)
    requires Valid(p)
    ensures var r := MakeRoom(p);
            && Valid(r.pool)
            && Size(r.pool) == Size(p) - |r.closed|
            && (forall x :: Pooled(r.pool, x) <==> Pooled(p, x) && x !in r.closed)
  {
    if AtCapacity(p) {
      var (t, el) := E.RemoveOldest(p.expiryList);
      var p1 := p.(expiryList := el);
      var q := RemoveFromPool(p1, t.value).1;
      E.RemoveOldestConnections(p.expiryList);
      assert MakeRoom(p) == Step((), q, [t.value]);
      DropLastMembership(Idle(p));
      RemoveEffect(p1, t.value);
      TakeOutKeepsValid(p, q, [t.value]);
    }
  }

  /** The admission step of `returnToPool`: append to the bucket, add to
      the expiry list. */
  lemma AdmitEffect(p: Pool, conn: Connection, now: int, keepAlive: int)
    requires Valid(p) && !Pooled(p, conn) && !p.stopped && !AtCapacity(p)
    ensures var p3 := Put(p, conn);
            var q := p3.(expiryList := E.Add(p3.expiryList, conn, now, keepAlive));
            && Valid(q)
            && Size(q) == Size(p) + 1
            && (forall x :: Pooled(q, x) <==> Pooled(p, x) || x == conn)
  {
    AdmitBuckets(p, conn, now, keepAlive);
    AdmitList(p, conn, now, keepAlive);
    var p3 := Put(p, conn);
    var q := p3.(expiryList := E.Add(p3.expiryList, conn, now, keepAlive));
    PutInKeepsCoMembership(p, q, conn);
  }

  /** The bucket half of the admission step. */
  lemma AdmitBuckets(p: Pool, conn: Connection, now: int, keepAlive: int)
    requires BucketsOk(p) && !Pooled(p, conn)
    ensures var p3 := Put(p, conn);
            var q := p3.(expiryList := E.Add(p3.expiryList, conn, now, keepAlive));
            && BucketsOk(q)
            && (forall x :: Pooled(q, x) <==> Pooled(p, x) || x == conn)
  {
    var p3 := Put(p, conn);
    PutEffect(p, conn);
    WithListKeepsBuckets(p3, E.Add(p3.expiryList, conn, now, keepAlive));
  }

  /** The expiry-list half of the admission step. */
  lemma AdmitList(p: Pool, conn: Connection, now: int, keepAlive: int)
    requires E.Valid(p.expiryList) && NoDup(Idle(p)) && conn !in Idle(p)
    ensures var p3 := Put(p, conn);
            var q := p3.(expiryList := E.Add(p3.expiryList, conn, now, keepAlive));
            && E.Valid(q.expiryList) && NoDup(Idle(q))
            && Size(q) == Size(p) + 1
            && (forall y :: y in Idle(q) <==> y in Idle(p) || y == conn)
  {
    InsertNoDup(Idle(p), E.InsertionPoint(p.expiryList.entries, E.ExpiryFor(now, keepAlive)), conn);
  }

  /** Adding one connection to both the buckets and the expiry list keeps
      the two in step. */
  lemma PutInKeepsCoMembership(p: Pool, q: Pool, c: Connection)
    requires CoMembership(p)
    requires forall x :: Pooled(q, x) <==> Pooled(p, x) || x == c
    requires forall y :: y in Idle(q) <==> y in Idle(p) || y == c
    ensures CoMembership(q)
  {
    forall x
      ensures Pooled(q, x) <==> x in Idle(q)
    {
      assert Pooled(p, x) <==> x in Idle(p);
    }
  }

  /** Entry `i` of the expiry list is due no later than any other. */
  ghost predicate NearestDeadline(p: Pool, i: int) {
    0 <= i < Size(p) && forall j | 0 <= j < Size(p) :: p.expiryList.entries[i].expiry <= p.expiryList.entries[j].expiry
  }


  /**
   * `returnToPool` on a valid pool, for a connection that is not pooled
   * already (the source does not check this; its callers guarantee it),
   * keeps the pool valid: in particular a positive maximum is never
   * exceeded. When the pool is at capacity the connection with the nearest
   * deadline, whatever its key, is evicted from both structures and
   * closed; then the returned connection is pooled.
   */
  lemma ReturnToPoolSpec(p: Pool, conn: Connection, triggerDone: bool, now: int, keepAlive: int)
    requires Valid(p) && !Pooled(p, conn)
    ensures var r := ReturnToPool(p, conn, triggerDone, now, keepAlive);
            && Valid(r.pool)
            && (!triggerDone && !p.stopped ==>
                  && Pooled(r.pool, conn)
                  && (AtCapacity(p) ==> r.closed == [Idle(p)[Size(p) - 1]] && NearestDeadline(p, Size(p) - 1))
                  && (!AtCapacity(p) ==> r.closed == [])
                  && (forall x :: Pooled(r.pool, x) <==> (Pooled(p, x) && x !in r.closed) || x == conn))
  {
    if !triggerDone && !p.stopped {
      if AtCapacity(p) {
        ReturnAtCapacity(p, conn, now, keepAlive);
      } else {
        ReturnUnderCapacity(p, conn, now, keepAlive);
      }
    }
  }

  /** `returnToPool` with room left: nothing is evicted. */
  lemma ReturnUnderCapacity(p: Pool, conn: Connection, now: int, keepAlive: int)
    requires Valid(p) && !Pooled(p, conn) && !p.stopped && !AtCapacity(p)
    ensures var r := ReturnToPool(p, conn, false, now, keepAlive);
            && Valid(r.pool)
            && r.closed == []
            && (forall x :: Pooled(r.pool, x) <==> (Pooled(p, x) && x !in r.closed) || x == conn)
  {
    AdmitEffect(p, conn, now, keepAlive);
    var r := ReturnToPool(p, conn, false, now, keepAlive);
    var p3 := Put(p, conn);
    assert r.pool == p3.(expiryList := E.Add(p3.expiryList, conn, now, keepAlive));
  }

  /** `returnToPool` at capacity: the tail of the expiry list is evicted
      first. */
  lemma ReturnAtCapacity(p: Pool, conn: Connection, now: int, keepAlive: int)
    requires Valid(p) && !Pooled(p, conn) && !p.stopped && AtCapacity(p)
    ensures var r := ReturnToPool(p, conn, false, now, keepAlive);
            && Valid(r.pool)
            && r.closed == [Idle(p)[Size(p) - 1]]
            && NearestDeadline(p, Size(p) - 1)
            && (forall x :: Pooled(r.pool, x) <==> (Pooled(p, x) && x !in r.closed) || x == conn)
  {
    var r := ReturnToPool(p, conn, false, now, keepAlive);
    var room := MakeRoom(p);
    EvictOldestEffect(p);
    AdmitEffect(room.pool, conn, now, keepAlive);
    TailIsNearest(p);
    var p3 := Put(room.pool, conn);
    assert r.pool == p3.(expiryList := E.Add(p3.expiryList, conn, now, keepAlive));
  }

  /** The tail of a sorted expiry list is due no later than any entry. */
  lemma TailIsNearest(p: Pool)
    requires E.Sorted(p.expiryList.entries) && Size(p) > 0
    ensures NearestDeadline(p, Size(p) - 1)
  {
  }

  /** Returning a connection that is already pooled files it twice: the
      invariant needs the callers' guarantee. */
  lemma DoubleReturnDuplicates(p: Pool, conn: Connection, now: int, keepAlive: int)
    requires Valid(p) && Pooled(p, conn) && !p.stopped && !AtCapacity(p)
    ensures !NoDup(Idle(ReturnToPool(p, conn, false, now, keepAlive).pool))
  {
    assert conn in Idle(p);
    ReturnFilesAgain(p, conn, now, keepAlive);
  }

  /** A second entry for a connection already in the expiry list. */
  lemma ReturnFilesAgain(p: Pool, conn: Connection, now: int, keepAlive: int)
    requires conn in Idle(p) && !p.stopped && !AtCapacity(p)
    ensures !NoDup(Idle(ReturnToPool(p, conn, false, now, keepAlive).pool))
  {
    var q := ReturnToPool(p, conn, false, now, keepAlive).pool;
    assert q.expiryList == E.Add(p.expiryList, conn, now, keepAlive);
    var i := E.InsertionPoint(p.expiryList.entries, E.ExpiryFor(now, keepAlive));
    InsertPresentDuplicates(Idle(p), i, conn);
  }

  // ---------------------------------------------------------------------
  // purgeExpiredConnectionsAndReturnNextDeadline
  // ---------------------------------------------------------------------

  /** Removing a list of distinct pooled connections finds every one of
      them and takes exactly them out. */
  lemma {:induction false} RemoveAllEffect(p: Pool, cs: seq<Connection>)
    requires BucketsOk(p) && NoDup(cs)
    requires forall x | x in cs :: Pooled(p, x)
    ensures var r := RemoveAllFromPool(p, cs);
            && r.0
            && BucketsOk(r.1)
            && (forall x :: Pooled(r.1, x) <==> Pooled(p, x) && x !in cs)
    decreases |cs|
  {
    if |cs| > 0 {
      var c := cs[0];
      var rest := cs[1..];
      var (found, p1) := RemoveFromPool(p, c);
      RemoveEffect(p, c);
      TailNoDup(cs);
      RemoveAllEffect(p1, rest);
      RemoveAllStep(p, cs);
    }
  }

  /** One step of the removal: the head is found and the rest is removed
      from what is left. */
  lemma RemoveAllStep(p: Pool, cs: seq<Connection>)
    requires |cs| > 0 && Pooled(p, cs[0])
    ensures var p1 := RemoveFromPool(p, cs[0]).1;
            RemoveAllFromPool(p, cs) == (RemoveAllFromPool(p1, cs[1..]).0, RemoveAllFromPool(p1, cs[1..]).1)
    ensures forall x :: x in cs <==> x == cs[0] || x in cs[1..]
  {
    assert cs == [cs[0]] + cs[1..];
  }

  /**
   * The sweep on a valid pool keeps it valid; every connection it purges
   * was in its bucket (the source asserts so) and is in neither structure
   * afterwards, and nothing else leaves the pool.
   */
  lemma SweepSpec(p: Pool, now: int)
    requires Valid(p)
    ensures var r := PurgeExpiredConnections(p, now);
            && Valid(r.pool)
            && NoDup(r.closed)
            && (forall x | x in r.closed :: Pooled(p, x))
            && (forall x :: Pooled(r.pool, x) <==> Pooled(p, x) && x !in r.closed)
  {
    if p.expiryList.mayContainEntries {
      SweepFindsEveryPurged(p, now);
    }
  }

  /** The assertion of the sweep: every purged connection is found in its
      bucket. */
  lemma SweepFindsEveryPurged(p: Pool, now: int)
    requires Valid(p)
    ensures var purge := E.PurgeUntil(p.expiryList, now);
            var q := p.(expiryList := purge.list);
            var r := RemoveAllFromPool(q, purge.closed);
            && r.0
            && Valid(r.1)
            && NoDup(purge.closed)
            && (forall x | x in purge.closed :: Pooled(p, x))
            && (forall x :: Pooled(r.1, x) <==> Pooled(p, x) && x !in purge.closed)
  {
    var purge := E.PurgeUntil(p.expiryList, now);
    var q := p.(expiryList := purge.list);
    E.PurgePartitions(p.expiryList, now);
    assert forall x :: Pooled(q, x) == Pooled(p, x);
    forall x | x in purge.closed
      ensures Pooled(p, x)
    {
      assert x in Idle(p);
    }
    RemoveAllEffect(q, purge.closed);
    var r := RemoveAllFromPool(q, purge.closed);
    assert Idle(r.1) == Idle(q);
    TakeOutKeepsValid(p, r.1, purge.closed);
  }

  /** On a valid pool, the sweep closes exactly the connections whose
      deadline is at or before `now`, and keeps every other one. */
  lemma SweepClosesExactlyExpired(p: Pool, now: int)
    requires Valid(p)
    ensures var r := PurgeExpiredConnections(p, now);
            forall i | 0 <= i < Size(p) ::
              (Idle(p)[i] in r.closed <==> p.expiryList.entries[i].expiry <= now)
              && (Pooled(r.pool, Idle(p)[i]) <==> p.expiryList.entries[i].expiry > now)
  {
    var r := PurgeExpiredConnections(p, now);
    var es := p.expiryList.entries;
    if p.expiryList.mayContainEntries {
      SweepSpec(p, now);
      var purge := E.PurgeUntil(p.expiryList, now);
      assert r.closed == purge.closed;
      E.PurgeClosesExactlyExpired(p.expiryList, now);
      forall i | 0 <= i < Size(p)
        ensures (Idle(p)[i] in r.closed <==> es[i].expiry <= now)
                && (Pooled(r.pool, Idle(p)[i]) <==> es[i].expiry > now)
      {
        var x := Idle(p)[i];
        assert x in Idle(p);
        assert Pooled(p, x);
        assert x in r.closed <==> es[i].expiry <= now;
      }
    } else {
      assert Size(p) == 0;
    }
  }

  /** The sweep's answer is the time from `now` to the nearest remaining
      deadline, which lies in the future. */
  lemma SweepAnswersNearestDeadline(p: Pool, now: int)
    requires Valid(p)
    ensures var r := PurgeExpiredConnections(p, now);
            && (Size(r.pool) == 0 ==> r.result == 0)
            && (Size(r.pool) > 0 ==>
                  && r.result > 0
                  && (exists i | 0 <= i < Size(r.pool) :: r.pool.expiryList.entries[i].expiry == now + r.result)
                  && (forall i | 0 <= i < Size(r.pool) :: now + r.result <= r.pool.expiryList.entries[i].expiry))
  {
    SweepAnswer(p, now);
  }

  /** The answer of the sweep depends only on the expiry list being
      sorted and its hint being sound. */
  lemma SweepAnswer(p: Pool, now: int)
    requires E.Valid(p.expiryList)
    ensures var r := PurgeExpiredConnections(p, now);
            && (Size(r.pool) == 0 ==> r.result == 0)
            && (Size(r.pool) > 0 ==>
                  && r.result > 0
                  && (exists i | 0 <= i < Size(r.pool) :: r.pool.expiryList.entries[i].expiry == now + r.result)
                  && (forall i | 0 <= i < Size(r.pool) :: now + r.result <= r.pool.expiryList.entries[i].expiry))
  {
    if p.expiryList.mayContainEntries {
      var purge := E.PurgeUntil(p.expiryList, now);
      var r := PurgeExpiredConnections(p, now);
      E.PurgeLeavesFutureDeadline(p.expiryList, now);
      assert r.pool.expiryList == purge.list;
      var n := |purge.list.entries|;
      if n > 0 {
        assert r.result == purge.list.entries[n - 1].expiry - now;
      }
    }
  }

  // ---------------------------------------------------------------------
  // stop
  // ---------------------------------------------------------------------

  /** `stop` keeps the pool valid and closes every pooled connection, each
      once. */
  lemma StopSpec(p: Pool)
    requires Valid(p)
    ensures var r := Stop(p);
            && Valid(r.pool)
            && NoDup(r.closed)
            && (forall c :: c in r.closed <==> Pooled(p, c))
  {
  }

  /** After `stop`, lookups miss, returned connections are closed instead of
      pooled, and nothing is contained. */
  lemma StoppedPoolRefuses(p: Pool, secure: bool, addr: Option<Address>, proxy: Option<Address>,
                           conn: Connection, now: int, keepAlive: int)
    ensures var q := Stop(p).pool;
            && GetConnection(q, secure, addr, proxy) == Step(None, q, [])
            && ReturnToPool(q, conn, false, now, keepAlive) == Step((), q, [conn])
            && !Contains(q, conn)
  {
  }

  // ---------------------------------------------------------------------
  // contains, cleanup
  // ---------------------------------------------------------------------

  /** Looking in both bucket maps finds a connection exactly when it is
      pooled: no bucket map holds a connection of the other kind. */
  lemma ContainsIffPooled(p: Pool, c: Connection)
    requires Valid(p)
    ensures Contains(p, c) <==> Pooled(p, c)
    ensures Contains(p, c) <==> c in Idle(p)
  {
  }

  /**
   * `cleanup` keeps a valid pool valid, takes `c` out of both structures,
   * leaves every other connection where it was and shrinks the pool by one
   * exactly when `c` was pooled.
   */
  lemma CleanupSpec(p: Pool, c: Connection, pendingData: int, error: Option<Failure>)
    requires Valid(p)
    ensures var r := Cleanup(p, c, pendingData, error);
            && Valid(r.pool)
            && !Pooled(r.pool, c)
            && c !in Idle(r.pool)
            && (forall x | x != c :: Pooled(r.pool, x) <==> Pooled(p, x))
            && Size(r.pool) == (if Pooled(p, c) then Size(p) - 1 else Size(p))
  {
    var r := Cleanup(p, c, pendingData, error);
    assert r.pool == TakeOut(p, c);
    TakeOutEffect(p, c);
  }

  /** Taking a connection out of a valid pool keeps it valid and unpools
      exactly that connection. */
  lemma TakeOutEffect(p: Pool, c: Connection)
    requires Valid(p)
    ensures var q := TakeOut(p, c);
            && Valid(q)
            && !Pooled(q, c)
            && c !in Idle(q)
            && (forall x | x != c :: Pooled(q, x) <==> Pooled(p, x))
            && Size(q) == (if Pooled(p, c) then Size(p) - 1 else Size(p))
  {
    var q := TakeOut(p, c);
    RemoveEffect(p, c);
    ExpiryRemoveEffect(p.expiryList, c);
    assert Pooled(p, c) <==> c in Idle(p);
    TakeOutKeepsValid(p, q, [c]);
  }

  /** Taking some connections out of both the buckets and the expiry list
      of a valid pool leaves a valid pool. */
  lemma TakeOutKeepsValid(p: Pool, q: Pool, gone: seq<Connection>)
    requires Valid(p)
    requires E.Valid(q.expiryList) && BucketsOk(q) && NoDup(Idle(q))
    requires forall x :: Pooled(q, x) <==> Pooled(p, x) && x !in gone
    requires forall y :: y in Idle(q) <==> y in Idle(p) && y !in gone
    requires Size(q) <= Size(p) && q.maxPoolSize == p.maxPoolSize && q.stopped == p.stopped
    ensures Valid(q)
  {
    forall x
      ensures Pooled(q, x) <==> x in Idle(q)
    {
      assert Pooled(p, x) <==> x in Idle(p);
    }
  }

  /** Removing a connection from a list of distinct connections takes out
      exactly that connection, and one entry when it was there. */
  lemma ExpiryRemoveEffect(l: E.ExpiryList<Connection>, c: Connection)
    requires NoDup(E.Connections(l.entries))
    ensures var r := E.Remove(l, Some(c));
            && NoDup(E.Connections(r.entries))
            && (forall y :: y in E.Connections(r.entries) <==> y in E.Connections(l.entries) && y != c)
            && |r.entries| == (if c in E.Connections(l.entries) then |l.entries| - 1 else |l.entries|)
  {
    RemoveFirstMembership(E.Connections(l.entries), c);
  }

  /** Cleaning up a connection the pool does not hold leaves the buckets'
      contents and the expiry list as they were. */
  lemma CleanupUnpooledKeepsContents(p: Pool, c: Connection, pendingData: int, error: Option<Failure>)
    requires Valid(p) && !Pooled(p, c)
    ensures var r := Cleanup(p, c, pendingData, error);
            && SameContents(r.pool, p)
            && r.pool.expiryList == p.expiryList
            && (r.result.Some? <==> pendingData != 0)
  {
    var k := ClassOf(c.cacheKey);
    var m := BucketsFor(p, c.isSecure);
    var m' := RemoveFromBuckets(m, c).1;
    assert c !in Idle(p);
    forall s: bool, k2: KeyClass
      ensures Lookup(BucketsFor(Cleanup(p, c, pendingData, error).pool, s), k2) == Lookup(BucketsFor(p, s), k2)
    {
      if s == c.isSecure && k2 == k {
        assert Lookup(m', k) == RemoveFirst(Lookup(m, k), c);
      }
    }
  }

  /** A second cleanup of the same connection changes nothing more and
      attaches its cause exactly when data was pending. */
  lemma CleanupIdempotent(p: Pool, c: Connection, pendingData: int, error: Option<Failure>,
                          pendingData': int, error': Option<Failure>)
    requires Valid(p)
    ensures var r1 := Cleanup(p, c, pendingData, error);
            var r2 := Cleanup(r1.pool, c, pendingData', error');
            && SameContents(r2.pool, r1.pool)
            && r2.pool.expiryList == r1.pool.expiryList
            && (r2.result.Some? <==> pendingData' != 0)
  {
    CleanupSpec(p, c, pendingData, error);
    CleanupUnpooledKeepsContents(Cleanup(p, c, pendingData, error).pool, c, pendingData', error');
  }

  // ---------------------------------------------------------------------
  // Release then acquire
  // ---------------------------------------------------------------------

  /**
   * Returning a connection to a pool with room and no other connection
   * under its key, then asking for that key, hands the same connection back
   * and leaves the bucket contents and the expiry entries as they were.
   */
  lemma ReturnThenGet(p: Pool, conn: Connection, now: int, keepAlive: int,
                      addr: Option<Address>, proxy: Option<Address>)
    requires Valid(p) && !p.stopped && !AtCapacity(p) && !Pooled(p, conn)
    requires Lookup(BucketsFor(p, conn.isSecure), ClassOf(conn.cacheKey)) == []
    requires ClassOf(LookupKey(conn.isSecure, addr, proxy)) == ClassOf(conn.cacheKey)
    ensures var q := ReturnToPool(p, conn, false, now, keepAlive).pool;
            var r := GetConnection(q, conn.isSecure, addr, proxy);
            && r.result == Some(conn)
            && SameContents(r.pool, p)
  {
    var s := conn.isSecure;
    var k := ClassOf(conn.cacheKey);
    var q := ReturnToPool(p, conn, false, now, keepAlive).pool;
    ReturnedAlone(p, conn, now, keepAlive);
    var r := GetConnection(q, s, addr, proxy);
    assert r == FindConnection(q, LookupKey(s, addr, proxy), s);
    assert conn !in Idle(p);
    E.AddThenRemove(p.expiryList, conn, now, keepAlive);
    forall s2: bool, k2: KeyClass
      ensures Lookup(BucketsFor(r.pool, s2), k2) == Lookup(BucketsFor(p, s2), k2)
    {
      if s2 == s && k2 != k {
        assert Lookup(BucketsFor(r.pool, s2), k2) == Lookup(BucketsFor(q, s2), k2);
      } else if s2 != s {
        assert BucketsFor(r.pool, s2) == BucketsFor(q, s2);
      }
    }
  }

  /** Returning a connection to a pool with room files it alone under its
      (empty) key and adds it to the expiry list, nothing else. */
  lemma ReturnedAlone(p: Pool, conn: Connection, now: int, keepAlive: int)
    requires !p.stopped && !AtCapacity(p)
    requires Lookup(BucketsFor(p, conn.isSecure), ClassOf(conn.cacheKey)) == []
    ensures var q := ReturnToPool(p, conn, false, now, keepAlive).pool;
            && Lookup(BucketsFor(q, conn.isSecure), ClassOf(conn.cacheKey)) == [conn]
            && (forall k | k != ClassOf(conn.cacheKey) ::
                  Lookup(BucketsFor(q, conn.isSecure), k) == Lookup(BucketsFor(p, conn.isSecure), k))
            && BucketsFor(q, !conn.isSecure) == BucketsFor(p, !conn.isSecure)
            && q.expiryList == E.Add(p.expiryList, conn, now, keepAlive)
  {
    var p3 := Put(p, conn);
    assert ReturnToPool(p, conn, false, now, keepAlive).pool
        == p3.(expiryList := E.Add(p.expiryList, conn, now, keepAlive));
  }

  /**
   * A pool limited to two connections, three plain connections returned one
   * second apart with a one-minute keep-alive: the third return evicts and
   * closes the first, the one with the nearest deadline, and the pool ends
   * up holding the other two.
   */
  lemma CapacityEvictsNearestDeadline(a: Connection, b: Connection, c: Connection, k: KeyClass)
    requires !a.isSecure && !b.isSecure && !c.isSecure
    requires ClassOf(a.cacheKey) == k && ClassOf(b.cacheKey) == k && ClassOf(c.cacheKey) == k
    ensures var q1 := Pool(2, map[k := [a]], map[], E.ExpiryList([E.Entry(a, 60000)], true), false);
            ReturnToPool(NewPool(2), a, false, 0, 60) == Step((), q1, [])
    ensures var q1 := Pool(2, map[k := [a]], map[], E.ExpiryList([E.Entry(a, 60000)], true), false);
            var q2 := Pool(2, map[k := [a, b]], map[], E.ExpiryList([E.Entry(b, 61000), E.Entry(a, 60000)], true), false);
            ReturnToPool(q1, b, false, 1000, 60) == Step((), q2, [])
    ensures var q2 := Pool(2, map[k := [a, b]], map[], E.ExpiryList([E.Entry(b, 61000), E.Entry(a, 60000)], true), false);
            var q3 := Pool(2, map[k := [b, c]], map[], E.ExpiryList([E.Entry(c, 62000), E.Entry(b, 61000)], true), false);
            && ReturnToPool(q2, c, false, 2000, 60) == Step((), q3, [a])
            && Idle(q3) == [c, b]
  {
    ScenarioFirst(a, k);
    ScenarioSecond(a, b, k);
    ScenarioThird(a, b, c, k);
    ConnectionsOfPair(E.Entry(c, 62000), E.Entry(b, 61000));
  }

  lemma ConnectionsOfPair(x: E.Entry<Connection>, y: E.Entry<Connection>)
    ensures E.Connections([x, y]) == [x.connection, y.connection]
  {
  }

  // The three steps of the scenario above, one return each.

  lemma ScenarioFirst(a: Connection, k: KeyClass)
    requires !a.isSecure && ClassOf(a.cacheKey) == k
    ensures ReturnToPool(NewPool(2), a, false, 0, 60)
         == Step((), Pool(2, map[k := [a]], map[], E.ExpiryList([E.Entry(a, 60000)], true), false), [])
  {
    var p0 := NewPool(2);
    assert !AtCapacity(p0);
    assert Lookup(map[], k) + [a] == [a];
    assert PutConnection(map[], a) == map[k := [a]];
    assert Put(p0, a) == Pool(2, map[k := [a]], map[], E.Empty(), false);
    assert E.ExpiryFor(0, 60) == 60000;
    var es: seq<E.Entry<Connection>> := [];
    assert E.InsertionPoint(es, 60000) == 0;
    assert E.Add(E.Empty<Connection>(), a, 0, 60) == E.ExpiryList([E.Entry(a, 60000)], true);
  }

  lemma ScenarioSecond(a: Connection, b: Connection, k: KeyClass)
    requires !b.isSecure && ClassOf(b.cacheKey) == k
    ensures ReturnToPool(Pool(2, map[k := [a]], map[], E.ExpiryList([E.Entry(a, 60000)], true), false), b, false, 1000, 60)
         == Step((), Pool(2, map[k := [a, b]], map[], E.ExpiryList([E.Entry(b, 61000), E.Entry(a, 60000)], true), false), [])
  {
    var q1 := Pool(2, map[k := [a]], map[], E.ExpiryList([E.Entry(a, 60000)], true), false);
    assert !AtCapacity(q1);
    assert E.ExpiryFor(1000, 60) == 61000;
    AdmitBehind(a, b, k, 60000, 1000);
  }

  lemma ScenarioThird(a: Connection, b: Connection, c: Connection, k: KeyClass)
    requires !a.isSecure && ClassOf(a.cacheKey) == k
    requires !c.isSecure && ClassOf(c.cacheKey) == k
    ensures ReturnToPool(Pool(2, map[k := [a, b]], map[], E.ExpiryList([E.Entry(b, 61000), E.Entry(a, 60000)], true), false), c, false, 2000, 60)
         == Step((), Pool(2, map[k := [b, c]], map[], E.ExpiryList([E.Entry(c, 62000), E.Entry(b, 61000)], true), false), [a])
  {
    var q2 := Pool(2, map[k := [a, b]], map[], E.ExpiryList([E.Entry(b, 61000), E.Entry(a, 60000)], true), false);
    assert AtCapacity(q2);
    EvictFirstOfPair(a, b, k);
    assert E.ExpiryFor(2000, 60) == 62000;
    AdmitBehind(b, c, k, 61000, 2000);
  }

  /** At capacity two, the connection due first is evicted from both
      structures. */
  lemma EvictFirstOfPair(a: Connection, b: Connection, k: KeyClass)
    requires !a.isSecure && ClassOf(a.cacheKey) == k
    ensures var q2 := Pool(2, map[k := [a, b]], map[], E.ExpiryList([E.Entry(b, 61000), E.Entry(a, 60000)], true), false);
            var (t, el) := E.RemoveOldest(q2.expiryList);
            && t == Some(a)
            && el == E.ExpiryList([E.Entry(b, 61000)], true)
            && RemoveFromPool(q2.(expiryList := el), a).1
                 == Pool(2, map[k := [b]], map[], E.ExpiryList([E.Entry(b, 61000)], true), false)
  {
    OldestOfPair(E.Entry(b, 61000), E.Entry(a, 60000), true);
    RemoveHeadOfPair(a, b, k, E.ExpiryList([E.Entry(b, 61000)], true));
  }

  /** `removeOldest` on a two-entry list pops the second entry. */
  lemma OldestOfPair(x: E.Entry<Connection>, y: E.Entry<Connection>, hint: bool)
    ensures E.RemoveOldest(E.ExpiryList([x, y], hint)) == (Some(y.connection), E.ExpiryList([x], hint))
  {
    assert [x, y][..1] == [x];
  }

  /** Removing the first of two plain connections under one key. */
  lemma RemoveHeadOfPair(a: Connection, b: Connection, k: KeyClass, el: E.ExpiryList<Connection>)
    requires !a.isSecure && ClassOf(a.cacheKey) == k
    ensures RemoveFromPool(Pool(2, map[k := [a, b]], map[], el, false), a).1 == Pool(2, map[k := [b]], map[], el, false)
  {
    assert IndexOf([a, b], a) == 0;
    assert RemoveFirst([a, b], a) == [b];
  }

  /** Filing `y` next to the single plain connection `x` of a pool, with a
      deadline later than `x`'s, puts it at the head of the expiry list and
      at the tail of the bucket. */
  lemma AdmitBehind(x: Connection, y: Connection, k: KeyClass, t: int, now: int)
    requires !y.isSecure && ClassOf(y.cacheKey) == k && E.ExpiryFor(now, 60) > t
    ensures var q := Pool(2, map[k := [x]], map[], E.ExpiryList([E.Entry(x, t)], true), false);
            var p3 := Put(q, y);
            p3.(expiryList := E.Add(p3.expiryList, y, now, 60))
              == Pool(2, map[k := [x, y]], map[], E.ExpiryList([E.Entry(y, E.ExpiryFor(now, 60)), E.Entry(x, t)], true), false)
  {
    var es := [E.Entry(x, t)];
    assert Lookup(map[k := [x]], k) + [y] == [x, y];
    assert PutConnection(map[k := [x]], y) == map[k := [x, y]];
    assert E.InsertionPoint(es, E.ExpiryFor(now, 60)) == 0;
    assert E.Add(E.ExpiryList(es, true), y, now, 60) == E.ExpiryList([E.Entry(y, E.ExpiryFor(now, 60))] + es, true);
  }
}
