/**
 * `ConnectionPool.ExpiryList`: the idle connections ordered by expiry
 * deadline, the farthest deadline at the head (index 0) and the nearest at
 * the tail, plus the lock-free "may contain entries" hint.
 *
 * Time is an integer number of milliseconds.
 */
module ExpiryLists {
  import opened Options
  import opened Seqs

  const MillisPerSecond: int := 1000

  datatype Entry<C> = Entry(connection: C, expiry: int)

  datatype ExpiryList<C> = ExpiryList(entries: seq<Entry<C>>, mayContainEntries: bool)

  /** A freshly constructed list. */
  function Empty<C>(): ExpiryList<C> {
    ExpiryList([], false)
  }

  /** Non-increasing expiry from head to tail. */
  ghost predicate Sorted<C>(es: seq<Entry<C>>) {
    forall i, j | 0 <= i < j < |es| :: es[i].expiry >= es[j].expiry
  }

  /** The hint is conservative: when it says "no entries" there are none. */
  ghost predicate HintSound<C>(l: ExpiryList<C>) {
    !l.mayContainEntries ==> |l.entries| == 0
  }

  ghost predicate Valid<C>(l: ExpiryList<C>) {
    Sorted(l.entries) && HintSound(l)
  }

  /** The connections of a list, head first. */
  function Connections<C>(es: seq<Entry<C>>): (cs: seq<C>)
    ensures |cs| == |es|
    ensures forall i | 0 <= i < |es| :: cs[i] == es[i].connection
  {
    seq(|es|, i requires 0 <= i < |es| => es[i].connection)
  }

  lemma ConnectionsSlice<C>(es: seq<Entry<C>>, a: nat, b: nat)
    requires a <= b <= |es|
    ensures Connections(es[a..b]) == Connections(es)[a..b]
  {
  }

  // ---------------------------------------------------------------------
  // add
  // ---------------------------------------------------------------------

  /** `Deadline.truncatedTo(SECONDS)`: the last whole second at or before `now`. */
  function TruncatedToSeconds(now: int): (t: int)
    ensures t % MillisPerSecond == 0
    ensures t <= now < t + MillisPerSecond
  {
    now - now % MillisPerSecond
  }

  /** The deadline `add` gives an entry: `now` truncated to the second, plus
      `keepAlive` seconds. */
  function ExpiryFor(now: int, keepAlive: int): (deadline: int)
    ensures deadline % MillisPerSecond == 0
    ensures deadline - keepAlive * MillisPerSecond <= now < deadline - keepAlive * MillisPerSecond + MillisPerSecond
  {
    TruncatedToSeconds(now) + keepAlive * MillisPerSecond
  }

  /** Where the head-first scan of `add` stops: the first entry whose expiry
      is strictly earlier than `deadline`, or the end of the list. */
  function InsertionPoint<C>(es: seq<Entry<C>>, deadline: int): (p: nat)
    ensures p <= |es|
    ensures forall i | 0 <= i < p :: es[i].expiry >= deadline
    ensures p < |es| ==> deadline > es[p].expiry
  {
    if |es| == 0 then 0
    else if deadline > es[0].expiry then 0
    else 1 + InsertionPoint(es[1..], deadline)
  }

  /** Splicing an entry in where the scan of `add` stops keeps a sorted
      list sorted. */
  lemma InsertKeepsSorted<C>(es: seq<Entry<C>>, e: Entry<C>, p: nat)
    requires Sorted(es) && p <= |es|
    requires forall i | 0 <= i < p :: es[i].expiry >= e.expiry
    requires p < |es| ==> e.expiry > es[p].expiry
    ensures Sorted(es[..p] + [e] + es[p..])
  {
    var r := es[..p] + [e] + es[p..];
    forall i, j | 0 <= i < j < |r|
      ensures r[i].expiry >= r[j].expiry
    {
      if j > p {
        assert r[j] == es[j - 1];
        if i < p {
          assert r[i] == es[i];
        } else if i > p {
          assert r[i] == es[i - 1];
        }
      } else if j == p {
        assert r[i] == es[i];
      } else {
        assert r[i] == es[i] && r[j] == es[j];
      }
    }
  }

  lemma ConnectionsSplice<C>(a: seq<Entry<C>>, e: Entry<C>, b: seq<Entry<C>>)
    ensures Connections(a + [e] + b) == Connections(a) + [e.connection] + Connections(b)
  {
  }

  /** `add(conn, now, keepAlive)`: inserts the connection with its deadline
      before the first entry due strictly earlier (at the tail if none is),
      and sets the hint. */
  function Add<C>(l: ExpiryList<C>, conn: C, now: int, keepAlive: int): (r: ExpiryList<C>)
    ensures r.mayContainEntries
    ensures |r.entries| == |l.entries| + 1
    ensures multiset(r.entries) == multiset(l.entries) + multiset{Entry(conn, ExpiryFor(now, keepAlive))}
    ensures Connections(r.entries) == Connections(l.entries)[..InsertionPoint(l.entries, ExpiryFor(now, keepAlive))]
                                      + [conn]
                                      + Connections(l.entries)[InsertionPoint(l.entries, ExpiryFor(now, keepAlive))..]
    ensures Valid(l) ==> Valid(r)
  {
    var es := l.entries;
    var deadline := ExpiryFor(now, keepAlive);
    var p := InsertionPoint(es, deadline);
    var e := Entry(conn, deadline);
    SpliceContents(es, p, e);
    assert Sorted(es) ==> Sorted(es[..p] + [e] + es[p..]) by {
      if Sorted(es) {
        InsertKeepsSorted(es, e, p);
      }
    }
    ExpiryList(es[..p] + [e] + es[p..], true)
  }

  /** Splicing an entry in at `p` adds exactly that entry, at `p`. */
  lemma SpliceContents<C>(es: seq<Entry<C>>, p: nat, e: Entry<C>)
    requires p <= |es|
    ensures multiset(es[..p] + [e] + es[p..]) == multiset(es) + multiset{e}
    ensures Connections(es[..p] + [e] + es[p..]) == Connections(es)[..p] + [e.connection] + Connections(es)[p..]
  {
    assert es == es[..p] + es[p..];
    ConnectionsSplice(es[..p], e, es[p..]);
    ConnectionsSlice(es, 0, p);
    ConnectionsSlice(es, p, |es|);
  }

  // Reference split used to characterise `add` on a sorted list.

  /** The entries whose expiry is at or after `t`, in list order. */
  function NotBefore<C>(es: seq<Entry<C>>, t: int): seq<Entry<C>> {
    if |es| == 0 then []
    else (if es[0].expiry >= t then [es[0]] else []) + NotBefore(es[1..], t)
  }

  /** The entries whose expiry is strictly before `t`, in list order. */
  function Before<C>(es: seq<Entry<C>>, t: int): seq<Entry<C>> {
    if |es| == 0 then []
    else (if es[0].expiry < t then [es[0]] else []) + Before(es[1..], t)
  }

  lemma {:induction false} AllBefore<C>(es: seq<Entry<C>>, t: int)
    requires forall i | 0 <= i < |es| :: es[i].expiry < t
    ensures NotBefore(es, t) == [] && Before(es, t) == es
  {
    if |es| > 0 {
      AllBefore(es[1..], t);
      assert es == [es[0]] + es[1..];
    }
  }

  /** On a sorted list the scan of `add` stops exactly between the entries
      due at or after `t` and those due before it. */
  lemma {:induction false} InsertionPointSplits<C>(es: seq<Entry<C>>, t: int)
    requires Sorted(es)
    ensures es[..InsertionPoint(es, t)] == NotBefore(es, t)
    ensures es[InsertionPoint(es, t)..] == Before(es, t)
  {
    if |es| == 0 {
    } else if t > es[0].expiry {
      HeadBefore(es, t);
    } else {
      var tail := es[1..];
      SortedTail(es);
      InsertionPointSplits(tail, t);
      var p' := InsertionPoint(tail, t);
      HeadNotBefore(es, t);
      ConsSlices(es, p');
    }
  }

  /** The tail of a sorted list is sorted. */
  lemma SortedTail<C>(es: seq<Entry<C>>)
    requires Sorted(es) && |es| > 0
    ensures Sorted(es[1..])
  {
  }

  /** When the head of a sorted list is due before `t`, so is every entry. */
  lemma HeadBefore<C>(es: seq<Entry<C>>, t: int)
    requires Sorted(es) && |es| > 0 && t > es[0].expiry
    ensures NotBefore(es, t) == [] && Before(es, t) == es
  {
    forall i | 0 <= i < |es|
      ensures es[i].expiry < t
    {
      assert es[0].expiry >= es[i].expiry;
    }
    AllBefore(es, t);
  }

  /** A head due at or after `t` goes to the first half of the split. */
  lemma HeadNotBefore<C>(es: seq<Entry<C>>, t: int)
    requires |es| > 0 && es[0].expiry >= t
    ensures NotBefore(es, t) == [es[0]] + NotBefore(es[1..], t)
    ensures Before(es, t) == Before(es[1..], t)
  {
  }

  /** `add` places the new entry after every entry due at or after it (ties
      land tail-ward) and before every entry due earlier. */
  lemma AddPlacesAfterTies<C>(l: ExpiryList<C>, conn: C, now: int, keepAlive: int)
    requires Sorted(l.entries)
    ensures var deadline := ExpiryFor(now, keepAlive);
            Add(l, conn, now, keepAlive).entries
              == NotBefore(l.entries, deadline) + [Entry(conn, deadline)] + Before(l.entries, deadline)
  {
    InsertionPointSplits(l.entries, ExpiryFor(now, keepAlive));
  }

  // ---------------------------------------------------------------------
  // remove
  // ---------------------------------------------------------------------

  /** `remove(c)`: deletes the first entry for `c`; a no-op for null, for an
      empty list, or for an absent connection (which also leaves the hint). */
  function Remove<C(==)>(l: ExpiryList<C>, c: Option<C>): (r: ExpiryList<C>)
    ensures c.None? || c.value !in Connections(l.entries) ==> r == l
    ensures c.Some? && c.value in Connections(l.entries) ==>
              && |r.entries| == |l.entries| - 1
              && Connections(r.entries) == RemoveFirst(Connections(l.entries), c.value)
              && r.mayContainEntries == (|r.entries| > 0)
    ensures Valid(l) ==> Valid(r)
  {
    if c.None? || |l.entries| == 0 then l
    else
      var es := l.entries;
      var i := IndexOf(Connections(es), c.value);
      if i < |es| then
        DeleteEntry(es, i);
        ExpiryList(es[..i] + es[i+1..], |es| > 1)
      else
        l
  }

  /** Deleting the entry at `i` deletes its connection at `i` and keeps a
      sorted list sorted. */
  lemma DeleteEntry<C>(es: seq<Entry<C>>, i: nat)
    requires i < |es|
    ensures |es[..i] + es[i+1..]| == |es| - 1
    ensures Connections(es[..i] + es[i+1..]) == Connections(es)[..i] + Connections(es)[i+1..]
    ensures Sorted(es) ==> Sorted(es[..i] + es[i+1..])
  {
    ConnectionsSlice(es, 0, i);
    ConnectionsSlice(es, i + 1, |es|);
    if Sorted(es) {
      DeleteKeepsSorted(es, i);
    }
  }

  /** Deleting any one entry keeps a sorted list sorted. */
  lemma DeleteKeepsSorted<C>(es: seq<Entry<C>>, i: nat)
    requires Sorted(es) && i < |es|
    ensures Sorted(es[..i] + es[i+1..])
  {
    var rest := es[..i] + es[i+1..];
    forall a, b | 0 <= a < b < |rest|
      ensures rest[a].expiry >= rest[b].expiry
    {
      var a' := if a < i then a else a + 1;
      var b' := if b < i then b else b + 1;
      assert rest[a] == es[a'] && rest[b] == es[b'];
    }
  }

  /** `remove` deletes exactly the first entry carrying `c` and keeps the
      others in order. */
  lemma RemoveDropsFirstMatch<C>(l: ExpiryList<C>, c: C, i: nat)
    requires i < |l.entries| && l.entries[i].connection == c
    requires forall j | 0 <= j < i :: l.entries[j].connection != c
    ensures Remove(l, Some(c)).entries == l.entries[..i] + l.entries[i+1..]
  {
    assert Connections(l.entries)[i] == c;
    assert IndexOf(Connections(l.entries), c) == i;
  }

  /** Adding a connection the list does not hold and then removing it gives
      back the same entries. */
  lemma AddThenRemove<C>(l: ExpiryList<C>, conn: C, now: int, keepAlive: int)
    requires conn !in Connections(l.entries)
    ensures Remove(Add(l, conn, now, keepAlive), Some(conn)).entries == l.entries
  {
    var es := l.entries;
    var e := Entry(conn, ExpiryFor(now, keepAlive));
    var p := InsertionPoint(es, e.expiry);
    assert Add(l, conn, now, keepAlive) == ExpiryList(es[..p] + [e] + es[p..], true);
    SpliceThenRemove(es, p, e);
  }

  /** Removing a spliced-in entry whose connection the list did not hold
      gives back the list. */
  lemma SpliceThenRemove<C>(es: seq<Entry<C>>, p: nat, e: Entry<C>)
    requires p <= |es| && e.connection !in Connections(es)
    ensures Remove(ExpiryList(es[..p] + [e] + es[p..], true), Some(e.connection)).entries == es
  {
    var rs := es[..p] + [e] + es[p..];
    assert rs[..p] == es[..p] && rs[p] == e && rs[p+1..] == es[p..];
    forall j | 0 <= j < p
      ensures rs[j].connection != e.connection
    {
      assert Connections(es)[j] == es[j].connection;
    }
    RemoveDropsFirstMatch(ExpiryList(rs, true), e.connection, p);
    assert es[..p] + es[p..] == es;
  }

  // ---------------------------------------------------------------------
  // removeOldest, nextExpiryDeadline, clear
  // ---------------------------------------------------------------------

  /** `removeOldest`: pops the tail entry's connection, or answers null for an
      empty list. The hint is left as it was. */
  function RemoveOldest<C>(l: ExpiryList<C>): (r: (Option<C>, ExpiryList<C>))
    ensures |l.entries| == 0 <==> r.0.None?
    ensures |l.entries| == 0 ==> r.1 == l
    ensures |l.entries| > 0 ==>
              && r.1.entries + [Entry(r.0.value, l.entries[|l.entries| - 1].expiry)] == l.entries
              && r.1.mayContainEntries == l.mayContainEntries
    ensures Sorted(l.entries) && r.0.Some? ==>
              forall e | e in r.1.entries :: e.expiry >= l.entries[|l.entries| - 1].expiry
    ensures Valid(l) ==> Valid(r.1)
  {
    if |l.entries| == 0 then (None, l)
    else
      var n := |l.entries|;
      (Some(l.entries[n - 1].connection), l.(entries := l.entries[..n - 1]))
  }

  /** `nextExpiryDeadline`: the nearest deadline of the list, if any. */
  function NextExpiryDeadline<C>(l: ExpiryList<C>): (d: Option<int>)
    ensures d.None? <==> |l.entries| == 0
    ensures d.Some? ==> exists i | 0 <= i < |l.entries| :: l.entries[i].expiry == d.value
    ensures d.Some? && Sorted(l.entries) ==> forall i | 0 <= i < |l.entries| :: d.value <= l.entries[i].expiry
  {
    if |l.entries| == 0 then None else Some(l.entries[|l.entries| - 1].expiry)
  }

  /** `clear`: empties the list and resets the hint. */
  function Clear<C>(l: ExpiryList<C>): (r: ExpiryList<C>)
    ensures Valid(r)
    ensures NextExpiryDeadline(r).None? && !r.mayContainEntries
    ensures forall c :: c !in Connections(r.entries)
  {
    ExpiryList([], false)
  }

  // ---------------------------------------------------------------------
  // purgeUntil
  // ---------------------------------------------------------------------

  /** Where the tail-first scan of `purgeUntil` stops: the start of the
      longest tail suffix whose entries are all due at or before `now`. */
  function ExpiredFrom<C>(es: seq<Entry<C>>, now: int): (k: nat)
    ensures k <= |es|
    ensures forall i | k <= i < |es| :: es[i].expiry <= now
    ensures k > 0 ==> es[k - 1].expiry > now
  {
    if |es| == 0 then 0
    else if es[|es| - 1].expiry <= now then ExpiredFrom(es[..|es| - 1], now)
    else |es|
  }

  /** The entries of `es`, tail first. */
  function Reversed<C>(es: seq<Entry<C>>): (rs: seq<Entry<C>>)
    ensures |rs| == |es|
    ensures forall i | 0 <= i < |es| :: rs[i] == es[|es| - 1 - i]
  {
    seq(|es|, i requires 0 <= i < |es| => es[|es| - 1 - i])
  }

  datatype Purge<C> = Purge(closed: seq<C>, list: ExpiryList<C>)

  /** `purgeUntil(now)`: strips the expired tail and returns its connections,
      tail first. An empty list is returned untouched. */
  function PurgeUntil<C>(l: ExpiryList<C>, now: int): (r: Purge<C>)
    ensures |l.entries| == 0 ==> r == Purge([], l)
    ensures |l.entries| > 0 ==> r.list.mayContainEntries == (|r.list.entries| > 0)
    ensures |r.list.entries| + |r.closed| == |l.entries|
    ensures r.list.entries == l.entries[..|r.list.entries|]
    ensures forall i | 0 <= i < |r.closed| ::
              r.closed[i] == l.entries[|l.entries| - 1 - i].connection && l.entries[|l.entries| - 1 - i].expiry <= now
    ensures |r.list.entries| > 0 ==> r.list.entries[|r.list.entries| - 1].expiry > now
    ensures Valid(l) ==> Valid(r.list)
  {
    if |l.entries| == 0 then Purge([], l)
    else
      var es := l.entries;
      var k := ExpiredFrom(es, now);
      Purge(Connections(Reversed(es[k..])), ExpiryList(es[..k], k > 0))
  }

  /** On a sorted list, `purgeUntil` removes exactly the entries due at or
      before `now`; they form a tail suffix and come out in non-decreasing
      deadline order. */
  lemma PurgeRemovesExactlyExpired<C>(l: ExpiryList<C>, now: int)
    requires Sorted(l.entries)
    ensures var r := PurgeUntil(l, now);
            && (forall i | 0 <= i < |l.entries| :: i < |r.list.entries| <==> l.entries[i].expiry > now)
            && var purged := Reversed(l.entries[|r.list.entries|..]);
               && Connections(purged) == r.closed
               && forall i, j | 0 <= i < j < |purged| :: purged[i].expiry <= purged[j].expiry
  {
  }

  /** The purged connections are those of the tail that was cut off, each
      once when the list's connections are distinct. */
  lemma ClosedIsCutTail<C>(l: ExpiryList<C>, now: int)
    ensures var r := PurgeUntil(l, now);
            var tail := Connections(l.entries)[|r.list.entries|..];
            && (forall c :: c in r.closed <==> c in tail)
            && (NoDup(tail) ==> NoDup(r.closed))
  {
    var r := PurgeUntil(l, now);
    var es := l.entries;
    var k := |r.list.entries|;
    if |es| > 0 {
      assert r.closed == Connections(Reversed(es[k..]));
      ConnectionsSlice(es, k, |es|);
      ReversedConnections(es[k..]);
    }
  }

  /** The connections purged and those kept partition the list's connections. */
  lemma PurgePartitions<C>(l: ExpiryList<C>, now: int)
    requires NoDup(Connections(l.entries))
    ensures var r := PurgeUntil(l, now);
            && NoDup(Connections(r.list.entries))
            && NoDup(r.closed)
            && (forall c :: c in Connections(l.entries) <==> c in Connections(r.list.entries) || c in r.closed)
            && (forall c :: c in r.closed ==> c !in Connections(r.list.entries))
  {
    var r := PurgeUntil(l, now);
    var es := l.entries;
    var k := |r.list.entries|;
    var cs := Connections(es);
    ConnectionsSlice(es, 0, k);
    SplitNoDup(cs, k);
    ClosedIsCutTail(l, now);
  }

  /** On a sorted list of distinct connections, a connection is purged
      exactly when its deadline is at or before `now`. */
  lemma PurgeClosesExactlyExpired<C>(l: ExpiryList<C>, now: int)
    requires Sorted(l.entries) && NoDup(Connections(l.entries))
    ensures var r := PurgeUntil(l, now);
            forall i | 0 <= i < |l.entries| ::
              Connections(l.entries)[i] in r.closed <==> l.entries[i].expiry <= now
  {
    var r := PurgeUntil(l, now);
    var es := l.entries;
    var k := |r.list.entries|;
    var cs := Connections(es);
    PurgeRemovesExactlyExpired(l, now);
    ClosedIsCutTail(l, now);
    SplitNoDup(cs, k);
    forall i | 0 <= i < |es|
      ensures cs[i] in r.closed <==> es[i].expiry <= now
    {
      if i < k {
        assert cs[i] in cs[..k];
      } else {
        assert cs[i] == cs[k..][i - k];
      }
    }
  }

  /** After a purge of a sorted list, the next deadline is the nearest one
      left, and it lies after `now`. */
  lemma PurgeLeavesFutureDeadline<C>(l: ExpiryList<C>, now: int)
    requires Sorted(l.entries)
    ensures var r := PurgeUntil(l, now);
            var d := NextExpiryDeadline(r.list);
            && (d.None? <==> |r.list.entries| == 0)
            && (d.Some? ==>
                  && d.value > now
                  && (exists i | 0 <= i < |r.list.entries| :: r.list.entries[i].expiry == d.value)
                  && (forall i | 0 <= i < |r.list.entries| :: d.value <= r.list.entries[i].expiry))
  {
    var r := PurgeUntil(l, now);
    var k := |r.list.entries|;
    assert r.list.entries == l.entries[..k];
    assert Sorted(r.list.entries);
  }

  /** Reversal keeps the connections and their distinctness. */
  lemma ReversedConnections<C>(es: seq<Entry<C>>)
    ensures forall c :: c in Connections(Reversed(es)) <==> c in Connections(es)
    ensures NoDup(Connections(es)) ==> NoDup(Connections(Reversed(es)))
  {
    var cs := Connections(es);
    var rs := Connections(Reversed(es));
    forall c
      ensures c in rs <==> c in cs
    {
      if c in rs {
        var i :| 0 <= i < |rs| && rs[i] == c;
        assert cs[|es| - 1 - i] == c;
      }
      if c in cs {
        var i :| 0 <= i < |cs| && cs[i] == c;
        assert rs[|es| - 1 - i] == c;
      }
    }
    if NoDup(cs) {
      forall a, b | 0 <= a < b < |rs|
        ensures rs[a] != rs[b]
      {
        assert rs[a] == cs[|es| - 1 - a] && rs[b] == cs[|es| - 1 - b];
      }
    }
  }

  /** A false hint is exact: skipping a purge because of it loses nothing. */
  lemma FalseHintMeansNothingToPurge<C>(l: ExpiryList<C>, now: int)
    requires Valid(l) && !l.mayContainEntries
    ensures PurgeUntil(l, now) == Purge([], l)
    ensures NextExpiryDeadline(l) == None
  {
  }

  /** `removeOldest` in terms of connections: it pops the last one. */
  lemma RemoveOldestConnections<C>(l: ExpiryList<C>)
    requires |l.entries| > 0
    ensures var n := |l.entries|;
            && RemoveOldest(l).0 == Some(Connections(l.entries)[n - 1])
            && Connections(RemoveOldest(l).1.entries) == Connections(l.entries)[..n - 1]
  {
  }
}
