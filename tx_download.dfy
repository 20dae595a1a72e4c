/**
 Per-peer transaction download bookkeeping (TxDownloadState in net_processing.h).

 A peer announces txids; each announcement is kept in `txs` under its txid and
 sits in exactly one of two ordered sets: `announced` (not yet requested,
 ordered by the next time we may request it) or `requested` (in flight,
 ordered by the time the request expires).  Hashes stand for uint256 and
 timestamps for std::chrono::microseconds.
 */
module TxDownload {

  type Hash = nat
  type Micros = int

  /** One announcement from one peer: the txid and its timestamp (request
      time while announced, expiry time once requested). */
  datatype AnnouncedTx = AnnouncedTx(hash: Hash, timestamp: Micros)

  /** AnnouncedTxTimeCompare: order by timestamp, txid breaks ties. */
  predicate TimeCompare(lhs: AnnouncedTx, rhs: AnnouncedTx)
  {
    lhs.timestamp < rhs.timestamp || (lhs.timestamp == rhs.timestamp && lhs.hash < rhs.hash)
  }

  /** The comparator is a strict total order on announcements, so a std::set
      ordered by it holds each (timestamp, txid) pair once. */
  lemma TimeCompareIsStrictTotalOrder()
    ensures forall a :: !TimeCompare(a, a)
    ensures forall a, b :: TimeCompare(a, b) ==> !TimeCompare(b, a)
    ensures forall a, b, c :: TimeCompare(a, b) && TimeCompare(b, c) ==> TimeCompare(a, c)
    ensures forall a, b :: a != b ==> TimeCompare(a, b) || TimeCompare(b, a)
  {
  }

  /** The first element of an ordered set: what `set.begin()` yields. */
  method Earliest(s: set<AnnouncedTx>) returns (first: AnnouncedTx)
    requires s != {}
    ensures first in s
    ensures forall e :: e in s && e != first ==> TimeCompare(first, e)
  {
    first :| first in s;
    var rest := s - {first};
    while rest != {}
      invariant rest <= s && first in s && first !in rest
      invariant forall e :: e in s && e !in rest && e != first ==> TimeCompare(first, e)
      decreases rest
    {
      var e :| e in rest;
      if TimeCompare(e, first) {
        TimeCompareIsStrictTotalOrder();
        first := e;
      } else if e != first {
        TimeCompareIsStrictTotalOrder();
      }
      rest := rest - {e};
    }
  }

  /** The value of the three collections of a TxDownloadState. */
  datatype Downloads = Downloads(
    txs: map<Hash, AnnouncedTx>,
    announced: set<AnnouncedTx>,
    requested: set<AnnouncedTx>)

  /** Where a txid stands for this peer. */
  datatype Status = Absent | Pending(requestTime: Micros) | InFlight(expiry: Micros)

  function StatusOf(d: Downloads, hash: Hash): Status
  {
    if hash !in d.txs then Absent
    else if d.txs[hash] in d.requested then InFlight(d.txs[hash].timestamp)
    else Pending(d.txs[hash].timestamp)
  }

  /** The structural class invariant: `txs` is keyed by txid, every entry of
      `txs` is in exactly one of the two sets, and the sets hold nothing else. */
  ghost predicate WellFormed(d: Downloads)
  {
    && (forall h :: h in d.txs ==> d.txs[h].hash == h)
    && (forall h :: h in d.txs ==> (d.txs[h] in d.announced <==> d.txs[h] !in d.requested))
    && (forall a :: a in d.announced ==> a.hash in d.txs && d.txs[a.hash] == a)
    && (forall a :: a in d.requested ==> a.hash in d.txs && d.txs[a.hash] == a)
  }

  /** The full class invariant: well formed and within both per-peer limits. */
  ghost predicate Inv(d: Downloads, maxAnnouncements: nat, maxInFlight: nat)
  {
    && WellFormed(d)
    && |d.txs| <= maxAnnouncements
    && |d.requested| <= maxInFlight
  }

  lemma SubsetCard<T>(a: set<T>, b: set<T>)
    requires a <= b
    ensures |a| <= |b|
  {
    assert b == a + (b - a);
  }

  /** An INV from the peer: queue the txid as pending with its request time,
      unless it is already known or too many announcements are pending. */
  function AddAnnounced(d: Downloads, maxAnnouncements: nat, maxInFlight: nat, hash: Hash, requestTime: Micros): (r: Downloads)
    requires Inv(d, maxAnnouncements, maxInFlight)
    ensures Inv(r, maxAnnouncements, maxInFlight)
    ensures hash in d.txs || |d.txs| >= maxAnnouncements ==> r == d
    ensures hash !in d.txs && |d.txs| < maxAnnouncements ==>
              StatusOf(r, hash) == Pending(requestTime) && |r.txs| == |d.txs| + 1
    ensures forall h :: h != hash ==> StatusOf(r, h) == StatusOf(d, h)
  {
    if hash in d.txs || |d.txs| >= maxAnnouncements then d
    else
      var e := AnnouncedTx(hash, requestTime);
      assert e !in d.requested && e !in d.announced;
      Downloads(d.txs[hash := e], d.announced + {e}, d.requested)
  }

  /** Another peer's request is outstanding: move this peer's request time
      for a pending txid to `requestTime`.  Nothing else is touched. */
  function Requeue(d: Downloads, maxAnnouncements: nat, maxInFlight: nat, hash: Hash, requestTime: Micros): (r: Downloads)
    requires Inv(d, maxAnnouncements, maxInFlight)
    ensures Inv(r, maxAnnouncements, maxInFlight)
    ensures StatusOf(d, hash).Pending? ==> StatusOf(r, hash) == Pending(requestTime)
    ensures !StatusOf(d, hash).Pending? ==> r == d
    ensures forall h :: h != hash ==> StatusOf(r, h) == StatusOf(d, h)
    ensures r.txs.Keys == d.txs.Keys && r.requested == d.requested
  {
    if hash in d.txs && d.txs[hash] !in d.requested then
      var old_e, e := d.txs[hash], AnnouncedTx(hash, requestTime);
      assert d.txs[hash := e].Keys == d.txs.Keys;
      assert e !in d.requested;
      Downloads(d.txs[hash := e], (d.announced - {old_e}) + {e}, d.requested)
    else d
  }

  /** A GETDATA was sent to this peer: a pending txid becomes in flight with
      the given expiry, provided the in-flight limit has room. */
  function SetExpiry(d: Downloads, maxAnnouncements: nat, maxInFlight: nat, hash: Hash, expiry: Micros): (r: Downloads)
    requires Inv(d, maxAnnouncements, maxInFlight)
    ensures Inv(r, maxAnnouncements, maxInFlight)
    ensures StatusOf(d, hash).Pending? && |d.requested| < maxInFlight ==>
              StatusOf(r, hash) == InFlight(expiry) && |r.requested| == |d.requested| + 1
    ensures !(StatusOf(d, hash).Pending? && |d.requested| < maxInFlight) ==> r == d
    ensures forall h :: h != hash ==> StatusOf(r, h) == StatusOf(d, h)
    ensures r.txs.Keys == d.txs.Keys
  {
    if hash in d.txs && d.txs[hash] !in d.requested && |d.requested| < maxInFlight then
      var old_e, e := d.txs[hash], AnnouncedTx(hash, expiry);
      assert d.txs[hash := e].Keys == d.txs.Keys;
      assert e !in d.requested;
      Downloads(d.txs[hash := e], d.announced - {old_e}, d.requested + {e})
    else d
  }

  /** The transaction arrived or expired: forget the txid entirely. */
  function Remove(d: Downloads, maxAnnouncements: nat, maxInFlight: nat, hash: Hash): (r: Downloads)
    requires Inv(d, maxAnnouncements, maxInFlight)
    ensures Inv(r, maxAnnouncements, maxInFlight)
    ensures StatusOf(r, hash) == Absent
    ensures forall h :: h != hash ==> StatusOf(r, h) == StatusOf(d, h)
    ensures r.txs.Keys == d.txs.Keys - {hash}
  {
    if hash !in d.txs then d
    else
      var e := d.txs[hash];
      var r := Downloads(d.txs - {hash}, d.announced - {e}, d.requested - {e});
      assert |r.txs| == |r.txs.Keys| && |d.txs| == |d.txs.Keys|;
      SubsetCard(r.txs.Keys, d.txs.Keys);
      SubsetCard(r.requested, d.requested);
      r
  }

  /** The request entries whose expiry time has been reached. */
  function Expired(d: Downloads, now: Micros): set<AnnouncedTx>
  {
    set e | e in d.requested && e.timestamp <= now
  }

  /** Drop every in-flight request whose expiry time is at or before `now`. */
  function Expire(d: Downloads, maxAnnouncements: nat, maxInFlight: nat, now: Micros): (r: Downloads)
    requires Inv(d, maxAnnouncements, maxInFlight)
    ensures Inv(r, maxAnnouncements, maxInFlight)
    ensures forall h :: StatusOf(r, h) ==
              if StatusOf(d, h).InFlight? && StatusOf(d, h).expiry <= now then Absent else StatusOf(d, h)
  {
    var gone := Expired(d, now);
    var r := Downloads(map h | h in d.txs && d.txs[h] !in gone :: d.txs[h], d.announced, d.requested - gone);
    assert |r.txs| == |r.txs.Keys| && |d.txs| == |d.txs.Keys|;
    SubsetCard(r.txs.Keys, d.txs.Keys);
    SubsetCard(r.requested, d.requested);
    r
  }

  /** The pending txids whose request time has come. */
  function ReadyToRequest(d: Downloads, now: Micros): (ready: set<Hash>)
    requires WellFormed(d)
    ensures forall h :: h in ready <==> StatusOf(d, h).Pending? && StatusOf(d, h).requestTime <= now
  {
    set e | e in d.announced && e.timestamp <= now :: e.hash
  }

  /** Removing a txid twice is the same as removing it once. */
  lemma RemoveIdempotent(d: Downloads, maxAnnouncements: nat, maxInFlight: nat, hash: Hash)
    requires Inv(d, maxAnnouncements, maxInFlight)
    ensures Remove(Remove(d, maxAnnouncements, maxInFlight, hash), maxAnnouncements, maxInFlight, hash)
         == Remove(d, maxAnnouncements, maxInFlight, hash)
  {
  }

  /** Forgetting a txid just announced restores the record it was added to. */
  lemma AddThenRemove(d: Downloads, maxAnnouncements: nat, maxInFlight: nat, hash: Hash, requestTime: Micros)
    requires Inv(d, maxAnnouncements, maxInFlight)
    requires hash !in d.txs
    ensures Remove(AddAnnounced(d, maxAnnouncements, maxInFlight, hash, requestTime), maxAnnouncements, maxInFlight, hash) == d
  {
    var e := AnnouncedTx(hash, requestTime);
    assert e !in d.announced && e !in d.requested;
    if |d.txs| < maxAnnouncements {
      assert d.txs[hash := e] - {hash} == d.txs;
    }
  }

  /** Since every txid sits in exactly one of the two sets, the two sets
      together are exactly as large as the map. */
  lemma {:induction false} CollectionSizesAddUp(d: Downloads)
    requires WellFormed(d)
    ensures |d.announced| + |d.requested| == |d.txs|
    decreases |d.txs|
  {
    if d.txs == map[] {
      assert d.announced == {} && d.requested == {};
    } else {
      var h :| h in d.txs;
      var e := d.txs[h];
      var r := Downloads(d.txs - {h}, d.announced - {e}, d.requested - {e});
      assert |r.txs| == |r.txs.Keys| && |d.txs| == |d.txs.Keys| && r.txs.Keys == d.txs.Keys - {h};
      assert WellFormed(r);
      CollectionSizesAddUp(r);
    }
  }

  /** Removing an entry that has already expired does not change what
      expiring leaves behind. */
  lemma ExpireAfterRemovingExpired(d: Downloads, maxAnnouncements: nat, maxInFlight: nat, now: Micros, e: AnnouncedTx)
    requires Inv(d, maxAnnouncements, maxInFlight)
    requires e in d.requested && e.timestamp <= now
    ensures Expire(Remove(d, maxAnnouncements, maxInFlight, e.hash), maxAnnouncements, maxInFlight, now)
         == Expire(d, maxAnnouncements, maxInFlight, now)
  {
    var d' := Remove(d, maxAnnouncements, maxInFlight, e.hash);
    var a := Expire(d', maxAnnouncements, maxInFlight, now);
    var b := Expire(d, maxAnnouncements, maxInFlight, now);
    assert a.txs == b.txs;
    assert a.requested == b.requested;
  }

  /** When nothing in flight has reached its expiry, expiring is a no-op. */
  lemma ExpireNothingDue(d: Downloads, maxAnnouncements: nat, maxInFlight: nat, now: Micros)
    requires Inv(d, maxAnnouncements, maxInFlight)
    requires forall e :: e in d.requested ==> now < e.timestamp
    ensures Expire(d, maxAnnouncements, maxInFlight, now) == d
  {
    var r := Expire(d, maxAnnouncements, maxInFlight, now);
    assert Expired(d, now) == {};
    assert r.txs == d.txs;
    assert r.requested == d.requested;
  }

  /** TxDownloadState: the per-peer announcement record, updated in place. */
  class TxDownloadState {
    const maxPeerTxAnnouncements: nat
    const maxPeerTxInFlight: nat

    /** All announcements from this peer, by txid. */
    var txs: map<Hash, AnnouncedTx>
    /** Announced, not yet requested, ordered by request time. */
    var announcedTxs: set<AnnouncedTx>
    /** Requested from this peer, ordered by expiry time. */
    var requestedTxs: set<AnnouncedTx>

    function State(): Downloads
      reads this
    {
      Downloads(txs, announcedTxs, requestedTxs)
    }

    ghost predicate Valid()
      reads this
    {
      Inv(State(), maxPeerTxAnnouncements, maxPeerTxInFlight)
    }

    constructor (maxAnnouncements: nat, maxInFlight: nat)
      ensures Valid()
      ensures maxPeerTxAnnouncements == maxAnnouncements && maxPeerTxInFlight == maxInFlight
      ensures State() == Downloads(map[], {}, {})
      ensures forall h :: StatusOf(State(), h) == Absent
    {
      maxPeerTxAnnouncements, maxPeerTxInFlight := maxAnnouncements, maxInFlight;
      txs, announcedTxs, requestedTxs := map[], {}, {};
    }

    method AddAnnouncedTx(hash: Hash, requestTime: Micros)
      requires Valid()
      modifies this
      ensures Valid()
      ensures State() == AddAnnounced(old(State()), maxPeerTxAnnouncements, maxPeerTxInFlight, hash, requestTime)
    {
      if hash in txs || |txs| >= maxPeerTxAnnouncements {
        return;
      }
      var e := AnnouncedTx(hash, requestTime);
      txs := txs[hash := e];
      announcedTxs := announcedTxs + {e};
    }

    method RequeueTx(hash: Hash, requestTime: Micros)
      requires Valid()
      modifies this
      ensures Valid()
      ensures State() == Requeue(old(State()), maxPeerTxAnnouncements, maxPeerTxInFlight, hash, requestTime)
    {
      if hash in txs && txs[hash] !in requestedTxs {
        var e := AnnouncedTx(hash, requestTime);
        announcedTxs := (announcedTxs - {txs[hash]}) + {e};
        txs := txs[hash := e];
      }
    }

    method SetRequestExpiry(hash: Hash, expiryTime: Micros)
      requires Valid()
      modifies this
      ensures Valid()
      ensures State() == SetExpiry(old(State()), maxPeerTxAnnouncements, maxPeerTxInFlight, hash, expiryTime)
    {
      if hash in txs && txs[hash] !in requestedTxs && |requestedTxs| < maxPeerTxInFlight {
        var e := AnnouncedTx(hash, expiryTime);
        announcedTxs := announcedTxs - {txs[hash]};
        requestedTxs := requestedTxs + {e};
        txs := txs[hash := e];
      }
    }

    /** True exactly when no further request may be sent to this peer. */
    method MaxRequestInFlight() returns (atLimit: bool)
      requires Valid()
      ensures atLimit <==> |requestedTxs| == maxPeerTxInFlight
    {
      atLimit := |requestedTxs| >= maxPeerTxInFlight;
    }

    method RemoveTx(hash: Hash)
      requires Valid()
      modifies this
      ensures Valid()
      ensures State() == Remove(old(State()), maxPeerTxAnnouncements, maxPeerTxInFlight, hash)
    {
      if hash in txs {
        var e := txs[hash];
        announcedTxs := announcedTxs - {e};
        requestedTxs := requestedTxs - {e};
        txs := txs - {hash};
      }
    }

    /** Walk the in-flight set in expiry order and drop every request whose
        expiry time is at or before `currentTime`.  `nodeId` is only logged. */
    method ExpireOldAnnouncedTxs(currentTime: Micros, nodeId: int)
      requires Valid()
      modifies this
      ensures Valid()
      ensures State() == Expire(old(State()), maxPeerTxAnnouncements, maxPeerTxInFlight, currentTime)
    {
      while requestedTxs != {}
        invariant Valid()
        invariant Expire(State(), maxPeerTxAnnouncements, maxPeerTxInFlight, currentTime)
               == Expire(old(State()), maxPeerTxAnnouncements, maxPeerTxInFlight, currentTime)
        decreases |requestedTxs|
      {
        var first := Earliest(requestedTxs);
        if currentTime < first.timestamp {
          break;
        }
        ExpireAfterRemovingExpired(State(), maxPeerTxAnnouncements, maxPeerTxInFlight, currentTime, first);
        RemoveTx(first.hash);
      }
      ExpireNothingDue(State(), maxPeerTxAnnouncements, maxPeerTxInFlight, currentTime);
    }

    /** The pending txids whose request time is at or before `currentTime`,
        in the order of the announced set (request time, then txid). */
    method GetAnnouncedTxsToRequest(currentTime: Micros) returns (txsToRequest: seq<Hash>)
      requires Valid()
      ensures forall h :: h in txsToRequest <==> h in ReadyToRequest(State(), currentTime)
      ensures forall i :: 0 <= i < |txsToRequest| ==> txsToRequest[i] in txs
      ensures forall i, j :: 0 <= i < j < |txsToRequest| ==> TimeCompare(txs[txsToRequest[i]], txs[txsToRequest[j]])
    {
      txsToRequest := [];
      var remaining := announcedTxs;
      while remaining != {}
        invariant remaining <= announcedTxs
        invariant forall i :: 0 <= i < |txsToRequest| ==>
                    txsToRequest[i] in txs && txs[txsToRequest[i]] in announcedTxs - remaining
                    && txs[txsToRequest[i]].timestamp <= currentTime
        invariant forall e :: e in announcedTxs && e !in remaining ==> e.hash in txsToRequest
        invariant forall i, j :: 0 <= i < j < |txsToRequest| ==> TimeCompare(txs[txsToRequest[i]], txs[txsToRequest[j]])
        invariant forall i, e :: 0 <= i < |txsToRequest| && e in remaining ==> TimeCompare(txs[txsToRequest[i]], e)
        decreases |remaining|
      {
        var first := Earliest(remaining);
        if currentTime < first.timestamp {
          break;
        }
        txsToRequest := txsToRequest + [first.hash];
        remaining := remaining - {first};
      }
    }
  }

  /** A sequence without repeats has as many distinct elements as it has entries. */
  lemma {:induction false} DistinctCard(s: seq<Hash>)
    requires forall i, j :: 0 <= i < j < |s| ==> s[i] != s[j]
    ensures |set h: Hash | h in s| == |s|
  {
    if s != [] {
      var rest := set h: Hash | h in s[1..];
      DistinctCard(s[1..]);
      assert forall k :: 0 <= k < |s[1..]| ==> s[1..][k] == s[k + 1];
      assert s[0] !in rest;
      assert (set h: Hash | h in s) == rest + {s[0]};
      assert |rest + {s[0]}| == |rest| + 1;
      assert |rest| == |s| - 1;
    }
  }

  /** A strictly ordered sequence holding exactly the txids 1 and 2, where 1
      is requested earlier, is [1, 2]. */
  lemma OrderedPair(ready: seq<Hash>, txs: map<Hash, AnnouncedTx>)
    requires forall h :: h in ready <==> h == 1 || h == 2
    requires forall i :: 0 <= i < |ready| ==> ready[i] in txs
    requires forall i, j :: 0 <= i < j < |ready| ==> TimeCompare(txs[ready[i]], txs[ready[j]])
    requires 1 in txs && 2 in txs && txs[1].timestamp < txs[2].timestamp
    ensures ready == [1, 2]
  {
    TimeCompareIsStrictTotalOrder();
    DistinctCard(ready);
    assert (set h: Hash | h in ready) == {1, 2};
    assert ready[0] in ready && ready[1] in ready;
    assert TimeCompare(txs[ready[0]], txs[ready[1]]);
  }

  /** The state the unit test builds: announcements at 1000, 1500 and 2000
      microseconds. */
  method ThreeAnnouncements() returns (state: TxDownloadState)
    ensures fresh(state) && state.Valid()
    ensures StatusOf(state.State(), 1) == Pending(1000)
    ensures StatusOf(state.State(), 2) == Pending(1500)
    ensures StatusOf(state.State(), 3) == Pending(2000)
    ensures forall h :: h !in {1, 2, 3} ==> StatusOf(state.State(), h) == Absent
  {
    state := new TxDownloadState(100, 100);
    state.AddAnnouncedTx(1, 1000);
    assert |state.txs| == 1;
    state.AddAnnouncedTx(2, 1500);
    assert |state.txs| == 2;
    state.AddAnnouncedTx(3, 2000);
  }

  /** The selection the unit test exercises: at 1500 microseconds the first
      two of the three announcements are ready, in time order. */
  method ReadyAtScenario() returns (ready: seq<Hash>)
    ensures ready == [1, 2]
  {
    var state := ThreeAnnouncements();
    ready := state.GetAnnouncedTxsToRequest(1500);
    assert forall h :: h in ReadyToRequest(state.State(), 1500) <==> h == 1 || h == 2;
    OrderedPair(ready, state.txs);
  }
}
