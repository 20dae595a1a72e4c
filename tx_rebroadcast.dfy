/**
 Rebroadcast candidate selection (TxRebroadcastCalculator in txrebroadcast.h
 and txrebroadcast.cpp).

 The block assembler is asked for a template of at most three quarters of a
 block, built only from transactions at least 30 minutes old; the calculator
 keeps those template transactions that are still in the mempool and whose
 fee rate is strictly above a cached fee rate.  The assembler, the clock and
 the chain tip are outside the model: the template, "now", the tip and the
 assembler's minimum fee rate are parameters.
 */
module TxRebroadcast {

  type Hash = nat
  type Seconds = int

  datatype Option<T> = None | Some(value: T)

  /** Consensus limit on block weight (consensus.h is not part of this model). */
  const MaxBlockWeight: nat := 4000000
  /** Rebroadcast assembles three quarters of a block. */
  const MaxRebroadcastWeight: nat := 3 * MaxBlockWeight / 4
  /** Minimum age of a transaction before it is rebroadcast: 30 minutes. */
  const RebroadcastMinTxAge: Seconds := 30 * 60
  /** Average delay between rebroadcasts: 1 hour. */
  const TxRebroadcastInterval: Seconds := 60 * 60
  /** Period of the fee-rate cache refresh: 20 minutes. */
  const RebroadcastFeeRateCacheInterval: Seconds := 20 * 60

  lemma RebroadcastConstants()
    ensures MaxRebroadcastWeight == 3000000 && MaxRebroadcastWeight < MaxBlockWeight
    ensures RebroadcastMinTxAge == 1800
  {
  }

  lemma IntervalConstants()
    ensures TxRebroadcastInterval == 3600
    ensures RebroadcastFeeRateCacheInterval == 1200
    ensures RebroadcastFeeRateCacheInterval < TxRebroadcastInterval
  {
  }

  /** A transaction of the block template: txid, witness hash and weight. */
  datatype Tx = Tx(txid: Hash, wtxid: Hash, weight: nat)

  /** What the mempool keeps about a transaction: its fee including any
      prioritisation, and the time it entered the pool. */
  datatype MempoolEntry = MempoolEntry(modifiedFee: int, time: Seconds)

  /** The mempool's primary index by txid and its secondary index from
      witness hash to txid. */
  datatype Mempool = Mempool(mapTx: map<Hash, MempoolEntry>, wtxidIndex: map<Hash, Hash>)

  /** The identifier the caller asked for. */
  function TxHash(tx: Tx, isWtxid: bool): Hash
  {
    if isWtxid then tx.wtxid else tx.txid
  }

  /** `get_iter_from_wtxid` when `isWtxid`, `mapTx.find` otherwise. */
  function Lookup(pool: Mempool, h: Hash, isWtxid: bool): Option<MempoolEntry>
  {
    if isWtxid then
      if h in pool.wtxidIndex && pool.wtxidIndex[h] in pool.mapTx then Some(pool.mapTx[pool.wtxidIndex[h]]) else None
    else
      if h in pool.mapTx then Some(pool.mapTx[h]) else None
  }

  function Abs(x: int): nat
  {
    if x < 0 then -x else x
  }

  /** Integer division truncating toward zero, as C++ divides an int64: the
      fractional part of the exact quotient is discarded, so the quotient
      times the divisor lies within one divisor of the dividend, on the side
      of zero. */
  function TruncDiv(a: int, b: int): (q: int)
    requires b > 0
    ensures a >= 0 ==> q * b <= a < q * b + b
    ensures a < 0 ==> q * b - b < a <= q * b
  {
    var m := Abs(a) / b;
    assert Abs(a) == m * b + Abs(a) % b;
    if a >= 0 then m else assert -m * b == -(m * b); -m
  }

  /** The per-thousand-units fee rate CFeeRate(fee, size) holds: the fee per
      1000 weight units, truncated toward zero; zero for size zero
      (policy/feerate.cpp is not part of this model). */
  function FeeRate(fee: int, size: nat): (rate: int)
    ensures size == 0 ==> rate == 0
    ensures size > 0 && fee >= 0 ==> rate * size <= fee * 1000 < rate * size + size
    ensures size > 0 && fee < 0 ==> rate * size - size < fee * 1000 <= rate * size
  {
    if size == 0 then 0 else TruncDiv(fee * 1000, size)
  }

  /** A template transaction is rebroadcast when it is still in the mempool
      under the chosen identifier and its fee rate beats the cached one. */
  predicate Passes(tx: Tx, pool: Mempool, cachedFeeRate: int, isWtxid: bool)
  {
    var found := Lookup(pool, TxHash(tx, isWtxid), isWtxid);
    found.Some? && FeeRate(found.value.modifiedFee, tx.weight) > cachedFeeRate
  }

  /** The fee-rate filter over the template, in template order. */
  function RebroadcastFilter(template: seq<Tx>, pool: Mempool, cachedFeeRate: int, isWtxid: bool): (r: seq<Hash>)
    ensures |r| <= |template|
    decreases |template|
  {
    if template == [] then []
    else
      var kept := RebroadcastFilter(template[..|template| - 1], pool, cachedFeeRate, isWtxid);
      var tx := template[|template| - 1];
      if Passes(tx, pool, cachedFeeRate, isWtxid) then kept + [TxHash(tx, isWtxid)] else kept
  }

  /** `positions` lists, in increasing order, exactly the template positions
      that pass the filter, and `r` holds their identifiers in that order. */
  ghost predicate SelectsPassing(positions: seq<nat>, r: seq<Hash>, template: seq<Tx>, pool: Mempool,
                                 cachedFeeRate: int, isWtxid: bool)
  {
    && |positions| == |r|
    && (forall k :: 0 <= k < |positions| ==>
          positions[k] < |template|
          && Passes(template[positions[k]], pool, cachedFeeRate, isWtxid)
          && r[k] == TxHash(template[positions[k]], isWtxid))
    && (forall k, l :: 0 <= k < l < |positions| ==> positions[k] < positions[l])
    && (forall i :: 0 <= i < |template| && Passes(template[i], pool, cachedFeeRate, isWtxid) ==> i in positions)
  }

  /** One step of the filter: a selection for the template without its last
      transaction extends to the whole template. */
  lemma SelectsStep(ps: seq<nat>, kept: seq<Hash>, template: seq<Tx>, pool: Mempool, cachedFeeRate: int, isWtxid: bool)
    requires template != []
    requires SelectsPassing(ps, kept, template[..|template| - 1], pool, cachedFeeRate, isWtxid)
    ensures var n := |template| - 1;
            var last := template[n];
            if Passes(last, pool, cachedFeeRate, isWtxid)
            then SelectsPassing(ps + [n], kept + [TxHash(last, isWtxid)], template, pool, cachedFeeRate, isWtxid)
            else SelectsPassing(ps, kept, template, pool, cachedFeeRate, isWtxid)
  {
  }

  /** The result is the subsequence of the template made of exactly the
      transactions that pass the filter: nothing else, none left out, and in
      template order. */
  lemma {:induction false} FilterSelectsPassing(template: seq<Tx>, pool: Mempool, cachedFeeRate: int, isWtxid: bool)
    ensures exists positions :: SelectsPassing(positions, RebroadcastFilter(template, pool, cachedFeeRate, isWtxid),
                                               template, pool, cachedFeeRate, isWtxid)
    decreases |template|
  {
    var r := RebroadcastFilter(template, pool, cachedFeeRate, isWtxid);
    if template == [] {
      assert SelectsPassing([], r, template, pool, cachedFeeRate, isWtxid);
    } else {
      var n := |template| - 1;
      var kept := RebroadcastFilter(template[..n], pool, cachedFeeRate, isWtxid);
      FilterSelectsPassing(template[..n], pool, cachedFeeRate, isWtxid);
      var ps: seq<nat> :| SelectsPassing(ps, kept, template[..n], pool, cachedFeeRate, isWtxid);
      SelectsStep(ps, kept, template, pool, cachedFeeRate, isWtxid);
      if Passes(template[n], pool, cachedFeeRate, isWtxid) {
        assert SelectsPassing(ps + [n], r, template, pool, cachedFeeRate, isWtxid);
      } else {
        assert SelectsPassing(ps, r, template, pool, cachedFeeRate, isWtxid);
      }
    }
  }

  /** An identifier is returned exactly when some template transaction with
      that identifier passes the filter. */
  lemma {:induction false} FilterMembership(template: seq<Tx>, pool: Mempool, cachedFeeRate: int, isWtxid: bool, h: Hash)
    ensures h in RebroadcastFilter(template, pool, cachedFeeRate, isWtxid) <==>
            exists i :: 0 <= i < |template| && Passes(template[i], pool, cachedFeeRate, isWtxid)
                        && TxHash(template[i], isWtxid) == h
  {
    var r := RebroadcastFilter(template, pool, cachedFeeRate, isWtxid);
    FilterSelectsPassing(template, pool, cachedFeeRate, isWtxid);
    var ps: seq<nat> :| SelectsPassing(ps, r, template, pool, cachedFeeRate, isWtxid);
    if h in r {
      var k :| 0 <= k < |r| && r[k] == h;
      assert Passes(template[ps[k]], pool, cachedFeeRate, isWtxid) && TxHash(template[ps[k]], isWtxid) == h;
    }
    if exists i :: 0 <= i < |template| && Passes(template[i], pool, cachedFeeRate, isWtxid) && TxHash(template[i], isWtxid) == h {
      var i :| 0 <= i < |template| && Passes(template[i], pool, cachedFeeRate, isWtxid) && TxHash(template[i], isWtxid) == h;
      var k :| 0 <= k < |ps| && ps[k] == i;
      assert r[k] == h;
    }
  }

  /** Every returned identifier names a mempool transaction, found through the
      index the flag selects, whose fee rate is strictly above the cached one
      for the weight of a template transaction carrying that identifier. */
  lemma {:induction false} FilterResultsInMempool(template: seq<Tx>, pool: Mempool, cachedFeeRate: int, isWtxid: bool)
    ensures forall h :: h in RebroadcastFilter(template, pool, cachedFeeRate, isWtxid) ==>
              Lookup(pool, h, isWtxid).Some?
              && (isWtxid ==> h in pool.wtxidIndex && pool.wtxidIndex[h] in pool.mapTx)
              && (!isWtxid ==> h in pool.mapTx)
              && exists i :: 0 <= i < |template| && TxHash(template[i], isWtxid) == h
                             && FeeRate(Lookup(pool, h, isWtxid).value.modifiedFee, template[i].weight) > cachedFeeRate
  {
    forall h | h in RebroadcastFilter(template, pool, cachedFeeRate, isWtxid)
      ensures Lookup(pool, h, isWtxid).Some?
      ensures exists i :: 0 <= i < |template| && TxHash(template[i], isWtxid) == h
                          && FeeRate(Lookup(pool, h, isWtxid).value.modifiedFee, template[i].weight) > cachedFeeRate
    {
      FilterMembership(template, pool, cachedFeeRate, isWtxid, h);
    }
  }

  /** What the block assembler is asked for when rebroadcast candidates are
      computed at `now`. */
  datatype AssemblerOptions = AssemblerOptions(blockMaxWeight: nat, skipInclusionUntil: Seconds)

  function RebroadcastOptions(now: Seconds): (options: AssemblerOptions)
    ensures options.blockMaxWeight == 3000000
    ensures options.skipInclusionUntil == now - 1800
  {
    AssemblerOptions(MaxRebroadcastWeight, now - RebroadcastMinTxAge)
  }

  function TotalWeight(template: seq<Tx>): nat
  {
    if template == [] then 0 else TotalWeight(template[..|template| - 1]) + template[|template| - 1].weight
  }

  /** A template that respects the options: within the weight limit, and every
      mempool entry it draws on entered the pool no later than the cutoff. */
  ghost predicate HonoursOptions(template: seq<Tx>, pool: Mempool, options: AssemblerOptions)
  {
    && TotalWeight(template) <= options.blockMaxWeight
    && forall i, isWtxid :: 0 <= i < |template| && Lookup(pool, TxHash(template[i], isWtxid), isWtxid).Some? ==>
         Lookup(pool, TxHash(template[i], isWtxid), isWtxid).value.time <= options.skipInclusionUntil
  }

  /** For a template assembled with the rebroadcast options at `now`, nothing
      that entered the mempool less than 30 minutes ago is returned. */
  lemma {:induction false} RecentTransactionsNotRebroadcast(template: seq<Tx>, pool: Mempool, cachedFeeRate: int, isWtxid: bool, now: Seconds)
    requires HonoursOptions(template, pool, RebroadcastOptions(now))
    ensures forall h :: h in RebroadcastFilter(template, pool, cachedFeeRate, isWtxid) ==>
              Lookup(pool, h, isWtxid).Some? && Lookup(pool, h, isWtxid).value.time <= now - RebroadcastMinTxAge
  {
    forall h | h in RebroadcastFilter(template, pool, cachedFeeRate, isWtxid)
      ensures Lookup(pool, h, isWtxid).Some? && Lookup(pool, h, isWtxid).value.time <= now - RebroadcastMinTxAge
    {
      FilterMembership(template, pool, cachedFeeRate, isWtxid, h);
    }
  }

  /** The unit test's two transactions: `TxOld` entered the pool at time 0,
      `TxNew` 35 minutes later; both pay 2 coins of fee on weight 800. */
  const TxOld: Tx := Tx(1, 11, 800)
  const TxNew: Tx := Tx(2, 12, 800)

  function RecencyPool(): Mempool
  {
    Mempool(map[1 := MempoolEntry(200000000, 0), 2 := MempoolEntry(200000000, 2100)], map[11 := 1, 12 := 2])
  }

  /** A fresh calculator (cached rate 0) runs at the later time.  The
      assembler, asked for the rebroadcast options, leaves out `TxNew`; for any
      template it may build from the two and from transactions that are not
      in the pool (the coinbase it puts first), without repeating one, the
      result is exactly the txid of `TxOld` when the template holds it, and
      empty otherwise. */
  lemma {:induction false} RecencyScenario(template: seq<Tx>)
    requires forall i :: 0 <= i < |template| ==>
               template[i] == TxOld || template[i] == TxNew || template[i].txid !in RecencyPool().mapTx
    requires forall i, j :: 0 <= i < j < |template| ==> template[i] != template[j]
    requires HonoursOptions(template, RecencyPool(), RebroadcastOptions(2100))
    ensures TxNew !in template
    ensures RebroadcastFilter(template, RecencyPool(), 0, false) == if TxOld in template then [TxOld.txid] else []
  {
    var pool := RecencyPool();
    var r := RebroadcastFilter(template, pool, 0, false);
    FilterSelectsPassing(template, pool, 0, false);
    var ps: seq<nat> :| SelectsPassing(ps, r, template, pool, 0, false);
    assert |ps| >= 2 ==> ps[0] < ps[1] < |template| && template[ps[0]] != template[ps[1]];
    forall i | 0 <= i < |template|
      ensures template[i] != TxNew
      ensures Passes(template[i], pool, 0, false) ==> template[i] == TxOld
    {
      assert Lookup(pool, TxHash(template[i], false), false).Some? ==>
             Lookup(pool, TxHash(template[i], false), false).value.time <= 300;
    }
    assert forall k :: 0 <= k < |ps| ==> template[ps[k]] == TxOld;
    assert |ps| <= 1;
    assert FeeRate(200000000, 800) == 250000000;
    if TxOld in template {
      var i :| 0 <= i < |template| && template[i] == TxOld;
      assert Passes(template[i], pool, 0, false);
      assert i in ps;
      assert r == [TxOld.txid];
    }
  }

  /** The mempool the calculator holds a reference to; other components
      change it, the calculator only reads it. */
  class TxMemPool {
    var mapTx: map<Hash, MempoolEntry>
    var wtxidIndex: map<Hash, Hash>

    function Snapshot(): Mempool
      reads this
    {
      Mempool(mapTx, wtxidIndex)
    }

    constructor (mapTx: map<Hash, MempoolEntry>, wtxidIndex: map<Hash, Hash>)
      ensures Snapshot() == Mempool(mapTx, wtxidIndex)
    {
      this.mapTx, this.wtxidIndex := mapTx, wtxidIndex;
    }
  }

  class TxRebroadcastCalculator {
    const mempool: TxMemPool

    /** Time of the next fee-rate cache refresh. */
    var nextMinFeeCache: Seconds
    /** Chain tip when the cache was last refreshed (None: the null pointer). */
    var tipAtCacheTime: Option<Hash>
    /** Minimum package fee rate for block inclusion, per thousand units. */
    var cachedFeeRate: int

    constructor (mempool: TxMemPool)
      ensures this.mempool == mempool
      ensures nextMinFeeCache == 0 && cachedFeeRate == 0 && tipAtCacheTime == None
    {
      this.mempool := mempool;
      nextMinFeeCache := 0;
      tipAtCacheTime := None;
      cachedFeeRate := 0;
    }

    /** Ask the assembler (a parameter: BlockAssembler::CreateNewBlock) for a
        template of the mempool under the rebroadcast options at `now`, walk
        the template, keep each transaction still in the mempool whose
        fee rate is strictly above the cached rate, and return its txid or
        its witness hash. */
    method GetRebroadcastTransactions(now: Seconds, assemble: (Mempool, AssemblerOptions) -> seq<Tx>, isWtxid: bool)
      returns (rebroadcastTxs: seq<Hash>)
      ensures rebroadcastTxs ==
                RebroadcastFilter(assemble(mempool.Snapshot(), RebroadcastOptions(now)), mempool.Snapshot(), cachedFeeRate, isWtxid)
      ensures HonoursOptions(assemble(mempool.Snapshot(), RebroadcastOptions(now)), mempool.Snapshot(), RebroadcastOptions(now)) ==>
                forall h :: h in rebroadcastTxs ==>
                  Lookup(mempool.Snapshot(), h, isWtxid).Some?
                  && Lookup(mempool.Snapshot(), h, isWtxid).value.time <= now - RebroadcastMinTxAge
    {
      var options := AssemblerOptions(MaxRebroadcastWeight, now - RebroadcastMinTxAge);
      var blockTemplate := assemble(mempool.Snapshot(), options);
      rebroadcastTxs := [];
      var count := 0;
      for i := 0 to |blockTemplate|
        invariant rebroadcastTxs == RebroadcastFilter(blockTemplate[..i], mempool.Snapshot(), cachedFeeRate, isWtxid)
        invariant count == |rebroadcastTxs|
      {
        var tx := blockTemplate[i];
        var txhsh := if isWtxid then tx.wtxid else tx.txid;
        var it := Lookup(mempool.Snapshot(), txhsh, isWtxid);
        if it.Some? {
          var feeRate := FeeRate(it.value.modifiedFee, tx.weight);
          if feeRate > cachedFeeRate {
            rebroadcastTxs := rebroadcastTxs + [txhsh];
            count := count + 1;
          }
        }
        assert blockTemplate[..i + 1][..i] == blockTemplate[..i];
      }
      assert blockTemplate[..|blockTemplate|] == blockTemplate;
      ghost var honours := HonoursOptions(blockTemplate, mempool.Snapshot(), options);
      if honours {
        RecentTransactionsNotRebroadcast(blockTemplate, mempool.Snapshot(), cachedFeeRate, isWtxid, now);
      }
    }

    /** Refresh the fee-rate cache: schedule the next refresh 20 minutes from
        `now`, remember the tip, and store the assembler's minimum fee rate. */
    method CacheMinRebroadcastFee(now: Seconds, tip: Option<Hash>, minTxFeeRate: int)
      modifies this
      ensures nextMinFeeCache == now + RebroadcastFeeRateCacheInterval
      ensures tipAtCacheTime == tip
      ensures cachedFeeRate == minTxFeeRate
      ensures unchanged(mempool)
    {
      nextMinFeeCache := now + RebroadcastFeeRateCacheInterval;
      tipAtCacheTime := tip;
      cachedFeeRate := minTxFeeRate;
    }
  }
}
