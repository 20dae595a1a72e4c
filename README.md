# Transaction download and rebroadcast bookkeeping, in Dafny

This project models two pieces of a Bitcoin node's transaction relay.

- **`TxDownload`** (`tx_download.dfy`) models the per-peer record of announced
  transactions (`TxDownloadState`). The record keeps three collections:
  - `txs`, a map from txid to announcement;
  - `announcedTxs`, the announcements not yet requested, ordered by request time;
  - `requestedTxs`, the announcements requested from this peer, ordered by expiry time.

  Announcements are `(txid, timestamp)` pairs ordered by `AnnouncedTxTimeCompare`.
  The state is a class whose methods update these fields in place. The five
  mutating methods (`AddAnnouncedTx`, `RequeueTx`, `SetRequestExpiry`,
  `RemoveTx`, `ExpireOldAnnouncedTxs`) are each proved equal to a pure
  transition function on the value `Downloads` of the three collections. The
  two queries change nothing: `MaxRequestInFlight` is proved against the
  in-flight count, and `GetAnnouncedTxsToRequest` against `ReadyToRequest`.
  Each transition function in turn is proved to keep the
  documented class invariants:
  - both per-peer limits hold;
  - every txid sits in exactly one of the two sets.

  Each transition that names a txid (add, requeue, set expiry, remove) is
  also proved to change the status of that txid only; the expiry sweep names
  none, and its own row below says which txids it changes. The two walks
  over the ordered sets (expiry and ready-to-request) go through the set in
  comparator order, using `Earliest`, which models `std::set::begin()`.
- **`TxRebroadcast`** (`tx_rebroadcast.dfy`) models the rebroadcast calculator
  (`TxRebroadcastCalculator`) and its constants. `GetRebroadcastTransactions`
  walks a block template and keeps each transaction that is still in the
  mempool and has a fee rate strictly above the cached rate. It returns txids
  or witness hashes. The template comes from the block assembler, asked for
  3,000,000 weight and transactions at least 30 minutes old at `now`; the
  assembler is a function parameter of the method. The loop is proved equal
  to the pure filter `RebroadcastFilter`.
  That filter is proved to return exactly the passing template transactions, in
  template order. `CacheMinRebroadcastFee` updates the three cache fields and
  leaves the mempool alone.

Inputs that come from outside the core are parameters:
- `BlockAssembler::CreateNewBlock`, as a function from the mempool and the
  assembler options to the template's transactions;
- the assembler's `minTxFeeRate()`;
- the wall clock `GetTime()`;
- the chain tip `::ChainActive().Tip()`, as an optional block hash.

The per-peer limits `MAX_PEER_TX_ANNOUNCEMENTS` and `MAX_PEER_TX_IN_FLIGHT`
are defined outside the core, so they are constructor parameters of
`TxDownloadState`. Txids are unbounded naturals. Timestamps are unbounded
integers: microseconds in `TxDownload`, seconds in `TxRebroadcast`.

The `TxDownloadState` method bodies are in `net_processing.cpp`, which is not
part of this model. Their behaviour is taken from the header's doc comments
and class invariants:
- `AddAnnouncedTx` ignores a txid it already holds. It also ignores any txid
  once `MAX_PEER_TX_ANNOUNCEMENTS` announcements are held.
- `RequeueTx` only changes a txid that is announced and not yet requested. For
  any other txid it does nothing.
- `SetRequestExpiry` only moves an announced txid to requested, and only while
  fewer than `MAX_PEER_TX_IN_FLIGHT` requests are outstanding. Otherwise it does
  nothing. This keeps the in-flight bound without a precondition on callers.
- `ExpireOldAnnouncedTxs` drops each request whose expiry time is at or before
  the current time. Its `nodeid` argument is used only for logging.
- `GetAnnouncedTxsToRequest` is a query that changes nothing. It returns the
  ready txids in comparator order.

The unit test `src/test/txdownload_tests.cpp` calls `AddAnnouncedTx` with
three arguments and expects a vector of pairs. The model follows the header
instead (two arguments, a vector of txids) and keeps only the test's
"timestamp at or before now" selection.

`CFeeRate(fee, size)` is modelled as the per-thousand rate `fee * 1000 / size`.
The division truncates toward zero, as C++ does, and a size of zero gives a
rate of zero. `policy/feerate.cpp` is not part of this model. The properties
of the filter are stated against the predicate `Passes`; none of them depends
on the formula, except the concrete rate in `RecencyScenario`.

## Model

| member | source | states |
|---|---|---|
| `TxDownload.TimeCompare` | src/net_processing.h:124-128 | the comparator's definition: earlier timestamp first, and for equal timestamps the smaller txid first |
| `TxDownload.TimeCompareIsStrictTotalOrder` | src/net_processing.h:120-129 | the (timestamp, txid) comparator is irreflexive, asymmetric and transitive, and any two distinct announcements compare one way or the other |
| `TxDownload.Earliest` | src/net_processing.h:202-207 | the element returned is in the set and precedes every other element under the comparator, as the first element of a `std::set` ordered by it does |
| `TxDownload.WellFormed` | src/net_processing.h:192 | the structural invariant: `txs` is keyed by txid, each of its entries is in exactly one of the two sets, and the sets hold nothing else |
| `TxDownload.Inv` | src/net_processing.h:190-192 | the full class invariant: well formed, at most `MAX_PEER_TX_ANNOUNCEMENTS` entries, at most `MAX_PEER_TX_IN_FLIGHT` requests |
| `TxDownload.AddAnnounced` | src/net_processing.h:149-151 | the class invariants are kept; a known txid, or a peer already at the announcement limit, leaves the state unchanged; otherwise the txid becomes pending with the given request time and the map grows by one; no other txid changes |
| `TxDownload.Requeue` | src/net_processing.h:170-177 | the class invariants are kept; a pending txid gets the new request time and stays pending; any other txid leaves the state unchanged; the key set and the requested set are unchanged |
| `TxDownload.SetExpiry` | src/net_processing.h:160-168 | the class invariants are kept; a pending txid with room under the in-flight limit becomes in flight with the given expiry, and the requested set grows by one; otherwise the state is unchanged; no other txid changes |
| `TxDownload.Remove` | src/net_processing.h:179-182 | the class invariants are kept; the txid is absent from all three collections afterwards; every other txid keeps its status |
| `TxDownload.Expire` | src/net_processing.h:184-186 | the class invariants are kept; every in-flight txid whose expiry time is at or before now becomes absent; every other txid, unexpired or pending, keeps its status |
| `TxDownload.ReadyToRequest` | src/net_processing.h:160-163 | a txid is ready exactly when it is pending and its request time is at or before now |
| `TxDownload.AddThenRemove` | src/net_processing.h:179-182 | forgetting a txid that was just announced, and was unknown before, gives back exactly the earlier record |
| `TxDownload.CollectionSizesAddUp` | src/net_processing.h:191-192 | when every txid of the map is in exactly one of the two sets, the two sets together hold as many entries as the map |
| `TxDownload.RemoveIdempotent` | src/net_processing.h:226-228 | removing a txid twice leaves the same state as removing it once |
| `TxDownload.ExpireAfterRemovingExpired` | src/net_processing.h:194-195 | removing one in-flight entry that has already expired does not change what the expiry sweep leaves |
| `TxDownload.ExpireNothingDue` | src/net_processing.h:194-195 | when no in-flight entry has reached its expiry, the expiry sweep changes nothing |
| `TxDownload.TxDownloadState.constructor` | src/net_processing.h:197-207 | a new record holds no announcements, satisfies the class invariants and stores the two limits |
| `TxDownload.TxDownloadState.AddAnnouncedTx` | src/net_processing.h:210-212 | keeps the class invariants; the new state is `AddAnnounced` of the old |
| `TxDownload.TxDownloadState.RequeueTx` | src/net_processing.h:214-217 | keeps the class invariants; the new state is `Requeue` of the old |
| `TxDownload.TxDownloadState.SetRequestExpiry` | src/net_processing.h:219-221 | keeps the class invariants; the new state is `SetExpiry` of the old |
| `TxDownload.TxDownloadState.MaxRequestInFlight` | src/net_processing.h:223-224 | returns true exactly when the number of requests in flight equals `MAX_PEER_TX_IN_FLIGHT` |
| `TxDownload.TxDownloadState.RemoveTx` | src/net_processing.h:226-228 | keeps the class invariants; the new state is `Remove` of the old |
| `TxDownload.TxDownloadState.ExpireOldAnnouncedTxs` | src/net_processing.h:230-233 | walks the requested set in expiry order; keeps the class invariants; the new state is `Expire` of the old |
| `TxDownload.TxDownloadState.GetAnnouncedTxsToRequest` | src/net_processing.h:235-236 | returns exactly the ready txids (pending, request time at or before now), each once, in comparator order of their announcements |
| `TxDownload.ThreeAnnouncements` | src/test/txdownload_tests.cpp:14-22 | the test's set-up: a fresh record given announcements at 1000, 1500 and 2000 microseconds is valid and holds exactly those three txids, each pending at its time |
| `TxDownload.ReadyAtScenario` | src/test/txdownload_tests.cpp:20-27 | with announcements at 1000, 1500 and 2000 microseconds, the query at 1500 returns the first two txids, in that order |
| `TxRebroadcast.RebroadcastConstants` | src/txrebroadcast.cpp:15-20 | the rebroadcast weight limit is 3/4 of the 4,000,000 block weight, i.e. 3,000,000; the minimum transaction age is 30 minutes (1800 s) |
| `TxRebroadcast.IntervalConstants` | src/txrebroadcast.h:12-16 | the rebroadcast interval is 1 hour (3600 s) and the fee-rate cache interval 20 minutes (1200 s) |
| `TxRebroadcast.Lookup` | src/txrebroadcast.cpp:51 | the mempool entry found through the witness-hash index when the flag is set, through the txid index otherwise |
| `TxRebroadcast.TxHash` | src/txrebroadcast.cpp:48 | the identifier used for a template transaction: its witness hash when the flag is set, its txid otherwise |
| `TxRebroadcast.TruncDiv` | src/txrebroadcast.cpp:55 | the quotient used for the fee rate truncates toward zero, as C++ integer division does: for a non-negative dividend, quotient times divisor is at most the dividend and within one divisor of it; for a negative dividend, at least the dividend and within one divisor of it |
| `TxRebroadcast.FeeRate` | src/txrebroadcast.cpp:55 | the rate of `CFeeRate(fee, weight)` is the fee per 1000 weight units with the fraction discarded toward zero, bounded as for `TruncDiv` by `fee * 1000`; a weight of zero gives a rate of zero |
| `TxRebroadcast.Passes` | src/txrebroadcast.cpp:51-56 | a template transaction is kept when the index the flag selects still finds it in the mempool and its fee rate over its weight is strictly above the cached rate |
| `TxRebroadcast.RebroadcastFilter` | src/txrebroadcast.cpp:46-60 | the filter returns no more identifiers than the template has transactions |
| `TxRebroadcast.FilterSelectsPassing` | src/txrebroadcast.cpp:47-60 | the result is the template's passing transactions, each returned under the id the flag selects, in template order: every kept position passes (still in the mempool, fee rate strictly above the cached rate) and every passing position is kept |
| `TxRebroadcast.FilterMembership` | src/txrebroadcast.cpp:47-59 | an identifier is returned if and only if some template transaction with that identifier passes the filter |
| `TxRebroadcast.FilterResultsInMempool` | src/txrebroadcast.cpp:48-59 | every returned identifier is found in the mempool through the index the flag selects; for some template transaction with that id, its fee rate over that transaction's weight is strictly above the cached rate |
| `TxRebroadcast.RebroadcastOptions` | src/txrebroadcast.cpp:26-28 | the assembler is asked for at most 3,000,000 weight and only transactions that entered the mempool at or before `now` minus 1800 seconds |
| `TxRebroadcast.RecentTransactionsNotRebroadcast` | src/txrebroadcast.cpp:26-28 | for a template built under the rebroadcast options at `now`, every returned transaction entered the mempool at least 30 minutes before `now` |
| `TxRebroadcast.RecencyScenario` | src/test/txrebroadcast_tests.cpp:30-44 | an old and a new transaction 35 minutes apart and a fresh calculator (cached rate 0): the assembler's premise of honouring the rebroadcast options is what keeps the new one out of the template; for any template without repeats made of the two and of entries not in the mempool (such as the coinbase at the front of a block), the result is exactly `[txid of the old one]` when the template holds it and empty otherwise, so a template holding the coinbase and the old transaction gives the test's single candidate |
| `TxRebroadcast.TxMemPool.constructor` | src/txrebroadcast.h:49 | the mempool the calculator refers to, with its txid index and its witness-hash index; the new object's contents are the given indexes |
| `TxRebroadcast.TxRebroadcastCalculator.constructor` | src/txrebroadcast.h:21-30 | a fresh calculator holds the given mempool, a next-refresh time of 0, a cached fee rate of 0 and no tip |
| `TxRebroadcast.TxRebroadcastCalculator.GetRebroadcastTransactions` | src/txrebroadcast.cpp:22-64 | the assembler is called on the mempool with `RebroadcastOptions(now)`; the loop returns exactly `RebroadcastFilter` of that template, the mempool and the cached fee rate; when the template honours those options, every returned id is in the mempool and entered it at least 30 minutes before `now` |
| `TxRebroadcast.TxRebroadcastCalculator.CacheMinRebroadcastFee` | src/txrebroadcast.cpp:66-78 | the next refresh is `now` plus 20 minutes, the stored tip is the given tip, and the cached rate is the given minimum fee rate; the mempool is unchanged |

## Left out

- The header's "entries are cleared out from m_announced_txs as current_time advances" (src/net_processing.h:193) is not modelled. The body of `GetAnnouncedTxsToRequest` is in `net_processing.cpp`, which is not part of this model, and the header does not say whether it removes what it returns, so the model treats it as a query.
- The choice of request time (now for outbound peers, now plus 2 seconds for inbound peers) and the random requeue delay are made by callers in `net_processing.cpp`. That file is not part of this model.
- `g_already_asked_for` and its coordination across peers are not modelled. They live in `net_processing.cpp`, which is not part of this model.
- `TX_EXPIRY_INTERVAL` is defined in `net_processing.cpp`, outside this model; the expiry sweep takes the expiry timestamps as given.
- `GetAnnouncedTxsToRequest` fills a vector the caller passes in (src/net_processing.h:236). The model returns a fresh sequence, which is the same as being passed an empty vector, as the unit test does; whether the C++ appends to a non-empty vector is not modelled.
- Txids are naturals compared with `<`. `uint256` compares its bytes with `memcmp`. Only the fact that the order is a strict total order matters here.
- 64-bit wrap-around of microsecond, second and fee arithmetic is not modelled. Integers are unbounded.
- `BlockAssembler::CreateNewBlock` and `minTxFeeRate()` are foreign calls. The assembler is a function parameter of `GetRebroadcastTransactions` and the minimum fee rate an input of `CacheMinRebroadcastFee`. The model states what the assembler is asked for, `RebroadcastOptions`; that it obeys those options is the premise `HonoursOptions` of the recency results, and which transactions it picks (highest fee-rate packages first) is not modelled.
- `TX_REBROADCAST_INTERVAL` (1 hour) and `REBROADCAST_FEE_RATE_CACHE_INTERVAL` (20 minutes) are constants. The timers that use them belong to the callers, except the cache refresh time, which `CacheMinRebroadcastFee` sets.
- `m_tip_at_cache_time` is left uninitialised by the C++ constructor. Here it starts as no tip, the same value as a null tip pointer.
- The debug loop that prints mempool entry times, all `LogPrint` calls, and the `m_mempool.cs` locks are not modelled. They are logging and concurrency.
- `PeerLogicValidation`, `RelayTransaction`, `GetNodeStateStats` and the address-relay, getaddr and unbroadcast behaviour exercised by the Python functional tests are not modelled. Their implementations are not part of this model, and they involve network I/O and locks.
