/**
  Histories of the cache. Every operation holds the cache's lock for its
  whole duration, so any concurrent use of one cache behaves like some
  sequence of whole operations; this module runs such sequences and says,
  key by key, what they leave behind.
 */
module CacheTrace {
  import opened Wrappers
  import opened PokeCache

  /** One critical section: an `Add` at instant `at`, a `Get`, or a reaper sweep at `at`. */
  datatype Op = AddOp(key: string, val: Bytes, at: Instant) | GetOp(key: string) | SweepOp(at: Instant)

  function Step(c: Cache, op: Op): Cache
  {
    match op
    case AddOp(key, val, at) => Add(c, key, val, at)
    case GetOp(_) => c
    case SweepOp(at) => Reap(c, at)
  }

  /** The cache after the operations, in order. The interval never changes. */
  function Run(c: Cache, ops: seq<Op>): (r: Cache)
    ensures r.interval == c.interval
    decreases |ops|
  {
    if |ops| == 0 then c else Run(Step(c, ops[0]), ops[1..])
  }

  predicate AddsTo(op: Op, key: string)
  {
    op.AddOp? && op.key == key
  }

  /** No operation from index `from` on adds to `key`. */
  predicate NoAddFrom(ops: seq<Op>, key: string, from: nat)
  {
    forall j :: from <= j < |ops| ==> !AddsTo(ops[j], key)
  }

  /** No sweep from index `from` on finds `e` expired. */
  predicate SurvivesFrom(e: Entry, ops: seq<Op>, from: nat, interval: Duration)
  {
    forall j :: from <= j < |ops| && ops[j].SweepOp? ==> !Expired(e, ops[j].at, interval)
  }

  /**
    What a history promises about one key: `e` was put there by the last
    `Add` to the key (or was there from the start, when no `Add` touched the
    key), and no later sweep found it expired.
   */
  ghost predicate Holds(c: Cache, ops: seq<Op>, key: string, e: Entry)
  {
    || (exists i :: 0 <= i < |ops| && ops[i] == AddOp(key, e.val, e.createdAt)
                    && NoAddFrom(ops, key, i + 1) && SurvivesFrom(e, ops, i + 1, c.interval))
    || (NoAddFrom(ops, key, 0) && key in c.entries && c.entries[key] == e
        && SurvivesFrom(e, ops, 0, c.interval))
  }

  /** The promise for a history is the promise for its tail, started from the cache after its first step. */
  lemma HoldsStep(c: Cache, ops: seq<Op>, key: string, e: Entry)
    requires |ops| > 0
    ensures Holds(c, ops, key, e) <==> Holds(Step(c, ops[0]), ops[1..], key, e)
  {
  }

  /**
    After any history, `key` holds `e` exactly when the history promises it:
    last write wins, reads change nothing, and a sweep removes the entry it
    finds expired.
   */
  lemma {:induction false} RunMatchesHistory(c: Cache, ops: seq<Op>, key: string, e: Entry)
    ensures (key in Run(c, ops).entries && Run(c, ops).entries[key] == e) <==> Holds(c, ops, key, e)
    decreases |ops|
  {
    if |ops| > 0 {
      RunMatchesHistory(Step(c, ops[0]), ops[1..], key, e);
      HoldsStep(c, ops, key, e);
    }
  }

  /** Running one more operation is one more step on the result. */
  lemma {:induction false} RunAppend(c: Cache, ops: seq<Op>, op: Op)
    ensures Run(c, ops + [op]) == Step(Run(c, ops), op)
    decreases |ops|
  {
    if |ops| == 0 {
      assert ops + [op] == [op];
    } else {
      assert (ops + [op])[1..] == ops[1..] + [op];
      RunAppend(Step(c, ops[0]), ops[1..], op);
    }
  }

  /** Whatever came before, the instant a sweep completes no entry left is older than the interval. */
  lemma SweptHistorySettled(c: Cache, ops: seq<Op>, now: Instant)
    ensures Settled(Run(c, ops + [SweepOp(now)]), now)
  {
    RunAppend(c, ops, SweepOp(now));
  }
}
