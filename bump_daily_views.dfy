/**
 * components/analytics/BumpDailyViews.tsx: counts one view per manga per day.
 * Each visit first retries the bumps queued under `bump_daily_queue_v1`, then
 * bumps the current manga unless the per-session once-flag is set. A bump is
 * tried up to three times; one that keeps failing is queued.
 *
 * The remote call is an oracle: `rpc(j, t)` is whether attempt `t` for the
 * `j`-th queued item succeeds, and `rpc(t)` the same for the current manga.
 */
module BumpDailyViews {
  import opened Wrappers
  import opened Seqs
  import opened BrowserStorage

  /** The queue keeps at most this many items. */
  const QueueCap: nat := 200

  /** Attempts per bump. */
  const MaxAttempts: nat := 3

  /** `saveQueue(q)`: only the first 200 items are stored. */
  method SaveQueue(st: LocalStorage, q: seq<QueueItem>)
    modifies st`bumpQueue
    ensures st.bumpQueue == Value(Take(q, QueueCap))
  {
    st.bumpQueue := Value(Take(q, QueueCap));
  }

  /** Some of the three attempts for queued item `j` succeeds. */
  predicate Delivered(rpc: (nat, nat) -> bool, j: nat) {
    rpc(j, 0) || rpc(j, 1) || rpc(j, 2)
  }

  /** The items of `q` whose every attempt failed, in queue order. */
  function Remaining(q: seq<QueueItem>, rpc: (nat, nat) -> bool): seq<QueueItem> {
    if q == [] then []
    else
      var n := |q| - 1;
      Remaining(q[..n], rpc) + (if Delivered(rpc, n) then [] else [q[n]])
  }

  /** What stays queued is the queue with some items left out, in queue order. */
  lemma {:induction false} RemainingSubseq(q: seq<QueueItem>, rpc: (nat, nat) -> bool)
    ensures IsSubseq(Remaining(q, rpc), q)
  {
    if q != [] {
      var n := |q| - 1;
      var front := q[..n];
      var r := Remaining(front, rpc);
      RemainingSubseq(front, rpc);
      assert q == front + [q[n]];
      SubseqSnoc(r, front, q[n]);
      if Delivered(rpc, n) {
        assert Remaining(q, rpc) == r;
      } else {
        assert Remaining(q, rpc) == r + [q[n]];
      }
    }
  }

  /** Every item that was never delivered stays queued, and only those do. */
  lemma {:induction false} RemainingExactly(q: seq<QueueItem>, rpc: (nat, nat) -> bool)
    ensures forall j :: 0 <= j < |q| && !Delivered(rpc, j) ==> q[j] in Remaining(q, rpc)
    ensures forall x :: x in Remaining(q, rpc) ==> exists j :: 0 <= j < |q| && q[j] == x && !Delivered(rpc, j)
  {
    if q != [] {
      var n := |q| - 1;
      var front := q[..n];
      RemainingExactly(front, rpc);
      forall j | 0 <= j < |q| && !Delivered(rpc, j) ensures q[j] in Remaining(q, rpc) {
        if j < n { assert q[j] == front[j]; }
      }
      forall x | x in Remaining(q, rpc) ensures exists j :: 0 <= j < |q| && q[j] == x && !Delivered(rpc, j) {
        if x in Remaining(front, rpc) {
          var j :| 0 <= j < |front| && front[j] == x && !Delivered(rpc, j);
          assert q[j] == x;
        } else {
          assert q[n] == x && !Delivered(rpc, n);
        }
      }
    }
  }

  /** The queue after a flush; an empty queue is not written. */
  function AfterFlush(s: Stored<seq<QueueItem>>, rpc: (nat, nat) -> bool): Stored<seq<QueueItem>> {
    if ArrayOrEmpty(s) == [] then s else Value(Take(Remaining(ArrayOrEmpty(s), rpc), QueueCap))
  }

  /** The pauses after the first and second failed attempt: 300·(attempt+1) ms. */
  const Pauses: seq<nat> := [300, 600]

  /** The pause after failed attempt `k` extends the pauses before it. */
  lemma PauseStep(k: nat)
    requires k < 2
    ensures Pauses[..k + 1] == Pauses[..k] + [300 * (k + 1)]
  {
  }

  /** The attempts the retry loop makes for queued item `j`: up to the first success, at most three. */
  function ItemAttempts(rpc: (nat, nat) -> bool, j: nat): (k: nat)
    ensures 1 <= k <= MaxAttempts
    ensures Delivered(rpc, j) ==> rpc(j, k - 1) && forall t :: 0 <= t < k - 1 ==> !rpc(j, t)
    ensures !Delivered(rpc, j) ==> k == MaxAttempts
  {
    if rpc(j, 0) then 1 else if rpc(j, 1) then 2 else 3
  }

  /** The attempts (j, 0), ..., (j, k-1), in order. */
  function Tries(j: nat, k: nat): (r: seq<(nat, nat)>)
    ensures |r| == k && forall t :: 0 <= t < k ==> r[t] == (j, t)
  {
    if k == 0 then [] else Tries(j, k - 1) + [(j, k - 1)]
  }

  /** Every attempt a flush of the first `n` items makes, item after item. */
  function FlushCalls(n: nat, rpc: (nat, nat) -> bool): seq<(nat, nat)> {
    if n == 0 then [] else FlushCalls(n - 1, rpc) + Tries(n - 1, ItemAttempts(rpc, n - 1))
  }

  /** Every pause a flush of the first `n` items makes: one after each failure but the third. */
  function FlushWaits(n: nat, rpc: (nat, nat) -> bool): seq<nat> {
    if n == 0 then [] else FlushWaits(n - 1, rpc) + Pauses[..ItemAttempts(rpc, n - 1) - 1]
  }

  /** Attempt `c` comes before attempt `d`: an earlier item, or the same item and an earlier try. */
  predicate Before(c: (nat, nat), d: (nat, nat)) {
    c.0 < d.0 || (c.0 == d.0 && c.1 < d.1)
  }

  /**
   * A flush tries item `j` exactly at attempts 0 .. ItemAttempts(rpc, j)-1,
   * and makes the attempts in order, each once.
   */
  lemma {:induction false} FlushCallsFacts(n: nat, rpc: (nat, nat) -> bool)
    ensures forall c :: c in FlushCalls(n, rpc) <==> c.0 < n && c.1 < ItemAttempts(rpc, c.0)
    ensures forall a, b :: 0 <= a < b < |FlushCalls(n, rpc)| ==> Before(FlushCalls(n, rpc)[a], FlushCalls(n, rpc)[b])
  {
    if n > 0 {
      var front, last := FlushCalls(n - 1, rpc), Tries(n - 1, ItemAttempts(rpc, n - 1));
      var all := FlushCalls(n, rpc);
      FlushCallsFacts(n - 1, rpc);
      assert all == front + last;
      forall c: (nat, nat) ensures c in all <==> c.0 < n && c.1 < ItemAttempts(rpc, c.0) {
        if c.0 == n - 1 && c.1 < ItemAttempts(rpc, c.0) {
          assert last[c.1] == c;
        }
      }
      forall a, b | 0 <= a < b < |all| ensures Before(all[a], all[b]) {
        if b < |front| {
          assert all[a] == front[a] && all[b] == front[b];
        } else if a < |front| {
          assert all[a] == front[a] && front[a] in front;
          assert all[b] == last[b - |front|];
        } else {
          assert all[a] == last[a - |front|] && all[b] == last[b - |front|];
        }
      }
    }
  }

  /** The `callRPC` payload: `p_date` only when a truthy date is passed. */
  datatype RpcArgs = RpcArgs(mangaId: int, date: Option<string>)

  function CallArgs(mangaId: int, date: Option<string>): (a: RpcArgs)
    ensures a.mangaId == mangaId
    ensures a.date.Some? <==> TruthyStr(date)
    ensures a.date.Some? ==> a.date == date
  {
    RpcArgs(mangaId, if TruthyStr(date) then date else None)
  }

  /** The day the database counts a call for: `p_date`, else its own current day. */
  function CountedDay(a: RpcArgs, callDay: string): string {
    if a.date.Some? then a.date.value else callDay
  }

  /** The flush as written: `callRPC(item.mangaId)`, the queued date is not passed. */
  function FlushArgsAsWritten(item: QueueItem): (a: RpcArgs)
    ensures a.mangaId == item.mangaId && a.date.None?
  {
    CallArgs(item.mangaId, None)
  }

  /** The flush passing the date the item was queued for. */
  function FlushArgs(item: QueueItem): (a: RpcArgs)
    ensures a.mangaId == item.mangaId
    ensures item.date != "" ==> a.date == Some(item.date)
  {
    CallArgs(item.mangaId, Some(item.date))
  }

  /**
   * A view queued on one day and flushed on a later one is counted, as
   * written, on the day of the flush; passing the queued date counts it on
   * the day it happened.
   */
  lemma FlushDropsDate(item: QueueItem, callDay: string)
    requires item.date != "" && item.date != callDay
    ensures CountedDay(FlushArgsAsWritten(item), callDay) == callDay != item.date
    ensures CountedDay(FlushArgs(item), callDay) == item.date
  {
  }

  /**
   * The inner loop of `flushQueue` for the `j`-th queued item: up to three
   * attempts, stopping at the first success, with a pause after each failure
   * but the third. `ok` is whether the item was delivered.
   */
  method RetryItem(rpc: (nat, nat) -> bool, j: nat, item: QueueItem)
    returns (ok: bool, tries: seq<(nat, nat)>, args: seq<RpcArgs>, pauses: seq<nat>)
    ensures ok <==> Delivered(rpc, j)
    ensures tries == Tries(j, ItemAttempts(rpc, j))
    ensures pauses == Pauses[..ItemAttempts(rpc, j) - 1]
    ensures |args| == |tries| && forall k :: 0 <= k < |args| ==> args[k] == FlushArgs(item)
  {
    ok, tries, args, pauses := false, [], [], [];
    var attempt := 0;
    while attempt < MaxAttempts && !ok
      invariant 0 <= attempt <= MaxAttempts
      invariant ok ==> attempt >= 1 && rpc(j, attempt - 1) && forall t :: 0 <= t < attempt - 1 ==> !rpc(j, t)
      invariant !ok ==> forall t :: 0 <= t < attempt ==> !rpc(j, t)
      invariant tries == Tries(j, attempt)
      invariant |pauses| == (if ok then attempt - 1 else Min(attempt, 2)) && pauses == Pauses[..|pauses|]
      invariant |args| == attempt && forall k :: 0 <= k < |args| ==> args[k] == FlushArgs(item)
    {
      tries := tries + [(j, attempt)];
      args := args + [FlushArgs(item)];       // callRPC(item.mangaId), see FlushArgsAsWritten
      if rpc(j, attempt) {
        ok := true;
      } else if attempt < 2 {
        PauseStep(attempt);
        pauses := pauses + [300 * (attempt + 1)];
      }
      attempt := attempt + 1;
    }
    assert ok <==> Delivered(rpc, j);
    assert attempt == ItemAttempts(rpc, j);
  }

  /**
   * `flushQueue()`: read the queue, try each item up to three times with a
   * pause of 300·(attempt+1) ms after a failure that is not the last, and
   * store the items that were never delivered. An empty queue writes nothing.
   * `calls` lists each attempt as (item index, attempt), `sent` the payload
   * of each, `waits` each pause.
   */
  method FlushQueue(st: LocalStorage, rpc: (nat, nat) -> bool)
    returns (calls: seq<(nat, nat)>, sent: seq<RpcArgs>, waits: seq<nat>)
    modifies st`bumpQueue
    ensures st.bumpQueue == AfterFlush(old(st.bumpQueue), rpc)
    ensures calls == FlushCalls(|ArrayOrEmpty(old(st.bumpQueue))|, rpc)
    ensures waits == FlushWaits(|ArrayOrEmpty(old(st.bumpQueue))|, rpc)
    ensures |sent| == |calls| && forall k :: 0 <= k < |calls| ==>
      calls[k].0 < |ArrayOrEmpty(old(st.bumpQueue))| && sent[k] == FlushArgs(ArrayOrEmpty(old(st.bumpQueue))[calls[k].0])
  {
    calls, sent, waits := [], [], [];
    var q := ArrayOrEmpty(st.bumpQueue);
    if |q| == 0 {
      return;
    }
    var remain: seq<QueueItem> := [];
    var j := 0;
    while j < |q|
      invariant 0 <= j <= |q|
      invariant remain == Remaining(q[..j], rpc)
      invariant calls == FlushCalls(j, rpc) && waits == FlushWaits(j, rpc)
      invariant |sent| == |calls| && forall k :: 0 <= k < |calls| ==> calls[k].0 < j && sent[k] == FlushArgs(q[calls[k].0])
    {
      var ok, tries, args, pauses := RetryItem(rpc, j, q[j]);
      calls, sent, waits := calls + tries, sent + args, waits + pauses;
      assert q[..j + 1][..j] == q[..j];
      if !ok {
        remain := remain + [q[j]];        // remain.push(item)
      }
      j := j + 1;
    }
    assert q[..j] == q;
    SaveQueue(st, remain);
  }

  /** Bumps only a manga id that is truthy, and only in the browser. */
  predicate ShouldBump(mangaId: int, hasWindow: bool) {
    mangaId != 0 && hasWindow
  }

  /** Some attempt that ran (`live` of them can run before unmount) succeeded. */
  predicate Succeeded(rpc: nat -> bool, live: nat) {
    (0 < live && rpc(0)) || (1 < live && rpc(1)) || (2 < live && rpc(2))
  }

  /** The number of calls the bump loop makes. */
  function Attempts(rpc: nat -> bool, live: nat): (n: nat)
    ensures n <= MaxAttempts && n <= live
    ensures Succeeded(rpc, live) ==> n >= 1 && rpc(n - 1) && forall t :: 0 <= t < n - 1 ==> !rpc(t)
    ensures !Succeeded(rpc, live) ==> n == Min(MaxAttempts, live)
  {
    if live == 0 then 0
    else if rpc(0) then 1
    else if live == 1 then 1
    else if rpc(1) then 2
    else if live == 2 then 2
    else 3
  }

  /** The item is queued after the third failed attempt. */
  predicate Deferred(rpc: nat -> bool, live: nat) {
    !Succeeded(rpc, live) && live >= MaxAttempts
  }

  /**
   * The mount effect for `mangaId` on day `today`. `force` is `?forceBump=1`;
   * `live` is how many attempts start before the page goes away (the loop
   * checks `cancelled` before each one). The flush is taken to finish before
   * the bump starts. The once-flag is set only on success, and the manga is
   * queued only after the third failure.
   */
  method Bump(st: LocalStorage, session: SessionStorage, mangaId: int, hasWindow: bool, today: string,
              force: bool, flushRpc: (nat, nat) -> bool, rpc: nat -> bool, live: nat)
    returns (calls: nat, waits: seq<nat>)
    modifies st`bumpQueue, session`bumped
    ensures !ShouldBump(mangaId, hasWindow) ==>
      calls == 0 && st.bumpQueue == old(st.bumpQueue) && session.bumped == old(session.bumped)
    ensures ShouldBump(mangaId, hasWindow) && !force && (mangaId, today) in old(session.bumped) ==>
      calls == 0 && st.bumpQueue == AfterFlush(old(st.bumpQueue), flushRpc) && session.bumped == old(session.bumped)
    ensures ShouldBump(mangaId, hasWindow) && (force || (mangaId, today) !in old(session.bumped)) ==>
      && calls == Attempts(rpc, live)
      && |waits| == (if Succeeded(rpc, live) then calls - 1 else Min(calls, 2))
      && waits == Pauses[..|waits|]
      && session.bumped == (if Succeeded(rpc, live) then old(session.bumped) + {(mangaId, today)} else old(session.bumped))
      && st.bumpQueue == if Deferred(rpc, live)
         then Value(Take(ArrayOrEmpty(AfterFlush(old(st.bumpQueue), flushRpc)) + [QueueItem(mangaId, today)], QueueCap))
         else AfterFlush(old(st.bumpQueue), flushRpc)
  {
    calls, waits := 0, [];
    if !ShouldBump(mangaId, hasWindow) {
      return;
    }
    var _, _, _ := FlushQueue(st, flushRpc);
    if !force && (mangaId, today) in session.bumped {
      return;
    }
    calls, waits := RetryBump(st, session, mangaId, today, rpc, live);
  }

  /**
   * The async retry loop of the effect, after the flush: up to three
   * attempts while the page is there (`live` of them can start), the
   * once-flag set on success, and the manga queued after the third failure.
   */
  method RetryBump(st: LocalStorage, session: SessionStorage, mangaId: int, today: string, rpc: nat -> bool, live: nat)
    returns (calls: nat, waits: seq<nat>)
    modifies st`bumpQueue, session`bumped
    ensures calls == Attempts(rpc, live)
    ensures |waits| == (if Succeeded(rpc, live) then calls - 1 else Min(calls, 2))
    ensures waits == Pauses[..|waits|]
    ensures session.bumped == (if Succeeded(rpc, live) then old(session.bumped) + {(mangaId, today)} else old(session.bumped))
    ensures st.bumpQueue == if Deferred(rpc, live)
      then Value(Take(ArrayOrEmpty(old(st.bumpQueue)) + [QueueItem(mangaId, today)], QueueCap))
      else old(st.bumpQueue)
  {
    calls, waits := 0, [];
    var done := false;
    var attempt := 0;
    while attempt < MaxAttempts && attempt < live && !done
      invariant 0 <= attempt <= MaxAttempts && attempt <= live
      invariant calls == attempt && !done
      invariant forall t :: 0 <= t < attempt ==> !rpc(t)
      invariant session.bumped == old(session.bumped)
      invariant |waits| == Min(attempt, 2) && waits == Pauses[..|waits|]
      invariant st.bumpQueue == if attempt == MaxAttempts
        then Value(Take(ArrayOrEmpty(old(st.bumpQueue)) + [QueueItem(mangaId, today)], QueueCap))
        else old(st.bumpQueue)
    {
      calls := calls + 1;
      if rpc(attempt) {
        session.bumped := session.bumped + {(mangaId, today)};   // the once-flag, set on success only
        done := true;
        break;
      }
      if attempt < 2 {
        PauseStep(attempt);
        waits := waits + [300 * (attempt + 1)];
      } else {
        var q := ArrayOrEmpty(st.bumpQueue);
        q := q + [QueueItem(mangaId, today)];     // q.push({ mangaId, date: today })
        SaveQueue(st, q);
      }
      attempt := attempt + 1;
    }
  }

  /**
   * The queueing at the end of the bump loop: the item is added after what the
   * queue holds. When the queue is already full the cut to 200 drops it, so
   * that bump is lost.
   */
  lemma EnqueueWhenFull(q: seq<QueueItem>, item: QueueItem)
    ensures |q| < QueueCap ==> Take(q + [item], QueueCap) == q + [item]
    ensures |q| >= QueueCap ==> Take(q + [item], QueueCap) == q[..QueueCap]
  {
    var t := Take(q + [item], QueueCap);
    if |q| >= QueueCap {
      assert t == (q + [item])[..QueueCap];
      assert (q + [item])[..QueueCap] == q[..QueueCap];
    }
  }
}
