/**
 * The SSE silence watchdog: a response wrapper that reports every chunk received, and a
 * watchdog that, when no data has arrived for longer than `maxSilence`, polls for fresh
 * configuration and closes the SSE client so that it reconnects.
 *
 * Time is an integer clock passed in by the caller; the collaborators (the poll function,
 * the SSE client lookup and the client's close) are reduced to how each call ended, and the
 * calls made are reported as a sequence of effects.
 */
module SseWatchdog {
  import opened Wrappers

  const DEFAULT_CHECK_INTERVAL: int := 60
  const DEFAULT_MAX_SILENCE: int := 120

  type Chunk = seq<bv8>

  // ---------------------------------------------------------------------------
  // Response wrapper
  // ---------------------------------------------------------------------------

  /** The wrapped streaming response: the chunks it delivers and how often it was closed. */
  class Response {
    const chunks: seq<Chunk>
    var closeCalls: nat

    constructor (chunks: seq<Chunk>)
      ensures this.chunks == chunks && closeCalls == 0
    {
      this.chunks := chunks;
      closeCalls := 0;
    }

    method Close()
      modifies this
      ensures closeCalls == old(closeCalls) + 1
    {
      closeCalls := closeCalls + 1;
    }
  }

  /** What iterating the wrapper does, in order: the callback fires, or a chunk is yielded. */
  datatype WrapperEvent = DataReceived | Yielded(chunk: Chunk)

  /** The chunks a trace yields, in order. */
  function YieldedChunks(trace: seq<WrapperEvent>): seq<Chunk>
    decreases |trace|
  {
    if trace == [] then []
    else
      var last := trace[|trace| - 1];
      YieldedChunks(trace[..|trace| - 1]) + (if last.Yielded? then [last.chunk] else [])
  }

  /** How many times the callback fired in a trace. */
  function CallbackCount(trace: seq<WrapperEvent>): nat
    decreases |trace|
  {
    if trace == [] then 0
    else CallbackCount(trace[..|trace| - 1]) + (if trace[|trace| - 1] == DataReceived then 1 else 0)
  }

  lemma YieldedChunksAppend(trace: seq<WrapperEvent>, c: Chunk)
    ensures YieldedChunks(trace + [DataReceived, Yielded(c)]) == YieldedChunks(trace) + [c]
    ensures CallbackCount(trace + [DataReceived, Yielded(c)]) == CallbackCount(trace) + 1
  {
    var t1 := trace + [DataReceived];
    var t2 := trace + [DataReceived, Yielded(c)];
    assert t2[..|t2| - 1] == t1;
    assert t1[..|t1| - 1] == trace;
  }

  /** `WatchdogResponseWrapper`: wraps a response and reports every chunk it delivers. */
  class WatchdogResponseWrapper {
    const response: Response

    constructor (response: Response)
      ensures this.response == response
    {
      this.response := response;
    }

    /**
     * `__iter__`: for each chunk of the response, fires the callback and then yields the
     * chunk unchanged. The yielded chunks are exactly the response's, in order, and the
     * callback fires once per chunk, each time just before that chunk is yielded.
     */
    method Iterate() returns (trace: seq<WrapperEvent>)
      ensures |trace| == 2 * |response.chunks|
      ensures forall k :: 0 <= k < |response.chunks| ==>
        trace[2 * k] == DataReceived && trace[2 * k + 1] == Yielded(response.chunks[k])
      ensures YieldedChunks(trace) == response.chunks
      ensures CallbackCount(trace) == |response.chunks|
    {
      trace := [];
      for n := 0 to |response.chunks|
        invariant |trace| == 2 * n
        invariant forall k :: 0 <= k < n ==>
          trace[2 * k] == DataReceived && trace[2 * k + 1] == Yielded(response.chunks[k])
        invariant YieldedChunks(trace) == response.chunks[..n]
        invariant CallbackCount(trace) == n
      {
        var chunk := response.chunks[n];
        YieldedChunksAppend(trace, chunk);
        assert response.chunks[..n + 1] == response.chunks[..n] + [chunk];
        trace := trace + [DataReceived, Yielded(chunk)];
      }
      assert response.chunks[..|response.chunks|] == response.chunks;
    }

    /** `close`: closes the wrapped response exactly once. */
    method Close()
      modifies response
      ensures response.closeCalls == old(response.closeCalls) + 1
    {
      response.Close();
    }
  }

  // ---------------------------------------------------------------------------
  // Watchdog
  // ---------------------------------------------------------------------------

  /** How a call into a collaborator ended. */
  datatype CallOutcome = Returned | Raised

  /**
   * What `get_sse_client_fn` did: it raised, returned no client (None or a falsy value), or
   * returned a client whose `close` ended as given.
   */
  datatype ClientLookup = LookupRaised | NoClient | Client(close: CallOutcome)

  /** The collaborator calls recovery makes, in order. */
  datatype Effect = PollCalled | ClientRequested | ClientClosed

  /** What one pass of the watchdog loop did. */
  datatype CheckResult = Exited | Waited | Recovered(effects: seq<Effect>)

  /**
   * One wake-up of the loop: the clock reading of the latest `touch` since the previous pass
   * (None when no data arrived; a later touch overwrites an earlier one, so only the latest
   * counts), whether the stop event was set, whether the client reports it is shutting down,
   * the clock reading of the pass, and how the recovery calls would end.
   */
  datatype Wakeup = Wakeup(
    touchedAt: Option<int>, stopSet: bool, shuttingDown: bool, now: int, poll: CallOutcome, lookup: ClientLookup)

  /** The loop ends at a wake-up that finds the stop event set or the client shutting down. */
  predicate ExitsAt(w: Wakeup) {
    w.stopSet || w.shuttingDown
  }

  /** The last activity a pass sees: the latest touch when data arrived since the previous pass. */
  function Seen(last: int, w: Wakeup): int {
    if w.touchedAt.Some? then w.touchedAt.value else last
  }

  /** Recovery fires when the silence strictly exceeds the limit. */
  predicate SilenceExceeded(now: int, lastActivity: int, maxSilence: int) {
    now - lastActivity > maxSilence
  }

  /** `SSEWatchdog`: tracks the time of the last SSE activity. */
  class Watchdog {
    const checkInterval: int
    const maxSilence: int
    var lastActivity: int

    /** The constructor starts the silence timer at the current clock. */
    constructor (now: int, checkInterval: int := DEFAULT_CHECK_INTERVAL, maxSilence: int := DEFAULT_MAX_SILENCE)
      ensures this.checkInterval == checkInterval && this.maxSilence == maxSilence
      ensures lastActivity == now
    {
      this.checkInterval := checkInterval;
      this.maxSilence := maxSilence;
      lastActivity := now;
    }

    /** `touch`: records activity at the current clock. */
    method Touch(now: int)
      modifies this
      ensures lastActivity == now
    {
      lastActivity := now;
    }

    /**
     * `_trigger_recovery`: calls the poll function once, then asks for the current SSE client
     * and closes it when there is one; a failure of the poll, the lookup or the close is
     * swallowed and the remaining steps still run. Finally the silence timer restarts.
     */
    method TriggerRecovery(now: int, poll: CallOutcome, lookup: ClientLookup) returns (effects: seq<Effect>)
      modifies this
      ensures |effects| >= 2 && effects[0] == PollCalled && effects[1] == ClientRequested
      ensures ClientClosed in effects <==> lookup.Client?
      ensures lookup.Client? ==> effects == [PollCalled, ClientRequested, ClientClosed]
      ensures !lookup.Client? ==> effects == [PollCalled, ClientRequested]
      ensures lastActivity == now
    {
      effects := [PollCalled];
      match poll {
        case Returned =>
        case Raised =>
          // the poll failure is logged and recovery goes on
      }
      effects := effects + [ClientRequested];
      match lookup {
        case LookupRaised =>
          // best effort: the lookup failure is swallowed
        case NoClient =>
        case Client(close) =>
          // the close is attempted whatever it ends in; a failure is swallowed
          effects := effects + [ClientClosed];
      }
      lastActivity := now;
    }

    /**
     * One pass of `_run` after a wake-up: stop when the stop event is set or the client is
     * shutting down; otherwise recover exactly when the silence since the last activity
     * strictly exceeds `maxSilence`.
     */
    method Check(w: Wakeup) returns (result: CheckResult)
      modifies this
      ensures result.Exited? <==> ExitsAt(w)
      ensures result.Recovered? <==> !ExitsAt(w) && SilenceExceeded(w.now, old(lastActivity), maxSilence)
      ensures result.Recovered? ==>
        result.effects == [PollCalled, ClientRequested] + (if w.lookup.Client? then [ClientClosed] else [])
      ensures lastActivity == if result.Recovered? then w.now else old(lastActivity)
    {
      if w.stopSet {
        return Exited;
      }
      if w.shuttingDown {
        return Exited;
      }
      var silence := w.now - lastActivity;
      if silence > maxSilence {
        var effects := TriggerRecovery(w.now, w.poll, w.lookup);
        result := Recovered(effects);
      } else {
        result := Waited;
      }
    }

    /**
     * `_run` over a finite sequence of wake-ups, with the reader thread's touches applied
     * before each pass: passes run until one exits. Returns how many wake-ups were handled
     * without exiting and at which of them recovery fired; the exiting wake-up's touch, if
     * any, is still recorded.
     */
    method Run(ws: seq<Wakeup>) returns (handled: nat, recovered: seq<nat>)
      modifies this
      ensures handled == ExitIndex(ws)
      ensures recovered == RecoveryIndices(old(lastActivity), maxSilence, ws[..handled])
      ensures lastActivity ==
        var after := ActivityAfter(old(lastActivity), maxSilence, ws[..handled]);
        if handled < |ws| then Seen(after, ws[handled]) else after
    {
      ghost var start := lastActivity;
      handled := 0;
      recovered := [];
      while handled < |ws|
        invariant handled <= ExitIndex(ws)
        invariant recovered == RecoveryIndices(start, maxSilence, ws[..handled])
        invariant lastActivity == ActivityAfter(start, maxSilence, ws[..handled])
        decreases |ws| - handled
      {
        var w := ws[handled];
        ExitIndexBound(ws, handled);
        if w.touchedAt.Some? {
          Touch(w.touchedAt.value);
        }
        var result := Check(w);
        if result.Exited? {
          break;
        }
        assert ws[..handled + 1][..handled] == ws[..handled];
        assert ws[..handled + 1][handled] == w;
        if result.Recovered? {
          recovered := recovered + [handled];
        }
        handled := handled + 1;
      }
      ExitIndexBound(ws, handled);
    }
  }

  /** The index of the first wake-up that ends the loop, or |ws| when none does. */
  function ExitIndex(ws: seq<Wakeup>): (e: nat)
    ensures e <= |ws|
    ensures forall k :: 0 <= k < e ==> !ExitsAt(ws[k])
    ensures e < |ws| ==> ExitsAt(ws[e])
    decreases |ws|
  {
    if ws == [] then 0
    else if ExitsAt(ws[0]) then 0
    else 1 + ExitIndex(ws[1..])
  }

  lemma ExitIndexBound(ws: seq<Wakeup>, n: nat)
    requires n <= ExitIndex(ws)
    ensures n < |ws| ==> (ExitsAt(ws[n]) <==> n == ExitIndex(ws))
  {
  }

  /** The last activity after the loop handled ws, none of which exited. */
  function ActivityAfter(last: int, maxSilence: int, ws: seq<Wakeup>): int
    decreases |ws|
  {
    if ws == [] then last
    else
      var w := ws[|ws| - 1];
      var seen := Seen(ActivityAfter(last, maxSilence, ws[..|ws| - 1]), w);
      if SilenceExceeded(w.now, seen, maxSilence) then w.now else seen
  }

  /** Whether the k-th of the handled wake-ups ws triggers recovery. */
  predicate RecoversAt(last: int, maxSilence: int, ws: seq<Wakeup>, k: nat)
    requires k < |ws|
  {
    SilenceExceeded(ws[k].now, Seen(ActivityAfter(last, maxSilence, ws[..k]), ws[k]), maxSilence)
  }

  /** The indices of the handled wake-ups ws at which recovery fired, in order. */
  function RecoveryIndices(last: int, maxSilence: int, ws: seq<Wakeup>): seq<nat>
    decreases |ws|
  {
    if ws == [] then []
    else
      var k := |ws| - 1;
      assert ws[..k][..k] == ws[..k];
      RecoveryIndices(last, maxSilence, ws[..k]) + (if RecoversAt(last, maxSilence, ws, k) then [k] else [])
  }

  /** The recovery indices are exactly the handled wake-ups at which the silence exceeded the limit. */
  lemma {:induction false} RecoveryIndicesExactly(last: int, maxSilence: int, ws: seq<Wakeup>, k: nat)
    requires k < |ws|
    ensures k in RecoveryIndices(last, maxSilence, ws) <==> RecoversAt(last, maxSilence, ws, k)
    decreases |ws|
  {
    var n := |ws| - 1;
    var init := ws[..n];
    RecoveryIndicesBelow(last, maxSilence, init);
    if k < n {
      RecoveryIndicesExactly(last, maxSilence, init, k);
      assert init[..k] == ws[..k];
      assert init[k] == ws[k];
    }
  }

  lemma {:induction false} RecoveryIndicesBelow(last: int, maxSilence: int, ws: seq<Wakeup>)
    ensures forall j :: j in RecoveryIndices(last, maxSilence, ws) ==> j < |ws|
    decreases |ws|
  {
    if ws != [] {
      RecoveryIndicesBelow(last, maxSilence, ws[..|ws| - 1]);
    }
  }

  /**
   * The clock never goes backwards: each pass reads the clock no earlier than every earlier
   * pass, and a touch reported at a wake-up happened after every earlier pass.
   */
  predicate ClockMonotone(ws: seq<Wakeup>) {
    forall q, r :: 0 <= q < r < |ws| ==>
      ws[q].now <= ws[r].now && (ws[r].touchedAt.Some? ==> ws[q].now <= ws[r].touchedAt.value)
  }

  /**
   * After a recovery at wake-up j, the last activity never falls back before the clock
   * reading of wake-up j: later passes only move it forward, by a touch or another recovery.
   */
  lemma {:induction false} ActivityAfterRecovery(last: int, maxSilence: int, ws: seq<Wakeup>, j: nat, m: nat)
    requires j < m <= |ws|
    requires ClockMonotone(ws)
    requires RecoversAt(last, maxSilence, ws, j)
    ensures ActivityAfter(last, maxSilence, ws[..m]) >= ws[j].now
    decreases m
  {
    var init := ws[..m][..m - 1];
    assert init == ws[..m - 1];
    assert ws[..m][m - 1] == ws[m - 1];
    if m - 1 > j {
      ActivityAfterRecovery(last, maxSilence, ws, j, m - 1);
    }
  }

  /**
   * Any two recoveries are more than `maxSilence` apart on the clock: a recovery restarts
   * the timer, and touches only move it forward, so the next recovery needs a full silence
   * period again.
   */
  lemma RecoveriesSpaced(last: int, maxSilence: int, ws: seq<Wakeup>, j: nat, k: nat)
    requires j < k < |ws|
    requires ClockMonotone(ws)
    requires RecoversAt(last, maxSilence, ws, j) && RecoversAt(last, maxSilence, ws, k)
    ensures ws[k].now - ws[j].now > maxSilence
  {
    ActivityAfterRecovery(last, maxSilence, ws, j, k);
  }

  /**
   * After a recovery, a wake-up at the same clock reading does not recover again when the
   * limit is not negative: the recovery restarted the timer at that reading.
   */
  lemma NoImmediateRetrigger(last: int, maxSilence: int, ws: seq<Wakeup>, j: nat)
    requires j + 1 < |ws|
    requires ClockMonotone(ws)
    requires RecoversAt(last, maxSilence, ws, j)
    requires ws[j + 1].now == ws[j].now
    requires maxSilence >= 0
    ensures !RecoversAt(last, maxSilence, ws, j + 1)
  {
    ActivityAfterRecovery(last, maxSilence, ws, j, j + 1);
  }

  /** Data arrived within the limit before the pass of every wake-up. */
  predicate TouchedRegularly(maxSilence: int, ws: seq<Wakeup>) {
    forall k :: 0 <= k < |ws| ==> ws[k].touchedAt.Some? && ws[k].now - ws[k].touchedAt.value <= maxSilence
  }

  /** A stream that is touched regularly never triggers recovery, whatever the silence before it. */
  lemma {:induction false} TouchedRegularlyNeverRecovers(last: int, maxSilence: int, ws: seq<Wakeup>)
    requires TouchedRegularly(maxSilence, ws)
    ensures RecoveryIndices(last, maxSilence, ws) == []
    decreases |ws|
  {
    if ws != [] {
      var k := |ws| - 1;
      assert TouchedRegularly(maxSilence, ws[..k]);
      TouchedRegularlyNeverRecovers(last, maxSilence, ws[..k]);
    }
  }

  /** Without data, and while the silence stays within the limit, the timer stays at its start and nothing recovers. */
  lemma {:induction false} QuietStart(last: int, maxSilence: int, ws: seq<Wakeup>, m: nat)
    requires m <= |ws|
    requires forall q :: 0 <= q < m ==> ws[q].touchedAt.None? && ws[q].now - last <= maxSilence
    ensures ActivityAfter(last, maxSilence, ws[..m]) == last
    ensures RecoveryIndices(last, maxSilence, ws[..m]) == []
    decreases m
  {
    if m > 0 {
      QuietStart(last, maxSilence, ws, m - 1);
      assert ws[..m][..m - 1] == ws[..m - 1];
      assert ws[..m][m - 1] == ws[m - 1];
    }
  }

  /**
   * Without data, the first recovery is at the first pass whose clock reading is more than
   * `maxSilence` past the start of the timer.
   */
  lemma SilenceFires(last: int, maxSilence: int, ws: seq<Wakeup>, k: nat)
    requires k < |ws|
    requires forall q :: 0 <= q < k ==> ws[q].touchedAt.None? && ws[q].now - last <= maxSilence
    requires ws[k].touchedAt.None?
    ensures RecoversAt(last, maxSilence, ws, k) <==> ws[k].now - last > maxSilence
  {
    QuietStart(last, maxSilence, ws, k);
  }
}
