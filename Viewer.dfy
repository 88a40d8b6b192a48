/**
 * The per-viewer stream loop shared by the socket handler
 * (`server/src/unix/mod.rs`) and the web route (`server/src/axum_pages/mod.rs`).
 * Each pass of the loop reads the shared cache, builds a multipart chunk (or
 * reuses the previous one when the read lock is not acquired in time), and
 * sends it unless the producer has asked viewers to skip; while skipping, a
 * viewer with the dual-final-frame setting gets one more frame per skip run.
 *
 * Everything the loop asks of its surroundings in one pass is an input: whether
 * a second has gone by, whether the lock came within the timeout, the cache as
 * read, the formatted timestamp, whether the write and flush succeed, and
 * whether the registry still knows the viewer. What it does is an `Effect`: the
 * frame rate it reports, the chunk it writes, and whether the loop goes on.
 */
module Viewer {
  import opened Wrappers
  import opened Bytes
  import opened Http
  import opened Client

  /** Which of the two loops: the socket one writes and flushes; the web one sends on a channel. */
  datatype Variant = Unix | Axum

  /** The four per-viewer flags `get_client_settings` yields. */
  datatype Settings = Settings(dualFinalFrame: bool, advanceHeaders: bool, extraHeaders: bool, zeroData: bool)

  /** The settings the loop runs with: those found, or all four false when the lookup fails. */
  function SettingsOrDefault(found: Option<Settings>): (s: Settings)
    ensures found.Some? ==> s == found.value
    ensures found.None? ==> !s.dualFinalFrame && !s.advanceHeaders && !s.extraHeaders && !s.zeroData
  {
    match found
    case Some(settings) => settings
    case None => Settings(false, false, false, false)
  }

  /** What a pass sees of the shared cache: the frame and the producer's skip flag. */
  datatype Cached = Cached(frame: Option<seq<byte>>, skip: bool)

  /** Everything one pass takes from outside the loop. */
  datatype Pass = Pass(
    second: bool,        // more than a second since the last report
    acquired: bool,      // the read lock came within the timeout
    cache: Cached,
    timestamp: string,   // the formatted `X-Timestamp`
    writeOk: bool,
    flushOk: bool,
    clientFound: bool)   // `get_client_from_header` finds the viewer

  /** The loop's own variables. */
  datatype State = State(prev: Option<seq<byte>>, first: bool, skip: bool, dfSent: bool, fps: nat)

  const START: State := State(None, true, false, false, 0)

  /** `Panic` is an `unwrap` of a missing frame: the task ends without its teardown. */
  datatype Outcome = Continue | Break | Panic

  /** The fps reported to the registry, the chunk written, and how the pass ends. */
  datatype Effect = Effect(report: Option<nat>, write: Option<seq<byte>>, outcome: Outcome)

  /** The chunk of the first pass: always closed by an empty line. */
  function FirstChunk(cfg: Settings, img: seq<byte>, timestamp: string): seq<byte> {
    if cfg.advanceHeaders then PlainPart(img) else TimedPart(img, timestamp)
  }

  /** The chunk of later passes: with advanced headers, the open form without the empty line. */
  function LaterChunk(cfg: Settings, img: seq<byte>, timestamp: string): seq<byte> {
    if cfg.advanceHeaders then OpenPart(img) else TimedPart(img, timestamp)
  }

  /** One pass of the loop from state `st`. */
  function Step(v: Variant, cfg: Settings, st: State, p: Pass): (State, Effect) {
    var report := if p.second then Some(st.fps) else None;
    var fps := (if p.second then 0 else st.fps) + 1;
    if st.prev.None? then
      var img := if p.cache.frame.Some? then p.cache.frame.value else [];
      var chunk := FirstChunk(cfg, img, p.timestamp);
      Sent(Send(v, cfg, p, st.(prev := Some(chunk), fps := fps), chunk), report)
    else if p.acquired then
      if !p.cache.skip then
        if p.cache.frame.None? then (st.(skip := false, fps := fps), Effect(report, None, Panic))
        else
          var chunk := LaterChunk(cfg, p.cache.frame.value, p.timestamp);
          Sent(Send(v, cfg, p, st.(prev := Some(chunk), skip := false, fps := fps), chunk), report)
      else Sent(Send(v, cfg, p, st.(skip := true, fps := fps), []), report)
    else Sent(Send(v, cfg, p, st.(fps := fps), st.prev.value), report)
  }

  function Sent(r: (State, Option<seq<byte>>, Outcome), report: Option<nat>): (State, Effect) {
    (r.0, Effect(report, r.1, r.2))
  }

  /** The second half of a pass: send this pass's frame, the dual final frame, or nothing. */
  function Send(v: Variant, cfg: Settings, p: Pass, st: State, frame: seq<byte>): (r: (State, Option<seq<byte>>, Outcome))
    ensures r.0.prev == st.prev && r.0.skip == st.skip && r.0.fps == st.fps
    ensures r.2 != Panic
  {
    if !st.skip then
      var st1 := st.(dfSent := false);
      if !p.writeOk then (st1, None, Break)
      else if v == Unix && !p.flushOk then (st1, Some(frame), Break)
      else if st1.first then (st1.(first := false), Some(frame), if p.clientFound then Continue else Break)
      else (st1, Some(frame), Continue)
    else if !st.dfSent && cfg.dualFinalFrame && st.prev.Some? then
      var st1 := st.(dfSent := true);
      var out := if v == Unix then st.prev.value else frame;
      if !p.writeOk then (st1, None, Break)
      else if v == Unix && !p.flushOk then (st1, Some(out), Break)
      else (st1, Some(out), Continue)
    else (st, None, Continue)
  }

  /** The effects of the passes from `st`, up to and including the pass that ends the loop. */
  function Trace(v: Variant, cfg: Settings, st: State, passes: seq<Pass>): (effs: seq<Effect>)
    ensures |effs| <= |passes|
    ensures passes != [] ==> |effs| > 0
    decreases |passes|
  {
    if passes == [] then []
    else
      var (next, e) := Step(v, cfg, st, passes[0]);
      [e] + (if e.outcome == Continue then Trace(v, cfg, next, passes[1..]) else [])
  }

  /** How the passes left the loop: `Continue` when it is still running after them. */
  function LastOutcome(effs: seq<Effect>): Outcome {
    if effs == [] then Continue else effs[|effs| - 1].outcome
  }

  /** The chunks the passes wrote, in order. */
  function Written(effs: seq<Effect>): seq<seq<byte>> {
    if effs == [] then [] else (if effs[0].write.Some? then [effs[0].write.value] else []) + Written(effs[1..])
  }

  /** The number of passes that wrote a chunk. */
  function Sends(effs: seq<Effect>): nat {
    |Written(effs)|
  }

  /** Every pass from `st` on leaves the loop's `skip` set. */
  predicate SkipRun(v: Variant, cfg: Settings, st: State, passes: seq<Pass>)
    decreases |passes|
  {
    passes == [] ||
      var (next, e) := Step(v, cfg, st, passes[0]);
      next.skip && (e.outcome == Continue ==> SkipRun(v, cfg, next, passes[1..]))
  }

  // ---------------------------------------------------------------------------
  // The loop, as the source runs it
  // ---------------------------------------------------------------------------

  /** The loop over the passes the surroundings supply; it stops early when a pass ends it. */
  method Session(v: Variant, cfg: Settings, passes: seq<Pass>) returns (effects: seq<Effect>)
    ensures effects == Trace(v, cfg, START, passes)
  {
    var prev: Option<seq<byte>> := None;
    var first := true;
    var skip := false;
    var dfSent := false;
    var fps: nat := 0;
    effects := [];
    var i := 0;
    while i < |passes|
      invariant 0 <= i <= |passes|
      invariant Trace(v, cfg, START, passes) == effects + Trace(v, cfg, State(prev, first, skip, dfSent, fps), passes[i..])
      decreases |passes| - i
    {
      TraceAt(v, cfg, State(prev, first, skip, dfSent, fps), passes, i);
      var e;
      prev, first, skip, dfSent, fps, e := RunPass(v, cfg, prev, first, skip, dfSent, fps, passes[i]);
      AppendAssoc(effects, [e], if e.outcome == Continue then Trace(v, cfg, State(prev, first, skip, dfSent, fps), passes[i + 1..]) else []);
      effects := effects + [e];
      if e.outcome != Continue {
        return;
      }
      i := i + 1;
    }
  }

  lemma AppendAssoc<T>(a: seq<T>, b: seq<T>, c: seq<T>)
    ensures a + (b + c) == (a + b) + c
  {
  }

  lemma TraceAt(v: Variant, cfg: Settings, st: State, passes: seq<Pass>, i: nat)
    requires i < |passes|
    ensures Trace(v, cfg, st, passes[i..]) ==
      var (next, e) := Step(v, cfg, st, passes[i]);
      [e] + (if e.outcome == Continue then Trace(v, cfg, next, passes[i + 1..]) else [])
  {
    assert passes[i..][0] == passes[i] && passes[i..][1..] == passes[i + 1..];
  }

  /** One iteration of the loop body over the loop's variables. */
  method RunPass(v: Variant, cfg: Settings, prev: Option<seq<byte>>, first: bool, skip: bool, dfSent: bool, fps: nat, p: Pass)
    returns (prev': Option<seq<byte>>, first': bool, skip': bool, dfSent': bool, fps': nat, e: Effect)
    ensures (State(prev', first', skip', dfSent', fps'), e) == Step(v, cfg, State(prev, first, skip, dfSent, fps), p)
  {
    prev', first', skip', dfSent', fps' := prev, first, skip, dfSent, fps;
    var report: Option<nat> := None;
    if p.second {
      report := Some(fps');
      fps' := 0;
    }
    fps' := fps' + 1;
    var frame: seq<byte> := [];
    if prev'.None? {
      var img := if p.cache.frame.Some? then p.cache.frame.value else [];
      frame := FirstChunk(cfg, img, p.timestamp);
      prev' := Some(frame);
    } else if p.acquired {
      if !p.cache.skip {
        skip' := false;
        if p.cache.frame.None? {
          return prev', first', skip', dfSent', fps', Effect(report, None, Panic);
        }
        frame := LaterChunk(cfg, p.cache.frame.value, p.timestamp);
        prev' := Some(frame);
      } else {
        skip' := true;
      }
    } else {
      frame := prev'.value;
    }
    var write, outcome;
    first', dfSent', write, outcome := SendFrame(v, cfg, p, prev', first', skip', dfSent', fps', frame);
    e := Effect(report, write, outcome);
  }

  /** The second half of a pass: send this pass's frame, the dual final frame, or nothing. */
  method SendFrame(v: Variant, cfg: Settings, p: Pass, prev: Option<seq<byte>>, first: bool, skip: bool, dfSent: bool, fps: nat,
                   frame: seq<byte>)
    returns (first': bool, dfSent': bool, write: Option<seq<byte>>, outcome: Outcome)
    ensures (State(prev, first', skip, dfSent', fps), write, outcome) == Send(v, cfg, p, State(prev, first, skip, dfSent, fps), frame)
  {
    first', dfSent' := first, dfSent;
    if !skip {
      dfSent' := false;
      if !p.writeOk {
        return first', dfSent', None, Break;
      }
      if v == Unix && !p.flushOk {
        return first', dfSent', Some(frame), Break;
      }
      if first' {
        first' := false;
        if !p.clientFound {
          return first', dfSent', Some(frame), Break;
        }
      }
      write, outcome := Some(frame), Continue;
    } else if !dfSent' && cfg.dualFinalFrame && prev.Some? {
      dfSent' := true;
      var out := if v == Unix then prev.value else frame;
      if !p.writeOk {
        return first', dfSent', None, Break;
      }
      if v == Unix && !p.flushOk {
        return first', dfSent', Some(out), Break;
      }
      write, outcome := Some(out), Continue;
    } else {
      write, outcome := None, Continue;
    }
  }

  // ---------------------------------------------------------------------------
  // Properties of one pass
  // ---------------------------------------------------------------------------

  /**
   * The first pass ignores the lock timeout and the skip flag: it takes the
   * cached frame, or an empty payload when there is none, makes the first
   * chunk of it, keeps that chunk as the previous frame and sends it.
   */
  lemma FirstPass(v: Variant, cfg: Settings, p: Pass)
    ensures var img := if p.cache.frame.Some? then p.cache.frame.value else [];
      var chunk := FirstChunk(cfg, img, p.timestamp);
      var (next, e) := Step(v, cfg, START, p);
      next.prev == Some(chunk) && !next.skip && !next.dfSent &&
      e.write == (if p.writeOk then Some(chunk) else None) &&
      (e.outcome == Continue <==> p.writeOk && (v == Unix ==> p.flushOk) && p.clientFound) &&
      (e.outcome == Continue ==> !next.first)
  {
  }

  /**
   * When the lock does not come in time, the previous chunk is sent again and
   * neither it nor `skip` changes.
   */
  lemma TimeoutReusesPrevious(v: Variant, cfg: Settings, st: State, p: Pass)
    requires st.prev.Some? && !p.acquired
    ensures var (next, e) := Step(v, cfg, st, p);
      next.prev == st.prev && next.skip == st.skip &&
      (!st.skip && p.writeOk ==> e.write == st.prev)
  {
  }

  /** The producer's skip flag makes the loop skip and keeps the previous chunk. */
  lemma CacheSkipKeepsPrevious(v: Variant, cfg: Settings, st: State, p: Pass)
    requires st.prev.Some? && p.acquired && p.cache.skip
    ensures var (next, e) := Step(v, cfg, st, p);
      next.skip && next.prev == st.prev && next.first == st.first
  {
  }

  /**
   * A fresh read without skip builds the later chunk of the cached frame,
   * keeps it and clears `skip`; with no frame cached the `unwrap` panics
   * before anything is written.
   */
  lemma FreshRead(v: Variant, cfg: Settings, st: State, p: Pass)
    requires st.prev.Some? && p.acquired && !p.cache.skip
    ensures var (next, e) := Step(v, cfg, st, p);
      (p.cache.frame.None? ==> e.outcome == Panic && e.write.None?) &&
      (p.cache.frame.Some? ==>
        var chunk := LaterChunk(cfg, p.cache.frame.value, p.timestamp);
        next.prev == Some(chunk) && !next.skip && !next.dfSent &&
        e.write == (if p.writeOk then Some(chunk) else None))
  {
  }

  /** A pass that does not skip clears `df_frame_sent`, and a failed write or flush ends the loop. */
  lemma SendingPass(v: Variant, cfg: Settings, st: State, p: Pass)
    requires !Step(v, cfg, st, p).0.skip && Step(v, cfg, st, p).1.outcome != Panic
    ensures var (next, e) := Step(v, cfg, st, p);
      !next.dfSent &&
      (!p.writeOk ==> e.outcome == Break && e.write.None?) &&
      (v == Unix && !p.flushOk ==> e.outcome == Break) &&
      (st.first && !p.clientFound ==> e.outcome == Break)
  {
  }

  /**
   * In the skip branch a dual final frame is sent only with the setting on
   * and only while none has been sent in this run; on the socket it is the
   * previous chunk, on the channel it is this pass's frame: empty after a
   * fresh read, the previous chunk after a timeout.
   */
  lemma DualFinalFrame(v: Variant, cfg: Settings, st: State, p: Pass)
    requires st.prev.Some?
    requires Step(v, cfg, st, p).0.skip && Step(v, cfg, st, p).1.write.Some?
    ensures cfg.dualFinalFrame && !st.dfSent && Step(v, cfg, st, p).0.dfSent
    ensures v == Unix ==> Step(v, cfg, st, p).1.write == st.prev
    ensures v == Axum ==> Step(v, cfg, st, p).1.write == Some(if p.acquired then [] else st.prev.value)
  {
  }

  /** A pass that leaves `skip` set writes only the first dual final frame of its run, and keeps that one recorded. */
  lemma SkipPass(v: Variant, cfg: Settings, st: State, p: Pass)
    requires Step(v, cfg, st, p).0.skip
    ensures var (next, e) := Step(v, cfg, st, p);
      (e.write.Some? ==> next.dfSent && !st.dfSent && cfg.dualFinalFrame) &&
      (st.dfSent ==> next.dfSent)
  {
  }

  /** The reported rate is the number of passes counted since the last report, and counting restarts at one. */
  lemma FpsReport(v: Variant, cfg: Settings, st: State, p: Pass)
    ensures var (next, e) := Step(v, cfg, st, p);
      (e.report.Some? <==> p.second) &&
      (p.second ==> e.report == Some(st.fps) && next.fps == 1) &&
      (!p.second ==> next.fps == st.fps + 1)
  {
  }

  // ---------------------------------------------------------------------------
  // Properties of a run of passes
  // ---------------------------------------------------------------------------

  /**
   * Over a run of passes that all skip, at most one chunk is written; none
   * when the dual final frame was already sent or the setting is off.
   */
  lemma {:induction false} AtMostOneSendPerSkipRun(v: Variant, cfg: Settings, st: State, passes: seq<Pass>)
    requires SkipRun(v, cfg, st, passes)
    ensures Sends(Trace(v, cfg, st, passes)) <= 1
    ensures st.dfSent || !cfg.dualFinalFrame ==> Sends(Trace(v, cfg, st, passes)) == 0
    decreases |passes|
  {
    if passes != [] {
      var (next, e) := Step(v, cfg, st, passes[0]);
      var rest := if e.outcome == Continue then Trace(v, cfg, next, passes[1..]) else [];
      assert Trace(v, cfg, st, passes) == [e] + rest;
      assert ([e] + rest)[1..] == rest;
      assert Sends([e] + rest) == (if e.write.Some? then 1 else 0) + Sends(rest);
      SkipPass(v, cfg, st, passes[0]);
      if e.outcome == Continue {
        AtMostOneSendPerSkipRun(v, cfg, next, passes[1..]);
      }
    }
  }

  /** The loop ends at the first pass whose outcome is not `Continue`, and every earlier pass continued. */
  lemma {:induction false} TraceStopsAtEnd(v: Variant, cfg: Settings, st: State, passes: seq<Pass>)
    decreases |passes|
    ensures forall k :: 0 <= k < |Trace(v, cfg, st, passes)| - 1 ==> Trace(v, cfg, st, passes)[k].outcome == Continue
    ensures |Trace(v, cfg, st, passes)| < |passes| ==> Trace(v, cfg, st, passes)[|Trace(v, cfg, st, passes)| - 1].outcome != Continue
  {
    if passes != [] {
      var (next, e) := Step(v, cfg, st, passes[0]);
      if e.outcome == Continue {
        TraceStopsAtEnd(v, cfg, next, passes[1..]);
        var rest := Trace(v, cfg, next, passes[1..]);
        assert Trace(v, cfg, st, passes) == [e] + rest;
      }
    }
  }

  // ---------------------------------------------------------------------------
  // The registry around a session
  // ---------------------------------------------------------------------------

  /**
   * The registry after a viewer's session: the viewer admitted by
   * `add_client_from_header`, then taken out by `remove_client_from_header`
   * when the loop broke.
   */
  function AfterSession(stats: seq<ClientDetails>, max: nat, line: string, id: string, broke: bool): seq<ClientDetails>
    requires max >= 1
  {
    var added := Admit(stats, max, FromHeader(line, id));
    if broke then RemoveFirst(added, KeyOrDefault(ParseKeyFromHeader(line))) else added
  }

  /**
   * A viewer whose key no other session uses, admitted without eviction,
   * leaves the registry as it found it once its loop breaks; otherwise its
   * session stays filed last.
   */
  lemma SessionDeregisters(stats: seq<ClientDetails>, max: nat, line: string, id: string, broke: bool)
    requires max >= 1 && |stats| < max
    requires !HasKey(stats, KeyOrDefault(ParseKeyFromHeader(line)))
    ensures broke ==> AfterSession(stats, max, line, id, broke) == stats
    ensures !broke ==> AfterSession(stats, max, line, id, broke) == stats + [FromHeader(line, id)]
  {
    var c := FromHeader(line, id);
    assert c.key == KeyOrDefault(ParseKeyFromHeader(line));
    RemoveUndoesAdd(stats, c);
  }
}
