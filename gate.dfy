/** The readiness gate of `RichEditor.exec` (RichEditor.java:317-327) as a
    state machine. While the page is not ready, `exec(t)` posts a runnable that
    calls `exec(t)` again after a delay; the wall-clock delay is abstracted to a
    FIFO of pending triggers, and one tick of the main looper runs the oldest
    of them. */
module Gate {

  /** What reaches the page: the page load the constructor starts, a trigger
      loaded by `exec` (`load`, RichEditor.java:303-309), or a script evaluated
      by `requestJSData` with the editor as its result callback
      (RichEditor.java:360-368). */
  datatype PageCall = Open(url: string) | Run(script: string) | Query(script: string)

  /** `isReady`, the calls the page has received so far, and the triggers
      whose runnables are posted but have not run yet, oldest first. */
  datatype GateState = GateState(ready: bool, page: seq<PageCall>, pending: seq<string>)

  /** The page calls of loading `ts` in order. */
  function Runs(ts: seq<string>): (r: seq<PageCall>)
    ensures |r| == |ts|
    decreases |ts|
  {
    if ts == [] then [] else [Run(ts[0])] + Runs(ts[1..])
  }

  /** `exec(trigger)`: load it now when ready, otherwise post it for later. */
  function Exec(g: GateState, t: string): GateState {
    if g.ready then g.(page := g.page + [Run(t)])
    else g.(pending := g.pending + [t])
  }

  /** Consecutive `exec` calls. */
  function ExecAll(g: GateState, ts: seq<string>): GateState
    decreases |ts|
  {
    if ts == [] then g else ExecAll(Exec(g, ts[0]), ts[1..])
  }

  /** Issuing one more trigger after a sequence of them. */
  lemma {:induction false} ExecAllSnoc(g: GateState, ts: seq<string>, t: string)
    ensures ExecAll(g, ts + [t]) == Exec(ExecAll(g, ts), t)
    decreases |ts|
  {
    if ts == [] {
      assert ([] + [t])[1..] == [];
    } else {
      assert (ts + [t])[0] == ts[0] && (ts + [t])[1..] == ts[1..] + [t];
      ExecAllSnoc(Exec(g, ts[0]), ts[1..], t);
    }
  }

  /** One tick of the looper: the oldest posted runnable runs, which is
      `exec` of its trigger again. Nothing happens when nothing is posted. */
  function Tick(g: GateState): GateState {
    if g.pending == [] then g
    else Exec(g.(pending := g.pending[1..]), g.pending[0])
  }

  function Ticks(g: GateState, n: nat): GateState
    decreases n
  {
    if n == 0 then g else Ticks(Tick(g), n - 1)
  }

  /** The events the gate reacts to: an `exec` call, a looper tick, and
      `onPageFinished` setting `isReady`. */
  datatype Step = Issue(trigger: string) | Fire | SetReady(ready: bool)

  function Apply(g: GateState, s: Step): GateState {
    match s
    case Issue(t) => Exec(g, t)
    case Fire => Tick(g)
    case SetReady(b) => g.(ready := b)
  }

  function Trace(g: GateState, steps: seq<Step>): GateState
    decreases |steps|
  {
    if steps == [] then g else Trace(Apply(g, steps[0]), steps[1..])
  }

  /** The triggers a trace issues, in order. */
  function Issued(steps: seq<Step>): seq<string>
    decreases |steps|
  {
    if steps == [] then []
    else (if steps[0].Issue? then [steps[0].trigger] else []) + Issued(steps[1..])
  }

  predicate NeverReady(steps: seq<Step>) {
    forall i :: 0 <= i < |steps| ==> steps[i] != SetReady(true)
  }

  // ---------------------------------------------------------------------------
  // Properties

  /** When ready, `exec` loads the trigger at once and posts nothing; when not
      ready, it loads nothing and posts exactly that trigger. */
  lemma ExecEffect(g: GateState, t: string)
    ensures Exec(g, t).ready == g.ready
    ensures g.ready ==> Exec(g, t).page == g.page + [Run(t)] && Exec(g, t).pending == g.pending
    ensures !g.ready ==> Exec(g, t).page == g.page && Exec(g, t).pending == g.pending + [t]
  {
  }

  /** Before readiness every issued trigger is queued, unchanged and in order. */
  lemma {:induction false} ExecAllNotReady(g: GateState, ts: seq<string>)
    requires !g.ready
    ensures ExecAll(g, ts) == g.(pending := g.pending + ts)
    decreases |ts|
  {
    if ts == [] {
      assert g.pending + ts == g.pending;
    } else {
      ExecAllNotReady(Exec(g, ts[0]), ts[1..]);
      assert g.pending + [ts[0]] + ts[1..] == g.pending + ts;
    }
  }

  /** After readiness the triggers are loaded in the order they were issued. */
  lemma {:induction false} ExecAllReady(g: GateState, ts: seq<string>)
    requires g.ready
    ensures ExecAll(g, ts) == g.(page := g.page + Runs(ts))
    decreases |ts|
  {
    if ts == [] {
      assert g.page + Runs(ts) == g.page;
    } else {
      var g' := g.(page := g.page + [Run(ts[0])]);
      assert Exec(g, ts[0]) == g';
      ExecAllReady(g', ts[1..]);
      assert g'.page + Runs(ts[1..]) == g.page + Runs(ts);
    }
  }

  /** A tick before readiness re-posts the oldest trigger at the back, so no
      trigger is lost or altered and nothing reaches the page. */
  lemma TickNotReady(g: GateState)
    requires !g.ready && g.pending != []
    ensures Tick(g) == g.(pending := g.pending[1..] + [g.pending[0]])
    ensures multiset(Tick(g).pending) == multiset(g.pending)
  {
    assert g.pending == [g.pending[0]] + g.pending[1..];
  }

  /** A full round of ticks before readiness leaves the queue as it was. */
  lemma {:induction false} TicksRotate(g: GateState, n: nat)
    requires !g.ready && n <= |g.pending|
    ensures Ticks(g, n) == g.(pending := g.pending[n..] + g.pending[..n])
    decreases n
  {
    if n > 0 {
      TickNotReady(g);
      var g' := Tick(g);
      TicksRotate(g', n - 1);
      assert g'.pending[n - 1..] == g.pending[n..] + [g.pending[0]];
      assert g'.pending[..n - 1] == g.pending[1..n];
      assert g.pending[..n] == [g.pending[0]] + g.pending[1..n];
    } else {
      assert g.pending[0..] + g.pending[..0] == g.pending;
    }
  }

  lemma FullRoundIdentity(g: GateState)
    requires !g.ready
    ensures Ticks(g, |g.pending|) == g
  {
    TicksRotate(g, |g.pending|);
    assert g.pending[|g.pending|..] + g.pending[..|g.pending|] == g.pending;
  }

  /** Once ready, one tick per pending trigger loads all of them, oldest
      first, and empties the queue. */
  lemma {:induction false} DrainWhenReady(g: GateState)
    requires g.ready
    ensures Ticks(g, |g.pending|) == g.(page := g.page + Runs(g.pending), pending := [])
    decreases |g.pending|
  {
    if g.pending == [] {
      assert g.page + Runs(g.pending) == g.page;
    } else {
      var g' := Tick(g);
      assert g' == g.(page := g.page + [Run(g.pending[0])], pending := g.pending[1..]);
      DrainWhenReady(g');
      assert g.page + [Run(g.pending[0])] + Runs(g.pending[1..]) == g.page + Runs(g.pending);
    }
  }

  /** As long as the page never becomes ready, nothing reaches it and every
      trigger ever issued stays queued (as a multiset: ticks rotate the queue). */
  lemma {:induction false} NothingLoadsBeforeReady(g: GateState, steps: seq<Step>)
    requires !g.ready && NeverReady(steps)
    ensures !Trace(g, steps).ready
    ensures Trace(g, steps).page == g.page
    ensures multiset(Trace(g, steps).pending) == multiset(g.pending) + multiset(Issued(steps))
    decreases |steps|
  {
    if steps != [] {
      var g' := Apply(g, steps[0]);
      assert NeverReady(steps[1..]) by {
        forall i | 0 <= i < |steps[1..]| ensures steps[1..][i] != SetReady(true) {
          assert steps[1..][i] == steps[i + 1];
        }
      }
      assert steps[0] != SetReady(true);
      match steps[0]
      case Issue(t) =>
        assert g'.pending == g.pending + [t];
        NothingLoadsBeforeReady(g', steps[1..]);
        assert Issued(steps) == [t] + Issued(steps[1..]);
      case Fire =>
        if g.pending != [] { TickNotReady(g); }
        NothingLoadsBeforeReady(g', steps[1..]);
        assert Issued(steps) == Issued(steps[1..]);
      case SetReady(b) =>
        NothingLoadsBeforeReady(g', steps[1..]);
        assert Issued(steps) == Issued(steps[1..]);
    }
  }

  lemma TraceCons(g: GateState, s: Step, rest: seq<Step>)
    ensures Trace(g, [s] + rest) == Trace(Apply(g, s), rest)
  {
    assert ([s] + rest)[1..] == rest;
  }

  /** A trigger issued after readiness overtakes one that was deferred before
      it: the gate preserves issue order only among the deferred triggers. */
  lemma LateTriggerOvertakes(a: string, b: string)
    ensures Trace(GateState(false, [], []), [Issue(a), SetReady(true), Issue(b), Fire]).page == [Run(b), Run(a)]
  {
    var s0 := GateState(false, [], []);
    var s1 := GateState(false, [], [a]);
    var s2 := GateState(true, [], [a]);
    var s3 := GateState(true, [Run(b)], [a]);
    var s4 := GateState(true, [Run(b), Run(a)], []);
    assert Apply(s0, Issue(a)) == s1;
    assert Apply(s2, Issue(b)) == s3;
    assert Apply(s3, Fire) == s4;
    TraceCons(s3, Fire, []);
    TraceCons(s2, Issue(b), [Fire]);
    TraceCons(s1, SetReady(true), [Issue(b), Fire]);
    TraceCons(s0, Issue(a), [SetReady(true), Issue(b), Fire]);
  }

  /** Two triggers issued back to back before readiness can reach the page in
      the opposite order: readiness can change between the attempts of one
      round, so the second runs while the first is posted again. This is the
      case of a `prepareInsert` followed by its insertion command. */
  lemma PairCanBeReordered(p: string, i: string)
    ensures Trace(GateState(false, [], []), [Issue(p), Issue(i), Fire, SetReady(true), Fire, Fire]).page == [Run(i), Run(p)]
  {
    var s0 := GateState(false, [], []);
    var s1 := GateState(false, [], [p]);
    var s2 := GateState(false, [], [p, i]);
    var s3 := GateState(false, [], [i, p]);
    var s4 := GateState(true, [], [i, p]);
    var s5 := GateState(true, [Run(i)], [p]);
    var s6 := GateState(true, [Run(i), Run(p)], []);
    assert Apply(s0, Issue(p)) == s1;
    assert Apply(s1, Issue(i)) == s2;
    assert Apply(s2, Fire) == s3 by { assert s2.pending[1..] == [i]; }
    assert Apply(s4, Fire) == s5 by { assert s4.pending[1..] == [p]; }
    assert Apply(s5, Fire) == s6;
    TraceCons(s5, Fire, []);
    TraceCons(s4, Fire, [Fire]);
    TraceCons(s3, SetReady(true), [Fire, Fire]);
    TraceCons(s2, Fire, [SetReady(true), Fire, Fire]);
    TraceCons(s1, Issue(i), [Fire, SetReady(true), Fire, Fire]);
    TraceCons(s0, Issue(p), [Issue(i), Fire, SetReady(true), Fire, Fire]);
  }
}
