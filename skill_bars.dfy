/** The skill bars of the résumé page (`.skill-fill` elements) and the timers that reveal them.

    Each bar has a static `data-width` attribute and a current inline width. Revealing the bars
    schedules one staggered width write per bar; the browser's timer queue is modelled as a
    sequence of pending timers that may fire in any order. */
module SkillBars {
  import opened Options

  /** Milliseconds between the writes of two successive bars. */
  const Stagger: nat := 100
  /** Delay of the reveal a click on the skills tab schedules. */
  const ClickRevealDelay: nat := 100
  /** Delay of the reveal scheduled at start-up when the skills section is already shown. */
  const LoadRevealDelay: nat := 500
  /** The width every bar is collapsed to at start-up, and the fallback target width. */
  const Collapsed := "0%"

  /** One bar as the markup provides it. */
  datatype SkillFill = SkillFill(dataWidth: Option<string>, width: string)

  /** A pending `setTimeout` callback: either a deferred call of the reveal routine, or the write
      of one bar's width that the reveal routine staggers. Delays are relative to scheduling. */
  datatype Timer =
    | RevealLater(delay: nat)
    | WriteWidth(delay: nat, bar: nat, value: string)

  /** The width a bar is revealed to: `data-width || "0%"`. JavaScript's `||` falls back both when
      the attribute is missing and when it is the empty string. */
  function TargetWidth(dataWidth: Option<string>): (w: string)
    ensures w != ""
    ensures w == Collapsed || dataWidth == Some(w)
    ensures dataWidth.Some? && dataWidth.value != "" ==> w == dataWidth.value
  {
    if dataWidth.Some? && dataWidth.value != "" then dataWidth.value else Collapsed
  }

  /** The target widths of all bars. */
  function Targets(dw: seq<Option<string>>): (t: seq<string>)
    ensures |t| == |dw|
    ensures forall b :: 0 <= b < |dw| ==> t[b] == TargetWidth(dw[b])
  {
    seq(|dw|, b requires 0 <= b < |dw| => TargetWidth(dw[b]))
  }

  /** The writes the reveal routine schedules for the first `n` bars, in the order it visits them. */
  function Schedule(dw: seq<Option<string>>, n: nat): (s: seq<Timer>)
    requires n <= |dw|
  {
    if n == 0 then []
    else Schedule(dw, n - 1) + [WriteWidth((n - 1) * Stagger, n - 1, TargetWidth(dw[n - 1]))]
  }

  /** The writes one run of the reveal routine schedules. */
  function RevealSchedule(dw: seq<Option<string>>): (s: seq<Timer>)
  {
    Schedule(dw, |dw|)
  }

  /** Number of timers in `ts` that write bar `b`. */
  function WriteCount(ts: seq<Timer>, b: nat): (count: nat)
  {
    if ts == [] then 0
    else WriteCount(ts[..|ts| - 1], b) + (if ts[|ts| - 1].WriteWidth? && ts[|ts| - 1].bar == b then 1 else 0)
  }

  /** Number of deferred reveal calls in `ts`. */
  function RevealCount(ts: seq<Timer>): (count: nat)
  {
    if ts == [] then 0 else (if ts[0].RevealLater? then 1 else 0) + RevealCount(ts[1..])
  }

  /** Some timer in `ts` writes bar `b`. */
  ghost predicate Writes(ts: seq<Timer>, b: nat)
  {
    exists t :: t in ts && t.WriteWidth? && t.bar == b
  }

  /** Some timer in `ts` will, directly or through a deferred reveal, write bar `b`. */
  ghost predicate Touches(ts: seq<Timer>, b: nat)
  {
    exists t :: t in ts && (t.RevealLater? || (t.WriteWidth? && t.bar == b))
  }

  /** Every pending write targets an existing bar and carries that bar's target width. The reveal
      routine reads `data-width`, which never changes, so every write it ever schedules satisfies this. */
  ghost predicate Consistent(ts: seq<Timer>, dw: seq<Option<string>>)
  {
    forall t :: t in ts && t.WriteWidth? ==> t.bar < |dw| && t.value == TargetWidth(dw[t.bar])
  }

  /** The widths after the writes in `ts` fire in sequence order (deferred reveals write nothing
      themselves; firing them is modelled by `SkillBoard.Fire`). */
  function ApplyWrites(widths: seq<string>, ts: seq<Timer>): (r: seq<string>)
    ensures |r| == |widths|
    decreases |ts|
  {
    if ts == [] then widths
    else
      var w := if ts[0].WriteWidth? && ts[0].bar < |widths| then widths[ts[0].bar := ts[0].value] else widths;
      ApplyWrites(w, ts[1..])
  }

  /** The widths once every timer of `pending` has fired, whatever the order: each bar some timer
      touches ends at its target, every other bar keeps its width. */
  ghost function Settled(widths: seq<string>, dw: seq<Option<string>>, pending: seq<Timer>): (w: seq<string>)
    requires |widths| == |dw|
  {
    seq(|widths|, b requires 0 <= b < |widths| => if Touches(pending, b) then TargetWidth(dw[b]) else widths[b])
  }

  /** `ts` without its element at index `k`: the timer queue after timer `k` fires. */
  function Remove(ts: seq<Timer>, k: nat): (r: seq<Timer>)
    requires k < |ts|
    ensures |r| == |ts| - 1
    ensures multiset(r) + multiset{ts[k]} == multiset(ts)
  {
    assert ts == ts[..k] + [ts[k]] + ts[k + 1..];
    ts[..k] + ts[k + 1..]
  }

  // ---------------------------------------------------------------------------------------------
  // The schedule one reveal produces

  /** One reveal schedules, for bar `k`, a write at delay `k * 100` of the bar's target width, and
      nothing else: its `k`-th timer is exactly that write. */
  lemma {:induction false} ScheduleShape(dw: seq<Option<string>>, n: nat)
    requires n <= |dw|
    ensures |Schedule(dw, n)| == n
    ensures forall k :: 0 <= k < n ==> Schedule(dw, n)[k] == WriteWidth(k * Stagger, k, TargetWidth(dw[k]))
  {
    if n > 0 {
      ScheduleShape(dw, n - 1);
    }
  }

  /** One reveal writes each bar exactly once, and no bar outside the page. */
  lemma {:induction false} OneWritePerBar(dw: seq<Option<string>>, n: nat, b: nat)
    requires n <= |dw|
    ensures WriteCount(Schedule(dw, n), b) == if b < n then 1 else 0
  {
    if n > 0 {
      var s, s' := Schedule(dw, n), Schedule(dw, n - 1);
      assert s == s' + [WriteWidth((n - 1) * Stagger, n - 1, TargetWidth(dw[n - 1]))];
      assert s[..|s| - 1] == s';
      OneWritePerBar(dw, n - 1, b);
    }
  }

  /** One reveal schedules no further deferred reveal. */
  lemma {:induction false} ScheduleHasNoReveal(dw: seq<Option<string>>, n: nat)
    requires n <= |dw|
    ensures RevealCount(Schedule(dw, n)) == 0
  {
    if n > 0 {
      ScheduleHasNoReveal(dw, n - 1);
      RevealCountAppend(Schedule(dw, n - 1), [WriteWidth((n - 1) * Stagger, n - 1, TargetWidth(dw[n - 1]))]);
    }
  }

  /** The writes of one reveal are consistent, and together they write every bar. */
  lemma ScheduleCovers(dw: seq<Option<string>>)
    ensures Consistent(RevealSchedule(dw), dw)
    ensures forall b :: 0 <= b < |dw| ==> Writes(RevealSchedule(dw), b)
  {
    var s := RevealSchedule(dw);
    ScheduleShape(dw, |dw|);
    forall b | 0 <= b < |dw| ensures Writes(s, b) {
      assert s[b] in s;
    }
  }

  lemma {:induction false} RevealCountAppend(a: seq<Timer>, b: seq<Timer>)
    ensures RevealCount(a + b) == RevealCount(a) + RevealCount(b)
  {
    if a == [] {
      assert a + b == b;
    } else {
      assert (a + b)[0] == a[0];
      assert (a + b)[1..] == a[1..] + b;
      RevealCountAppend(a[1..], b);
    }
  }

  /** Firing timer `k` removes exactly one deferred reveal if it is one, and none otherwise. */
  lemma {:induction false} RevealCountRemove(ts: seq<Timer>, k: nat)
    requires k < |ts|
    ensures RevealCount(Remove(ts, k)) + (if ts[k].RevealLater? then 1 else 0) == RevealCount(ts)
  {
    var r := Remove(ts, k);
    if k == 0 {
      assert r == ts[1..];
    } else {
      assert r[0] == ts[0];
      assert r[1..] == Remove(ts[1..], k - 1);
      RevealCountRemove(ts[1..], k - 1);
    }
  }

  // ---------------------------------------------------------------------------------------------
  // Final widths do not depend on the order in which timers fire

  /** After a consistent list of writes fires, a bar holds its target width if some write in the
      list targets it, and its earlier width otherwise. */
  lemma {:induction false} ApplyWritesAt(widths: seq<string>, dw: seq<Option<string>>, ts: seq<Timer>, b: nat)
    requires |widths| == |dw| && b < |dw|
    requires Consistent(ts, dw)
    ensures ApplyWrites(widths, ts)[b] == if Writes(ts, b) then TargetWidth(dw[b]) else widths[b]
    decreases |ts|
  {
    if ts != [] {
      var w := if ts[0].WriteWidth? && ts[0].bar < |widths| then widths[ts[0].bar := ts[0].value] else widths;
      assert ts == [ts[0]] + ts[1..];
      assert Consistent(ts[1..], dw) by {
        forall t | t in ts[1..] ensures t in ts { }
      }
      ApplyWritesAt(w, dw, ts[1..], b);
      if Writes(ts, b) && !Writes(ts[1..], b) {
        var t :| t in ts && t.WriteWidth? && t.bar == b;
        assert t == ts[0];
      }
      if Writes(ts[1..], b) {
        var t :| t in ts[1..] && t.WriteWidth? && t.bar == b;
        assert t in ts;
      }
    }
  }

  /** Two firing orders of the same consistent timers leave the same widths. */
  lemma AnyOrder(widths: seq<string>, dw: seq<Option<string>>, ts1: seq<Timer>, ts2: seq<Timer>)
    requires |widths| == |dw|
    requires Consistent(ts1, dw)
    requires multiset(ts1) == multiset(ts2)
    ensures ApplyWrites(widths, ts1) == ApplyWrites(widths, ts2)
  {
    forall t ensures t in ts1 <==> t in ts2 {
      assert t in ts1 <==> t in multiset(ts1);
      assert t in ts2 <==> t in multiset(ts2);
    }
    assert Consistent(ts2, dw);
    forall b | 0 <= b < |dw| ensures ApplyWrites(widths, ts1)[b] == ApplyWrites(widths, ts2)[b] {
      ApplyWritesAt(widths, dw, ts1, b);
      ApplyWritesAt(widths, dw, ts2, b);
    }
  }

  /** Once the writes of one reveal have fired, every bar shows its target width, as the same string
      (a bar with `data-width="83%"` shows exactly "83%"). */
  lemma RevealReachesTargets(widths: seq<string>, dw: seq<Option<string>>)
    requires |widths| == |dw|
    ensures ApplyWrites(widths, RevealSchedule(dw)) == Targets(dw)
  {
    ScheduleCovers(dw);
    forall b | 0 <= b < |dw| ensures ApplyWrites(widths, RevealSchedule(dw))[b] == Targets(dw)[b] {
      ApplyWritesAt(widths, dw, RevealSchedule(dw), b);
    }
  }

  /** Stale timers are harmless: whatever consistent writes are still pending from earlier reveals,
      and in whatever order they interleave with a new reveal's writes, the bars end at their targets. */
  lemma StaleWritesHarmless(widths: seq<string>, dw: seq<Option<string>>, stale: seq<Timer>, order: seq<Timer>)
    requires |widths| == |dw|
    requires Consistent(stale, dw)
    requires multiset(order) == multiset(stale + RevealSchedule(dw))
    ensures ApplyWrites(widths, order) == Targets(dw)
  {
    var all := stale + RevealSchedule(dw);
    ScheduleCovers(dw);
    assert Consistent(all, dw) by {
      forall t | t in all ensures t in stale || t in RevealSchedule(dw) { }
    }
    AnyOrder(widths, dw, all, order);
    forall b | 0 <= b < |dw| ensures ApplyWrites(widths, all)[b] == Targets(dw)[b] {
      ApplyWritesAt(widths, dw, all, b);
      assert Writes(RevealSchedule(dw), b);
      var t :| t in RevealSchedule(dw) && t.WriteWidth? && t.bar == b;
      assert t in all;
    }
  }

  /** Revealing twice gives the same widths as revealing once. */
  lemma RevealIdempotent(widths: seq<string>, dw: seq<Option<string>>)
    requires |widths| == |dw|
    ensures ApplyWrites(ApplyWrites(widths, RevealSchedule(dw)), RevealSchedule(dw))
         == ApplyWrites(widths, RevealSchedule(dw))
  {
    RevealReachesTargets(widths, dw);
    RevealReachesTargets(ApplyWrites(widths, RevealSchedule(dw)), dw);
  }

  /** A bar revealed with `data-width="83%"` ends at exactly "83%". */
  lemma ExampleBar()
    ensures ApplyWrites(["0%"], RevealSchedule([Some("83%")])) == ["83%"]
  {
  }

  // ---------------------------------------------------------------------------------------------
  // The bars and their timer queue

  class SkillBoard {
    /** The `data-width` attribute of each bar, in document order; never written. */
    const dataWidth: seq<Option<string>>
    /** The inline `style.width` of each bar. */
    const width: array<string>
    /** Timers scheduled and not yet fired. */
    var pending: seq<Timer>

    ghost predicate Valid()
      reads this
    {
      width.Length == |dataWidth| && Consistent(pending, dataWidth)
    }

    /** The bars as the markup provides them, with no timer pending. */
    constructor (fills: seq<SkillFill>)
      ensures Valid() && fresh(width)
      ensures |dataWidth| == |fills| && width.Length == |fills|
      ensures forall b :: 0 <= b < |fills| ==> dataWidth[b] == fills[b].dataWidth && width[b] == fills[b].width
      ensures pending == []
    {
      dataWidth := seq(|fills|, b requires 0 <= b < |fills| => fills[b].dataWidth);
      width := new string[|fills|](b requires 0 <= b < |fills| => fills[b].width);
      pending := [];
    }

    /** `setTimeout(animateSkillBars, delay)`. */
    method ScheduleReveal(delay: nat)
      requires Valid()
      modifies this`pending
      ensures Valid()
      ensures pending == old(pending) + [RevealLater(delay)]
    {
      pending := pending + [RevealLater(delay)];
    }

    /** `initSkillBars`: collapses every bar to "0%", then schedules a reveal after 500 ms when
        the skills section is already the active one. */
    method InitSkillBars(skillsShown: bool)
      requires Valid()
      modifies width, this`pending
      ensures Valid()
      ensures forall b :: 0 <= b < width.Length ==> width[b] == Collapsed
      ensures pending == old(pending) + (if skillsShown then [RevealLater(LoadRevealDelay)] else [])
    {
      var i := 0;
      while i < width.Length
        invariant 0 <= i <= width.Length
        invariant forall b :: 0 <= b < i ==> width[b] == Collapsed
        invariant pending == old(pending)
      {
        width[i] := Collapsed;
        i := i + 1;
      }
      if skillsShown {
        ScheduleReveal(LoadRevealDelay);
      }
    }

    /** `animateSkillBars`: for each bar, in document order, schedules the write of its target
        width after `index * 100` ms. The widths themselves change only when those timers fire. */
    method AnimateSkillBars()
      requires Valid()
      modifies this`pending
      ensures Valid()
      ensures pending == old(pending) + RevealSchedule(dataWidth)
    {
      var i := 0;
      while i < width.Length
        invariant 0 <= i <= width.Length
        invariant pending == old(pending) + Schedule(dataWidth, i)
      {
        pending := pending + [WriteWidth(i * Stagger, i, TargetWidth(dataWidth[i]))];
        i := i + 1;
      }
      ScheduleCovers(dataWidth);
      assert Consistent(pending, dataWidth) by {
        forall t | t in pending ensures t in old(pending) || t in RevealSchedule(dataWidth) { }
      }
    }

    /** The browser runs pending timer `k`, whichever it is: a width write sets that bar's width,
        a deferred reveal runs the reveal routine, which schedules fresh writes. */
    method Fire(k: nat)
      requires Valid() && k < |pending|
      modifies this`pending, width
      ensures Valid()
      ensures old(pending[k]).WriteWidth? ==>
        && pending == Remove(old(pending), k)
        && width[..] == old(width[..])[old(pending[k]).bar := old(pending[k]).value]
      ensures old(pending[k]).RevealLater? ==>
        && pending == Remove(old(pending), k) + RevealSchedule(dataWidth)
        && width[..] == old(width[..])
    {
      var t := pending[k];
      assert t in pending;
      pending := Remove(pending, k);
      assert Consistent(pending, dataWidth) by {
        forall u | u in pending ensures u in old(pending) {
          assert u in multiset(pending);
        }
      }
      match t
      case WriteWidth(_, b, v) =>
        width[b] := v;
      case RevealLater(_) =>
        AnimateSkillBars();
    }

    /** Lets every pending timer fire, in an arbitrary order, until none is left. Each bar that some
        pending timer touched ends at its target width; every other bar keeps its width. */
    method Settle()
      requires Valid()
      modifies this`pending, width
      ensures Valid() && pending == []
      ensures width[..] == Settled(old(width[..]), dataWidth, old(pending))
    {
      ghost var w0, p0 := width[..], pending;
      while pending != []
        invariant Valid()
        invariant SettleInvariant(dataWidth, w0, p0, pending, width[..])
        decreases RevealCount(pending), |pending|
      {
        var k :| 0 <= k < |pending|;
        ghost var p, w := pending, width[..];
        Fire(k);
        if p[k].RevealLater? {
          RevealStep(dataWidth, w0, p0, p, w, k);
        } else {
          WriteStep(dataWidth, w0, p0, p, w, k);
        }
      }
      assert width[..] == Settled(w0, dataWidth, p0);
    }
  }

  /** What `SkillBoard.Settle` keeps while timers fire: a bar still touched by a pending timer was
      touched at the start, and a bar no pending timer touches already holds its settled width. */
  ghost predicate SettleInvariant(dw: seq<Option<string>>, w0: seq<string>, p0: seq<Timer>, p: seq<Timer>, w: seq<string>)
  {
    && |w0| == |dw| && |w| == |dw|
    && (forall b :: 0 <= b < |w| && Touches(p, b) ==> Touches(p0, b))
    && (forall b :: 0 <= b < |w| && !Touches(p, b) ==> w[b] == Settled(w0, dw, p0)[b])
  }

  lemma TouchesRemove(p: seq<Timer>, k: nat, b: nat)
    requires k < |p|
    ensures Touches(Remove(p, k), b) ==> Touches(p, b)
    ensures Touches(p, b) && !(p[k].WriteWidth? && p[k].bar == b) && p[k].WriteWidth? ==> Touches(Remove(p, k), b)
  {
  }

  /** Firing a width write keeps the invariant of `Settle` and shortens the queue. */
  lemma WriteStep(dw: seq<Option<string>>, w0: seq<string>, p0: seq<Timer>, p: seq<Timer>, w: seq<string>, k: nat)
    requires k < |p| && p[k].WriteWidth?
    requires Consistent(p, dw)
    requires SettleInvariant(dw, w0, p0, p, w)
    ensures SettleInvariant(dw, w0, p0, Remove(p, k), w[p[k].bar := p[k].value])
    ensures RevealCount(Remove(p, k)) == RevealCount(p)
  {
    RevealCountRemove(p, k);
    assert p[k] in p;
    assert Touches(p, p[k].bar);
    forall b | 0 <= b < |w| {
      TouchesRemove(p, k, b);
    }
  }

  /** Firing a deferred reveal keeps the invariant of `Settle` and removes one deferred reveal. */
  lemma RevealStep(dw: seq<Option<string>>, w0: seq<string>, p0: seq<Timer>, p: seq<Timer>, w: seq<string>, k: nat)
    requires k < |p| && p[k].RevealLater?
    requires SettleInvariant(dw, w0, p0, p, w)
    ensures SettleInvariant(dw, w0, p0, Remove(p, k) + RevealSchedule(dw), w)
    ensures RevealCount(Remove(p, k) + RevealSchedule(dw)) < RevealCount(p)
  {
    var p' := Remove(p, k) + RevealSchedule(dw);
    RevealCountRemove(p, k);
    ScheduleCovers(dw);
    ScheduleHasNoReveal(dw, |dw|);
    RevealCountAppend(Remove(p, k), RevealSchedule(dw));
    assert p[k] in p;
    forall b | 0 <= b < |w| ensures Touches(p', b) && Touches(p, b) {
      assert Writes(RevealSchedule(dw), b);
      var u :| u in RevealSchedule(dw) && u.WriteWidth? && u.bar == b;
      assert u in p';
    }
  }
}
