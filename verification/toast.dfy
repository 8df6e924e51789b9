/** The toast notification of the configurator: an optional record, the
    updaters its timer callbacks apply, and the timers themselves. The
    200 ms icon timer is started by `showToast` and never cancelled; the
    2500 ms hide timer is started by an effect that runs whenever the toast
    changes, and the effect's cleanup cancels the previous one; the hide
    callback starts a 500 ms clear timer that is never cancelled. Timer
    firings are events; durations are not modelled. */
module ToastLifecycle {
  import opened Wrappers

  /** `id` is the `Date.now()` value at creation, kept opaque. */
  datatype Toast = Toast(id: int, message: string, visible: bool, showIcon: bool)

  /** The toast `showToast` creates: visible, icon not yet shown. */
  function Show(id: int, message: string): (t: Toast)
    ensures t.visible && !t.showIcon
    ensures t.id == id && t.message == message
  {
    Toast(id, message, true, false)
  }

  /** The icon timer's updater: reveal the icon of a live toast. */
  function RevealIcon(prev: Option<Toast>): (r: Option<Toast>)
    ensures prev.None? <==> r.None?
    ensures r.Some? ==> r.value == prev.value.(showIcon := true)
  {
    match prev
    case None => None
    case Some(t) => Some(t.(showIcon := true))
  }

  /** The hide timer's updater: fade a live toast out, keeping its id and message. */
  function Hide(prev: Option<Toast>): (r: Option<Toast>)
    ensures prev.None? <==> r.None?
    ensures r.Some? ==> !r.value.visible && !r.value.showIcon
    ensures r.Some? ==> r.value.id == prev.value.id && r.value.message == prev.value.message
  {
    match prev
    case None => None
    case Some(t) => Some(t.(visible := false, showIcon := false))
  }

  datatype Timer = IconTimer | HideTimer | ClearTimer

  /** The toast and the timers that have been started and not yet fired or
      cancelled. */
  datatype Toaster = Toaster(toast: Option<Toast>, timers: seq<Timer>)

  const Quiet := Toaster(None, [])

  datatype Event = ShowToast(id: int, message: string) | Fire(index: nat)

  function CountHide(ts: seq<Timer>): (n: nat)
    ensures n <= |ts|
    decreases |ts|
  {
    if |ts| == 0 then 0 else (if ts[0] == HideTimer then 1 else 0) + CountHide(ts[1..])
  }

  /** The timers without the hide timer, as the effect's cleanup leaves them. */
  function CancelHide(ts: seq<Timer>): (r: seq<Timer>)
    ensures CountHide(r) == 0
    ensures forall t :: t in r <==> t in ts && t != HideTimer
    decreases |ts|
  {
    if |ts| == 0 then []
    else if ts[0] == HideTimer then CancelHide(ts[1..])
    else [ts[0]] + CancelHide(ts[1..])
  }

  /** The hide effect after the toast went from `before` to `after`. React
      re-renders unless both are null; the updaters always build a new
      object, so every other change re-runs the effect, which cancels the
      pending hide timer and starts a new one if a toast is present. */
  function HideEffect(before: Option<Toast>, after: Option<Toast>, ts: seq<Timer>): (r: seq<Timer>)
    ensures before.None? && after.None? ==> r == ts
    ensures !(before.None? && after.None?) ==> CountHide(r) == (if after.Some? then 1 else 0)
    ensures CancelHide(r) == CancelHide(ts)
  {
    if before.None? && after.None? then ts
    else if after.Some? then
      CountHideAppend(CancelHide(ts), [HideTimer]);
      CancelHideAppend(CancelHide(ts), [HideTimer]);
      CancelHideTwice(ts);
      assert CancelHide([HideTimer]) == [] by {
        assert [HideTimer][1..] == [];
      }
      CancelHide(ts) + [HideTimer]
    else
      CancelHideTwice(ts);
      CancelHide(ts)
  }

  lemma {:induction false} CancelHideAppend(a: seq<Timer>, b: seq<Timer>)
    ensures CancelHide(a + b) == CancelHide(a) + CancelHide(b)
    decreases |a|
  {
    if |a| > 0 {
      assert (a + b)[0] == a[0];
      assert (a + b)[1..] == a[1..] + b;
      CancelHideAppend(a[1..], b);
    } else {
      assert a + b == b;
    }
  }

  /** Cancelling twice is cancelling once. */
  lemma {:induction false} CancelHideTwice(ts: seq<Timer>)
    ensures CancelHide(CancelHide(ts)) == CancelHide(ts)
    decreases |ts|
  {
    if |ts| > 0 {
      CancelHideTwice(ts[1..]);
      if ts[0] != HideTimer {
        var r := [ts[0]] + CancelHide(ts[1..]);
        assert r[0] == ts[0] && r[1..] == CancelHide(ts[1..]);
      }
    }
  }

  lemma {:induction false} CountHideAppend(a: seq<Timer>, b: seq<Timer>)
    ensures CountHide(a + b) == CountHide(a) + CountHide(b)
    decreases |a|
  {
    if |a| > 0 {
      assert (a + b)[1..] == a[1..] + b;
      CountHideAppend(a[1..], b);
    } else {
      assert a + b == b;
    }
  }

  lemma {:induction false} CountHideRemove(ts: seq<Timer>, i: nat)
    requires i < |ts|
    ensures CountHide(ts) == CountHide(ts[..i] + ts[i + 1..]) + (if ts[i] == HideTimer then 1 else 0)
    decreases i
  {
    if i == 0 {
      assert ts[..0] + ts[1..] == ts[1..];
    } else {
      var tail := ts[1..];
      CountHideRemove(tail, i - 1);
      var rest := tail[..i - 1] + tail[i..];
      assert ts[..i] + ts[i + 1..] == [ts[0]] + rest;
      assert ([ts[0]] + rest)[1..] == rest;
    }
  }

  /** One event: `showToast` sets a new toast and starts the icon timer; a
      firing timer is removed and applies its updater (the hide callback also
      starts the clear timer); then the hide effect runs. */
  function Step(s: Toaster, e: Event): (r: Toaster)
    ensures e.ShowToast? ==> r.toast == Some(Show(e.id, e.message))
    ensures e.ShowToast? ==> CancelHide(r.timers) == CancelHide(s.timers) + [IconTimer]
    ensures e.Fire? && e.index >= |s.timers| ==> r == s
    ensures e.Fire? && e.index < |s.timers| && s.timers[e.index] == IconTimer ==>
      r.toast == RevealIcon(s.toast)
      && CancelHide(r.timers) == CancelHide(s.timers[..e.index] + s.timers[e.index + 1..])
    ensures e.Fire? && e.index < |s.timers| && s.timers[e.index] == HideTimer ==>
      r.toast == Hide(s.toast)
      && CancelHide(r.timers) == CancelHide(s.timers[..e.index] + s.timers[e.index + 1..]) + [ClearTimer]
    ensures e.Fire? && e.index < |s.timers| && s.timers[e.index] == ClearTimer ==>
      r.toast.None?
      && CancelHide(r.timers) == CancelHide(s.timers[..e.index] + s.timers[e.index + 1..])
  {
    match e
    case ShowToast(id, message) =>
      var t := Some(Show(id, message));
      CancelHideAppend(s.timers, [IconTimer]);
      assert CancelHide([IconTimer]) == [IconTimer] by {
        assert [IconTimer][1..] == [];
      }
      Toaster(t, HideEffect(s.toast, t, s.timers + [IconTimer]))
    case Fire(i) =>
      if i >= |s.timers| then s
      else
        var rest := s.timers[..i] + s.timers[i + 1..];
        match s.timers[i]
        case IconTimer =>
          var t := RevealIcon(s.toast);
          Toaster(t, HideEffect(s.toast, t, rest))
        case HideTimer =>
          var t := Hide(s.toast);
          CancelHideAppend(rest, [ClearTimer]);
          assert CancelHide([ClearTimer]) == [ClearTimer] by {
            assert [ClearTimer][1..] == [];
          }
          Toaster(t, HideEffect(s.toast, t, rest + [ClearTimer]))
        case ClearTimer =>
          Toaster(None, HideEffect(s.toast, None, rest))
  }

  /** Exactly one hide timer is pending while a toast is present, and none
      otherwise: the effect's cleanup never lets two overlap. */
  predicate OneHideTimer(s: Toaster) {
    CountHide(s.timers) == (if s.toast.Some? then 1 else 0)
  }

  lemma StepKeepsOneHideTimer(s: Toaster, e: Event)
    requires OneHideTimer(s)
    ensures OneHideTimer(Step(s, e))
  {
    match e
    case ShowToast(_, _) =>
    case Fire(i) =>
      if i < |s.timers| {
        var rest := s.timers[..i] + s.timers[i + 1..];
        CountHideRemove(s.timers, i);
        if s.timers[i] == HideTimer {
          CountHideAppend(rest, [ClearTimer]);
        }
      }
  }

  /** Timers never bring back a cleared toast. */
  lemma TimersNeverResurrect(s: Toaster, i: nat)
    requires s.toast.None?
    ensures Step(s, Fire(i)).toast.None?
  {
  }

  /** One undisturbed cycle: show, icon, fade (same id and message), clear,
      and back to no toast and no timers. */
  lemma UndisturbedCycle(id: int, message: string)
    ensures var s1 := Step(Quiet, ShowToast(id, message));
      && s1.toast == Some(Toast(id, message, true, false)) && s1.timers == [IconTimer, HideTimer]
      && var s2 := Step(s1, Fire(0));
      && s2.toast == Some(Toast(id, message, true, true)) && s2.timers == [HideTimer]
      && var s3 := Step(s2, Fire(0));
      && s3.toast == Some(Toast(id, message, false, false)) && s3.timers == [ClearTimer, HideTimer]
      && Step(s3, Fire(0)) == Quiet
  {
    var s1 := Step(Quiet, ShowToast(id, message));
    assert Quiet.timers + [IconTimer] == [IconTimer];
    assert CancelHide([IconTimer]) == [IconTimer] by {
      assert [IconTimer][1..] == [];
    }
    var s2 := Step(s1, Fire(0));
    assert s1.timers[..0] + s1.timers[1..] == [HideTimer];
    assert CancelHide([HideTimer]) == [] by {
      assert [HideTimer][1..] == [];
    }
    var s3 := Step(s2, Fire(0));
    assert s2.timers[..0] + s2.timers[1..] + [ClearTimer] == [ClearTimer];
    assert CancelHide([ClearTimer]) == [ClearTimer] by {
      assert [ClearTimer][1..] == [];
    }
    assert s3.timers[..0] + s3.timers[1..] == [HideTimer];
    assert CancelHide([HideTimer]) == [];
  }

  /** The clear timer of an earlier toast is not cancelled by a new
      `showToast`: it clears the new toast while it is still fully visible. */
  lemma StaleClearDropsNewerToast(a: int, b: int, m: string, n: string)
    ensures var s3 := Step(Step(Step(Quiet, ShowToast(a, m)), Fire(0)), Fire(0));
      && var s4 := Step(s3, ShowToast(b, n));
      && s4.toast == Some(Toast(b, n, true, false))
      && s4.timers[0] == ClearTimer
      && Step(s4, Fire(0)).toast.None?
  {
    UndisturbedCycle(a, m);
  }
}
