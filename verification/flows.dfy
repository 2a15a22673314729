/**
 * Properties that span the extension's parts: what the popup writes, what
 * the background page lets through, and what the content script then does
 * with the same stored state.
 */
module Flows {
  import opened Wrappers
  import opened Model
  import Background
  import Hunting
  import Watcher
  import PageLoad
  import Popup
  import Options

  /**
   * Start from the popup, then `START_HUNT` in the tab: the first entry of
   * the new list is attempted with counter 1, at index 0, while hunting.
   */
  lemma StartFromPopup(s: Store, pr: seq<ClassOption>, now: int)
    requires |pr| > 0
    ensures var w := Popup.StartHunt(s, pr);
            w.Some? && var r := PageLoad.StartHunt(w.value, now);
            r.runMode == HUNTING && r.activeIndex == 0 && r.priority == pr
            && r.pending.Some? && r.pending.value.rawValue == pr[0].rawValue && r.pending.value.attempt == 1
            && r.lastCaptcha.Some? && r.lastCaptcha.value.meta.attempt == 1
  {
    var w := Popup.StartHunt(s, pr).value;
    assert w.pending.None?;
  }

  /**
   * Whatever the popup sends for the switch, the background accepts it: the
   * popup's guard is the background's guard, so a refusal never reaches the
   * store, and the background alone never turns the flag on outside idle.
   */
  lemma ToggleGuardsAgree(s: Store, on: bool)
    ensures var a := Popup.ToggleNotify(s, on);
            a.Sent? ==> Background.ToggleNotify(s, a.enable).ok
    ensures s.notifyEnabled != Some(true) && Background.ToggleNotify(s, on).store.notifyEnabled == Some(true)
            ==> s.runMode == IDLE
  {
  }

  /**
   * Switching the watcher on while idle leaves it on and idle after the
   * content script's first cycle, whatever class list is stored: the fresh
   * baseline shows no rise against the page it was built from.
   */
  lemma EnableWhileIdleStaysWatching(s: Store, parsed: seq<ClassOption>, now: int)
    requires s.runMode == IDLE
    ensures var t := Background.ToggleNotify(s, true);
            t.ok && var r := Watcher.EnableWatcher(t.store, true, parsed, now);
            r.runMode == IDLE && r.notifyEnabled == Some(true) && r.pending == s.pending
  {
  }

  /**
   * A `STOP_HUNT` between page loads, followed by a load with the watcher
   * off, leaves the engine idle with nothing pending and the index at 0.
   */
  lemma StopThenReload(s: Store, parsed: seq<ClassOption>, grid: seq<seq<string>>, now: int)
    requires !Truthy(s.notifyEnabled)
    ensures var r := PageLoad.Init(Background.StopHunt(s), parsed, grid, now);
            r.runMode == IDLE && r.pending.None? && r.activeIndex == 0
  {
  }

  /** Whatever is typed into the options page, the content script's CAPTCHA budget is between 1 and 20. */
  lemma SavedBudgetInRange(maxText: string, secText: string)
    ensures var o := Options.Save(maxText, secText);
            1 <= PageLoad.MaxAttempts(Some(o)) <= 20
            && Some(PageLoad.MaxAttempts(Some(o))) == o.maxCaptcha
  {
  }

  /** Whatever is typed into the options page, the reload interval is the stored seconds, between 5 s and 300 s. */
  lemma SavedIntervalInRange(maxText: string, secText: string)
    ensures var o := Options.Save(maxText, secText);
            5000 <= PageLoad.IntervalMs(Some(o)) <= 300000
            && PageLoad.IntervalMs(Some(o)) == o.notifyIntervalSec.value * 1000
  {
  }

  /** The watcher's own hand-off switches it off: a second cycle, on any page, changes nothing. */
  lemma HandOffIsFinal(s: Store, parsed: seq<ClassOption>, later: seq<ClassOption>, now: int, now2: int)
    requires Watcher.Watching(s)
    requires Watcher.WatchCycle(s, parsed, now).runMode == HUNTING
    ensures var r := Watcher.WatchCycle(s, parsed, now);
            Watcher.WatchCycle(r, later, now2) == r
  {
  }

  /** After the background records a find, no cycle acts until the watcher is switched on again. */
  lemma FoundStopsWatcher(s: Store, parsed: seq<ClassOption>, now: int)
    ensures Watcher.WatchCycle(Background.NotifyFound(s), parsed, now) == Background.NotifyFound(s)
  {
  }
}
