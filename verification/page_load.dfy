/**
 * What the content script does when the course page loads and when the
 * popup or the background page talks to it: read the options, store the
 * parsed classes, run one watcher cycle, resume hunting; start a hunt;
 * react to a new priority order. Also the reading of an option's value
 * attribute. The page is an input (`parsed`, `grid`), the clock is `now`.
 */
module PageLoad {
  import opened Wrappers
  import opened Model
  import Text
  import Hunting
  import Watcher

  /* ---------- option value attribute ---------- */

  /** The four `|`-separated fields of a class option's value attribute. */
  datatype OptionValue = OptionValue(code: string, kelas: string, thnKurikulum: string, jur: string)

  /** `parseOptionValue`: split on `|`, take the first four pieces, a missing piece is "". */
  function ParseOptionValue(val: string): (r: OptionValue)
    ensures '|' !in r.code && '|' !in r.kelas && '|' !in r.thnKurikulum && '|' !in r.jur
    ensures '|' !in val ==> r == OptionValue(val, "", "", "")
  {
    var parts := Text.Split(val, '|');
    SplitWhole(val);
    OptionValue(Text.Piece(parts, 0), Text.Piece(parts, 1), Text.Piece(parts, 2), Text.Piece(parts, 3))
  }

  lemma SplitWhole(val: string)
    ensures '|' !in val ==> Text.Split(val, '|') == [val]
  {
    if '|' !in val {
      Text.SplitNoSeparator(val, '|');
    }
  }

  /** The value attribute the page writes for four fields. */
  function OptionValueText(v: OptionValue): string {
    Text.Join([v.code, v.kelas, v.thnKurikulum, v.jur], '|')
  }

  /** Four `|`-free fields written as `a|b|c|d` read back as themselves. */
  lemma ParseOptionValueRoundTrip(v: OptionValue)
    requires '|' !in v.code && '|' !in v.kelas && '|' !in v.thnKurikulum && '|' !in v.jur
    ensures ParseOptionValue(OptionValueText(v)) == v
  {
    var parts := [v.code, v.kelas, v.thnKurikulum, v.jur];
    Text.SplitJoin(parts, '|');
    ParseOptionValueOfPieces(OptionValueText(v), parts);
  }

  /** Pieces after the fourth are ignored: a value of four or more bar-free fields reads as its first four. */
  lemma ParseOptionValueIgnoresTail(parts: seq<string>)
    requires |parts| >= 4
    requires forall i :: 0 <= i < |parts| ==> '|' !in parts[i]
    ensures ParseOptionValue(Text.Join(parts, '|')) == OptionValue(parts[0], parts[1], parts[2], parts[3])
  {
    Text.SplitJoin(parts, '|');
    ParseOptionValueOfPieces(Text.Join(parts, '|'), parts);
  }

  /** With at least four pieces, the fields are the first four. */
  lemma ParseOptionValueOfPieces(val: string, parts: seq<string>)
    requires Text.Split(val, '|') == parts && |parts| >= 4
    ensures ParseOptionValue(val) == OptionValue(parts[0], parts[1], parts[2], parts[3])
  {
  }

  /* ---------- options read at load ---------- */

  /** The CAPTCHA budget for this load: `opts.maxCaptcha` when truthy, else 8. */
  function MaxAttempts(opts: Option<StoredOpts>): (m: int)
    ensures opts.Some? && opts.value.maxCaptcha.Some? && opts.value.maxCaptcha.value != 0
            ==> m == opts.value.maxCaptcha.value
    ensures !(opts.Some? && opts.value.maxCaptcha.Some? && opts.value.maxCaptcha.value != 0)
            ==> m == Hunting.DEFAULT_MAX_CAPTCHA
  {
    if opts.Some? && opts.value.maxCaptcha.Some? && opts.value.maxCaptcha.value != 0 then opts.value.maxCaptcha.value
    else Hunting.DEFAULT_MAX_CAPTCHA
  }

  /** The reload interval in milliseconds: `max(5, notifyIntervalSec) * 1000` when set, else 30000. */
  function IntervalMs(opts: Option<StoredOpts>): (ms: int)
    ensures ms >= 5000 && ms % 1000 == 0
    ensures opts.Some? && opts.value.notifyIntervalSec.Some? && opts.value.notifyIntervalSec.value >= 5
            ==> ms == opts.value.notifyIntervalSec.value * 1000
    ensures opts.Some? && opts.value.notifyIntervalSec.Some? && opts.value.notifyIntervalSec.value != 0
            && opts.value.notifyIntervalSec.value < 5
            ==> ms == 5000
    ensures !(opts.Some? && opts.value.notifyIntervalSec.Some? && opts.value.notifyIntervalSec.value != 0)
            ==> ms == 30000
  {
    if opts.Some? && opts.value.notifyIntervalSec.Some? && opts.value.notifyIntervalSec.value != 0 then
      var sec := opts.value.notifyIntervalSec.value;
      (if sec < 5 then 5 else sec) * 1000
    else 30000
  }

  /* ---------- init ---------- */

  /** The store after `init` has saved the classes read from the page. */
  function WithClasses(s: Store, parsed: seq<ClassOption>): Store {
    s.(classes := Some(parsed))
  }

  /**
   * `init` as written: store the parsed classes, run a watcher cycle when the
   * flag is truthy, then resume hunting, evaluating whatever pending record
   * the store now holds.
   */
  function Init(s: Store, parsed: seq<ClassOption>, grid: seq<seq<string>>, now: int): (r: Store)
    ensures r.priority == s.priority
    ensures !Truthy(s.notifyEnabled) && !(s.runMode == HUNTING && |s.priority| > 0)
            ==> r == WithClasses(s, parsed)
  {
    Hunting.Resume(Cycle(s, parsed, now), grid, parsed, MaxAttempts(s.opts), now)
  }

  /** The classes are stored, then one watcher cycle runs when the flag is truthy. */
  function Cycle(s: Store, parsed: seq<ClassOption>, now: int): (r: Store)
    ensures r.priority == s.priority
    ensures !Truthy(s.notifyEnabled) ==> r == WithClasses(s, parsed)
  {
    var s1 := WithClasses(s, parsed);
    if Truthy(s1.notifyEnabled) then Watcher.WatchCycle(s1, parsed, now) else s1
  }

  /** The watcher cycle of this load switched the run mode to hunting. */
  predicate HandedOff(s: Store, parsed: seq<ClassOption>, now: int) {
    var s1 := WithClasses(s, parsed);
    Truthy(s1.notifyEnabled) && s1.runMode != HUNTING
    && Watcher.WatchCycle(s1, parsed, now).runMode == HUNTING
  }

  /** The first attempt a hand-off prepares for class `c`. */
  function FreshAttempt(c: ClassOption, now: int): Pending {
    Pending(c.rawValue, c.valueCode, c.displayCode, c.name, c.kelas, c.kategori, 1, now)
  }

  /**
   * When this load's cycle hands off to a class whose fresh attempt reads as
   * a CAPTCHA error on this very page (it was never submitted), `init` as
   * written evaluates it anyway and asks for two more CAPTCHAs: the first
   * attempt at the class is stored with counter 3.
   */
  lemma InitHandOffBurnsAttempts(s: Store, parsed: seq<ClassOption>, grid: seq<seq<string>>, now: int)
    requires Watcher.Watching(s)
    requires var items := Watcher.Increases(Watcher.BaselineOf(s), parsed);
             items != [] && Watcher.TargetIndex(s.priority, items) < |s.priority|
    requires var c := s.priority[Watcher.TargetIndex(s.priority, Watcher.Increases(Watcher.BaselineOf(s), parsed))];
             c.rawValue != "" && Hunting.Retries(FreshAttempt(c, now), grid, parsed, MaxAttempts(s.opts))
    ensures var r := Init(s, parsed, grid, now);
            var t := Watcher.TargetIndex(s.priority, Watcher.Increases(Watcher.BaselineOf(s), parsed));
            HandedOff(s, parsed, now)
            && r.activeIndex == t && r.pending.Some? && r.pending.value.rawValue == s.priority[t].rawValue
            && r.pending.value.attempt == 3
  {
    var s1 := WithClasses(s, parsed);
    assert Watcher.CycleClasses(s1, parsed) == parsed;
    var items := Watcher.Increases(Watcher.BaselineOf(s), parsed);
    var t := Watcher.TargetIndex(s.priority, items);
    var c := Watcher.WatchCycle(s1, parsed, now);
    assert c.pending == Some(FreshAttempt(s.priority[t], now));
    Hunting.ResumeRetryCountsTwice(c, c.pending.value, grid, parsed, MaxAttempts(s.opts), now);
  }

  /**
   * The input that shows it: watcher on and idle, priority [A], baseline
   * {A: 30}, the page shows A with quota 40 and 35 seats taken and no
   * enrolled row; the first attempt at A is stored with counter 3.
   */
  lemma InitHandOffExample(now: int)
    ensures var a := ClassOption("Wajib", "A", "IF101", "IF101", "Algoritma", Some(3), "A", "IF", "2020",
                                 Some(Capacity(Some(35), Some(40))));
            var s := Store([a], IDLE, None, 0, None, Some(true), Some([BaselineEntry("A", 30, 0)]),
                           None, None, None);
            var r := Init(s, [a], [], now);
            r.activeIndex == 0 && r.pending.Some? && r.pending.value.rawValue == "A"
            && r.pending.value.attempt == 3
  {
    var a := ClassOption("Wajib", "A", "IF101", "IF101", "Algoritma", Some(3), "A", "IF", "2020",
                         Some(Capacity(Some(35), Some(40))));
    var b: Baseline := [BaselineEntry("A", 30, 0)];
    var s := Store([a], IDLE, None, 0, None, Some(true), Some(b), None, None, None);
    assert LastClass([a], "A") == Some(a);
    var items := Watcher.Increases(b, [a]);
    assert items != [];
    assert LastIndexOf([a], "A") == Some(0);
    assert Watcher.TargetIndex(s.priority, items) == 0;
    assert FindClass([a], "A") == Some(a);
    InitHandOffBurnsAttempts(s, [a], [], now);
  }

  /**
   * The same defect when the target reads as full on the page just loaded:
   * `init` as written skips the class the watcher found before any form is
   * submitted for it. The watcher is already off, and the engine moves on
   * to the next entry, or goes idle with nothing pending when the target
   * was the last one.
   */
  lemma InitHandOffSkipsFullTarget(s: Store, parsed: seq<ClassOption>, grid: seq<seq<string>>, now: int)
    requires Watcher.Watching(s)
    requires var items := Watcher.Increases(Watcher.BaselineOf(s), parsed);
             items != [] && Watcher.TargetIndex(s.priority, items) < |s.priority|
    requires var c := s.priority[Watcher.TargetIndex(s.priority, Watcher.Increases(Watcher.BaselineOf(s), parsed))];
             c.rawValue != "" && Hunting.Classify(FreshAttempt(c, now), grid, parsed) == Hunting.Full
    ensures var r := Init(s, parsed, grid, now);
            var t := Watcher.TargetIndex(s.priority, Watcher.Increases(Watcher.BaselineOf(s), parsed));
            HandedOff(s, parsed, now) && r.notifyEnabled == Some(false)
            && (t + 1 < |s.priority| ==>
                  r.runMode == HUNTING && r.activeIndex == t + 1 && r.pending.Some?
                  && r.pending.value.rawValue == s.priority[t + 1].rawValue && r.pending.value.attempt == 1)
            && (t + 1 >= |s.priority| ==> r.runMode == IDLE && r.pending.None?)
  {
    var s1 := WithClasses(s, parsed);
    assert Watcher.CycleClasses(s1, parsed) == parsed;
    var items := Watcher.Increases(Watcher.BaselineOf(s), parsed);
    var t := Watcher.TargetIndex(s.priority, items);
    var c := Watcher.WatchCycle(s1, parsed, now);
    assert c.pending == Some(FreshAttempt(s.priority[t], now));
    Hunting.ResumeAdvances(c, c.pending.value, grid, parsed, MaxAttempts(s.opts), now);
  }

  /**
   * The input that shows it: as in the example above, but the page shows A
   * with all 40 seats taken. The load ends idle, nothing pending, and the
   * watcher off, although A was never attempted.
   */
  lemma InitHandOffFullExample(now: int)
    ensures var a := ClassOption("Wajib", "A", "IF101", "IF101", "Algoritma", Some(3), "A", "IF", "2020",
                                 Some(Capacity(Some(40), Some(40))));
            var s := Store([a], IDLE, None, 0, None, Some(true), Some([BaselineEntry("A", 30, 0)]),
                           None, None, None);
            var r := Init(s, [a], [], now);
            r.runMode == IDLE && r.pending.None? && r.notifyEnabled == Some(false)
  {
    var a := ClassOption("Wajib", "A", "IF101", "IF101", "Algoritma", Some(3), "A", "IF", "2020",
                         Some(Capacity(Some(40), Some(40))));
    var b: Baseline := [BaselineEntry("A", 30, 0)];
    var s := Store([a], IDLE, None, 0, None, Some(true), Some(b), None, None, None);
    assert LastClass([a], "A") == Some(a);
    var items := Watcher.Increases(b, [a]);
    assert items != [];
    assert LastIndexOf([a], "A") == Some(0);
    assert Watcher.TargetIndex(s.priority, items) == 0;
    assert FindClass([a], "A") == Some(a);
    InitHandOffSkipsFullTarget(s, [a], [], now);
  }

  /**
   * `init` as intended: a hand-off made by this load's cycle has just
   * prepared its first attempt, so nothing is evaluated until the form is
   * submitted; otherwise resume, and a retry is not followed by a second
   * attempt.
   */
  function InitFixed(s: Store, parsed: seq<ClassOption>, grid: seq<seq<string>>, now: int): (r: Store)
    ensures r.priority == s.priority
    ensures HandedOff(s, parsed, now) ==> r == Watcher.WatchCycle(WithClasses(s, parsed), parsed, now)
  {
    var s2 := Cycle(s, parsed, now);
    if HandedOff(s, parsed, now) then s2
    else Hunting.ResumeFixed(s2, grid, parsed, MaxAttempts(s.opts), now)
  }

  /**
   * After a hand-off in this load the corrected `init` leaves the first
   * attempt at the target class, with counter 1, at the target's index.
   */
  lemma InitFixedHandOffFresh(s: Store, parsed: seq<ClassOption>, grid: seq<seq<string>>, now: int)
    requires HandedOff(s, parsed, now)
    requires Watcher.WatchCycle(WithClasses(s, parsed), parsed, now).activeIndex < |s.priority|
    ensures var r := InitFixed(s, parsed, grid, now);
            r.runMode == HUNTING && r.pending.Some?
            && r.pending.value.rawValue == s.priority[r.activeIndex].rawValue
            && r.pending.value.attempt == 1
  {
  }

  /**
   * Without a hand-off in this load and without a retry to make, the
   * corrected `init` does exactly what the written one does.
   */
  lemma InitFixedAgreesElsewhere(s: Store, parsed: seq<ClassOption>, grid: seq<seq<string>>, now: int)
    requires !HandedOff(s, parsed, now)
    requires var s2 := Cycle(s, parsed, now);
             !(Hunting.HasPending(s2) && Hunting.Retries(s2.pending.value, grid, parsed, MaxAttempts(s.opts)))
    ensures InitFixed(s, parsed, grid, now) == Init(s, parsed, grid, now)
  {
    var s2 := Cycle(s, parsed, now);
    Hunting.ResumeFixedAgreesElsewhere(s2, grid, parsed, MaxAttempts(s.opts), now);
  }

  /* ---------- messages to the content script ---------- */

  /**
   * `START_HUNT`: clear the pending record, go back to index 0, set the run
   * mode to hunting, then `huntNext()`.
   */
  function StartHunt(s: Store, now: int): (r: Store)
    ensures r.runMode == HUNTING && r.activeIndex == 0 && r.priority == s.priority
    ensures |s.priority| > 0 ==> r.pending.Some? && r.pending.value.rawValue == s.priority[0].rawValue
                                 && r.pending.value.attempt == 1
    ensures |s.priority| == 0 ==> r.pending.None?
  {
    Hunting.HuntNext(s.(pending := None, activeIndex := 0, runMode := HUNTING), false, now)
  }

  /**
   * `PRIORITY_UPDATED`: reset the index to 0, rebuild the baseline when the
   * watcher flag is truthy, then `huntNext(true)`.
   */
  function PriorityUpdated(s: Store, parsed: seq<ClassOption>, now: int): (r: Store)
    ensures r.priority == s.priority
    ensures s.runMode != HUNTING ==> r.pending == s.pending && r.activeIndex == 0 && r.runMode == s.runMode
    ensures s.runMode == HUNTING && |s.priority| > 0 ==>
              r.activeIndex == 0 && r.pending.Some? && r.pending.value.rawValue == s.priority[0].rawValue
    ensures !Truthy(s.notifyEnabled) ==> r.baseline == s.baseline
    ensures Truthy(s.notifyEnabled) ==>
              r.baseline == Some(Watcher.Build(s.priority, if s.classes.Some? then s.classes.value else parsed, now))
  {
    var s1 := s.(activeIndex := 0);
    var s2 := if Truthy(s1.notifyEnabled) then Watcher.BuildBaseline(s1, parsed, now) else s1;
    Hunting.HuntNext(s2, true, now)
  }

  /**
   * The rebuild on `PRIORITY_UPDATED` keeps the watcher from mistaking the
   * new order for a rise: while watching over a stored class list, a cycle
   * over that stored list, before any reload, sees no rise and hands
   * nothing off.
   */
  lemma PriorityUpdatedNoHandOff(s: Store, parsed: seq<ClassOption>, now: int, now2: int)
    requires Watcher.Watching(s) && s.classes.Some? && |s.classes.value| > 0
    ensures var u := PriorityUpdated(s, parsed, now);
            var r := Watcher.WatchCycle(u, s.classes.value, now2);
            Watcher.Watching(u) && r.runMode == IDLE && r.notifyEnabled == Some(true)
            && r.pending == s.pending && r.activeIndex == 0
  {
    var u := PriorityUpdated(s, parsed, now);
    assert u.classes == s.classes;
    Watcher.NoRiseAgainstOwnBuild(s.priority, s.classes.value, now);
  }

  /**
   * The same for the reload that follows, when the page shows the stored
   * classes: `init` neither hands off nor starts a hunt.
   */
  lemma PriorityUpdatedThenReload(s: Store, cs: seq<ClassOption>, grid: seq<seq<string>>, now: int, now2: int)
    requires Watcher.Watching(s) && s.classes == Some(cs) && |cs| > 0
    ensures var r := Init(PriorityUpdated(s, cs, now), cs, grid, now2);
            r.runMode == IDLE && r.notifyEnabled == Some(true) && r.pending == s.pending && r.activeIndex == 0
  {
    var u := PriorityUpdated(s, cs, now);
    assert WithClasses(u, cs) == u;
    PriorityUpdatedNoHandOff(s, cs, now, now2);
  }
}
