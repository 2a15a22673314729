/**
 * The hunting engine of the content script (content.js): choose the candidate
 * at the active index, record a pending attempt with its attempt counter,
 * and after the page reloads classify the outcome and advance, retry or give
 * up. The page is an input: `grid` holds the trimmed cell texts of the
 * result table's rows, `parsed` the classes read from the page.
 */
module Hunting {
  import opened Wrappers
  import opened Model
  import Background

  /** MAX_CAPTCHA_ATTEMPTS until the options say otherwise (content.js:113). */
  const DEFAULT_MAX_CAPTCHA: int := 8

  /** How the page after a reload is read. */
  datatype Outcome = Success | Full | CaptchaError

  /** `getAttempt`: the stored counter when the stored pending is for the same key, else 0. */
  function GetAttempt(s: Store, raw: string): nat {
    if s.pending.Some? && s.pending.value.rawValue == raw then s.pending.value.attempt else 0
  }

  /** `a || b` on strings. */
  function OrElse(a: string, b: string): string {
    if a == "" then b else a
  }

  /** The caption sent with `NEED_CAPTCHA` for a pending attempt. */
  function MetaOf(p: Pending): CaptchaMeta {
    CaptchaMeta(OrElse(p.displayCode, p.valueCode) + " \U{2014} Kelas " + p.kelas,
                p.name, p.kelas, p.kategori, if p.attempt == 0 then 1 else p.attempt)
  }

  /**
   * `tryTakeCandidate`, store part: record the pending attempt for `c` and
   * the active index, then publish the CAPTCHA caption. The counter continues
   * from the stored pending only when it is for the same key.
   */
  function TryTake(s: Store, c: ClassOption, index: nat, now: int): (r: Store)
    ensures r.pending.Some? && r.activeIndex == index
    ensures r.pending.value.rawValue == c.rawValue && r.pending.value.valueCode == c.valueCode
    ensures r.pending.value.displayCode == c.displayCode && r.pending.value.kelas == c.kelas
    ensures s.pending.Some? && s.pending.value.rawValue == c.rawValue
            ==> r.pending.value.attempt == s.pending.value.attempt + 1
    ensures !(s.pending.Some? && s.pending.value.rawValue == c.rawValue) ==> r.pending.value.attempt == 1
    ensures r.lastCaptcha.Some? && r.lastCaptcha.value.meta.attempt == r.pending.value.attempt
    ensures r.(pending := s.pending, activeIndex := s.activeIndex, lastCaptcha := s.lastCaptcha) == s
  {
    var p := Pending(c.rawValue, c.valueCode, c.displayCode, c.name, c.kelas, c.kategori,
                     GetAttempt(s, c.rawValue) + 1, now);
    Background.NeedCaptcha(s.(pending := Some(p), activeIndex := index), MetaOf(p), now)
  }

  /** `pendingToCandidate`: the candidate rebuilt from the stale pending record. */
  function PendingToCandidate(p: Pending): ClassOption {
    ClassOption(p.kategori, p.rawValue, p.valueCode, p.displayCode, p.name, None, p.kelas, "", "", None)
  }

  /**
   * Re-attempting from the stale pending record keeps every field that names
   * the class, and the counter moves on by one.
   */
  lemma RetakeFromPending(s: Store, p: Pending, index: nat, now: int)
    requires s.pending == Some(p)
    ensures TryTake(s, PendingToCandidate(p), index, now).pending
            == Some(p.(attempt := p.attempt + 1, ts := now))
  {
  }

  /** The counter counts consecutive attempts at one key and restarts at 1 for another key. */
  lemma AttemptCounter(s: Store, c: ClassOption, d: ClassOption, i: nat, j: nat, now: int)
    ensures GetAttempt(TryTake(s, c, i, now), c.rawValue) == GetAttempt(s, c.rawValue) + 1
    ensures d.rawValue != c.rawValue ==>
            TryTake(TryTake(s, c, i, now), d, j, now).pending.value.attempt == 1
  {
  }

  /**
   * `huntNext`: does nothing unless hunting with a non-empty priority list;
   * otherwise takes index 0 (`forceTop`) or the stored index, goes idle when
   * that is past the end, and attempts exactly that entry when it is not.
   */
  function HuntNext(s: Store, forceTop: bool, now: int): (r: Store)
    ensures s.runMode != HUNTING || |s.priority| == 0 ==> r == s
    ensures s.runMode == HUNTING && |s.priority| > 0 && (if forceTop then 0 else s.activeIndex) >= |s.priority|
            ==> r == s.(runMode := IDLE, pending := None)
    ensures s.runMode == HUNTING && (if forceTop then 0 else s.activeIndex) < |s.priority|
            ==> var idx := if forceTop then 0 else s.activeIndex;
                r.runMode == HUNTING && r.activeIndex == idx && r.pending.Some?
                && r.pending.value.rawValue == s.priority[idx].rawValue
    ensures r.priority == s.priority && r.baseline == s.baseline && r.notifyEnabled == s.notifyEnabled
  {
    if s.runMode != HUNTING || |s.priority| == 0 then s
    else
      var idx := if forceTop then 0 else s.activeIndex;
      if idx >= |s.priority| then s.(runMode := IDLE, pending := None)
      else TryTake(s, s.priority[idx], idx, now)
  }

  /** Once the list is exhausted the engine is idle, and a further step changes nothing. */
  lemma HuntNextSettles(s: Store, now: int, later: int)
    requires s.runMode == HUNTING && |s.priority| > 0 && s.activeIndex >= |s.priority|
    ensures HuntNext(s, false, now).runMode != HUNTING
    ensures HuntNext(HuntNext(s, false, now), false, later) == HuntNext(s, false, now)
  {
  }

  /* ---------- reading the page after a reload ---------- */

  /** One result-table row lists `code` in cell 0 and `kelas` in cell 3. */
  predicate RowMatches(row: seq<string>, code: string, kelas: string) {
    |row| >= 4 && row[0] == code && row[3] == kelas
  }

  /** The result grid lists the class (`isCandidateInGrid`, as a specification). */
  predicate InGrid(rows: seq<seq<string>>, code: string, kelas: string) {
    exists i :: 0 <= i < |rows| && RowMatches(rows[i], code, kelas)
  }

  /** `isCandidateInGrid`: scan the rows until one with at least four cells matches. */
  method IsCandidateInGrid(rows: seq<seq<string>>, code: string, kelas: string) returns (found: bool)
    ensures found <==> InGrid(rows, code, kelas)
  {
    var i := 0;
    while i < |rows|
      invariant 0 <= i <= |rows|
      invariant forall j :: 0 <= j < i ==> !RowMatches(rows[j], code, kelas)
    {
      var row := rows[i];
      if |row| >= 4 && row[0] == code && row[3] == kelas {
        return true;
      }
      i := i + 1;
    }
    return false;
  }

  /** Both counts are numbers and the quota is 0 or already reached. */
  predicate FullCapacity(k: Capacity) {
    k.terisi.Some? && k.kuota.Some? && (k.kuota.value == 0 || k.terisi.value >= k.kuota.value)
  }

  /** `evaluateAfterReload`'s reading of the page. */
  function Classify(p: Pending, grid: seq<seq<string>>, parsed: seq<ClassOption>): Outcome {
    if InGrid(grid, p.displayCode, p.kelas) || InGrid(grid, p.valueCode, p.kelas) then Success
    else
      var found := FindClass(parsed, p.rawValue);
      if found.Some? && found.value.kapasitas.Some? && FullCapacity(found.value.kapasitas.value) then Full
      else CaptchaError
  }

  /**
   * Success exactly when a row of four or more cells shows the display or
   * value code and the section; otherwise Full exactly when the first parsed
   * class with the key has numeric counts with quota 0 or reached; otherwise
   * a CAPTCHA error, in particular whenever the key is missing from the parse.
   */
  lemma ClassifySpec(p: Pending, grid: seq<seq<string>>, parsed: seq<ClassOption>)
    ensures Classify(p, grid, parsed) == Success <==>
            exists i :: 0 <= i < |grid| && |grid[i]| >= 4 && grid[i][3] == p.kelas
                        && (grid[i][0] == p.displayCode || grid[i][0] == p.valueCode)
    ensures Classify(p, grid, parsed) == Full <==>
            Classify(p, grid, parsed) != Success
            && exists i :: 0 <= i < |parsed| && parsed[i].rawValue == p.rawValue
                           && (forall j :: 0 <= j < i ==> parsed[j].rawValue != p.rawValue)
                           && parsed[i].kapasitas.Some? && FullCapacity(parsed[i].kapasitas.value)
    ensures !Listed(parsed, p.rawValue) && Classify(p, grid, parsed) != Success
            ==> Classify(p, grid, parsed) == CaptchaError
  {
    var k := FindIndex(parsed, p.rawValue);
    if k >= 0 {
      assert FindClass(parsed, p.rawValue) == Some(parsed[k]);
      forall i | 0 <= i < |parsed| && parsed[i].rawValue == p.rawValue
                 && (forall j :: 0 <= j < i ==> parsed[j].rawValue != p.rawValue)
        ensures i == k
      {
      }
    } else {
      assert FindClass(parsed, p.rawValue).None?;
    }
  }

  /** Success, Full and exhausted retries all end alike: pending cleared, next index. */
  function Advance(s: Store): (r: Store)
    ensures r.pending.None? && r.activeIndex == s.activeIndex + 1
    ensures r.(pending := s.pending, activeIndex := s.activeIndex) == s
  {
    s.(pending := None, activeIndex := s.activeIndex + 1)
  }

  /** `pending.attempt || 1`. */
  function AttemptsOf(p: Pending): nat {
    if p.attempt == 0 then 1 else p.attempt
  }

  /** The evaluation leads to a retry of the same key rather than an advance. */
  predicate Retries(p: Pending, grid: seq<seq<string>>, parsed: seq<ClassOption>, max: int) {
    Classify(p, grid, parsed) == CaptchaError && AttemptsOf(p) < max
  }

  /**
   * `evaluateAfterReload`: advance on Success, Full or an exhausted CAPTCHA
   * budget; otherwise re-attempt the same key (from the fresh parse if it is
   * there, else from the stale record) at the unchanged stored index.
   */
  function Evaluate(s: Store, p: Pending, grid: seq<seq<string>>, parsed: seq<ClassOption>, max: int, now: int): (r: Store)
    ensures !Retries(p, grid, parsed, max) ==> r == Advance(s)
    ensures Retries(p, grid, parsed, max) ==>
            r.pending.Some? && r.pending.value.rawValue == p.rawValue && r.activeIndex == s.activeIndex
            && r.pending.value.attempt == GetAttempt(s, p.rawValue) + 1
    ensures r.priority == s.priority && r.runMode == s.runMode && r.baseline == s.baseline
  {
    match Classify(p, grid, parsed)
    case Success => Advance(s)
    case Full => Advance(s)
    case CaptchaError =>
      if AttemptsOf(p) >= max then Advance(s)
      else
        var c := FindClass(parsed, p.rawValue).GetOr(PendingToCandidate(p));
        TryTake(s, c, s.activeIndex, now)
  }

  /** There is a recorded attempt to evaluate (`pendingAction?.rawValue`). */
  predicate HasPending(s: Store) {
    s.pending.Some? && s.pending.value.rawValue != ""
  }

  /**
   * The resume step of `init` as written: when hunting with a non-empty list,
   * evaluate the recorded attempt if there is one, then always `huntNext()`.
   */
  function Resume(s: Store, grid: seq<seq<string>>, parsed: seq<ClassOption>, max: int, now: int): (r: Store)
    ensures !(s.runMode == HUNTING && |s.priority| > 0) ==> r == s
    ensures r.priority == s.priority && r.baseline == s.baseline
  {
    if |s.priority| > 0 && s.runMode == HUNTING then
      var s1 := if HasPending(s) then Evaluate(s, s.pending.value, grid, parsed, max, now) else s;
      HuntNext(s1, false, now)
    else s
  }

  /**
   * On the retry path `Resume` prepares the same candidate twice in one load:
   * once from the evaluation and once more from `huntNext()`, so the counter
   * moves on by two per reload.
   */
  lemma ResumeRetryCountsTwice(s: Store, p: Pending, grid: seq<seq<string>>, parsed: seq<ClassOption>, max: int, now: int)
    requires s.runMode == HUNTING && s.pending == Some(p) && p.rawValue != ""
    requires s.activeIndex < |s.priority| && s.priority[s.activeIndex].rawValue == p.rawValue
    requires Retries(p, grid, parsed, max)
    ensures var r := Resume(s, grid, parsed, max, now);
            r.pending.Some? && r.pending.value.rawValue == p.rawValue
            && r.activeIndex == s.activeIndex && r.pending.value.attempt == p.attempt + 2
  {
    var s1 := Evaluate(s, p, grid, parsed, max, now);
    assert s1.pending.value.attempt == p.attempt + 1;
    assert s1.priority[s1.activeIndex].rawValue == p.rawValue;
  }

  /**
   * After a Success, Full or exhausted attempt at index `i`, the same load
   * moves on to entry `i + 1` with a fresh counter, or goes idle past the end.
   */
  lemma ResumeAdvances(s: Store, p: Pending, grid: seq<seq<string>>, parsed: seq<ClassOption>, max: int, now: int)
    requires s.runMode == HUNTING && |s.priority| > 0 && s.pending == Some(p) && p.rawValue != ""
    requires !Retries(p, grid, parsed, max)
    ensures var r := Resume(s, grid, parsed, max, now);
            if s.activeIndex + 1 < |s.priority| then
              r.runMode == HUNTING && r.activeIndex == s.activeIndex + 1 && r.pending.Some?
              && r.pending.value.rawValue == s.priority[s.activeIndex + 1].rawValue
              && r.pending.value.attempt == 1
            else r.runMode == IDLE && r.pending.None?
  {
  }

  /**
   * The resume step with the retry counted once: after a retry the candidate
   * is already prepared, so `huntNext()` runs only when the evaluation
   * advanced (or there was nothing to evaluate).
   */
  function ResumeFixed(s: Store, grid: seq<seq<string>>, parsed: seq<ClassOption>, max: int, now: int): (r: Store)
    ensures !(s.runMode == HUNTING && |s.priority| > 0) ==> r == s
    ensures s.runMode == HUNTING && |s.priority| > 0 && HasPending(s) && Retries(s.pending.value, grid, parsed, max)
            ==> r.pending.Some? && r.pending.value.rawValue == s.pending.value.rawValue
                && r.activeIndex == s.activeIndex && r.pending.value.attempt == s.pending.value.attempt + 1
  {
    if |s.priority| > 0 && s.runMode == HUNTING then
      if HasPending(s) && Retries(s.pending.value, grid, parsed, max) then
        Evaluate(s, s.pending.value, grid, parsed, max, now)
      else
        var s1 := if HasPending(s) then Evaluate(s, s.pending.value, grid, parsed, max, now) else s;
        HuntNext(s1, false, now)
    else s
  }

  /** The correction touches only the retry path. */
  lemma ResumeFixedAgreesElsewhere(s: Store, grid: seq<seq<string>>, parsed: seq<ClassOption>, max: int, now: int)
    requires !(HasPending(s) && Retries(s.pending.value, grid, parsed, max))
    ensures ResumeFixed(s, grid, parsed, max, now) == Resume(s, grid, parsed, max, now)
  {
  }
}
