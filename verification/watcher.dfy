/**
 * The quota watcher ("Notify Extended") of the content script: a baseline of
 * quotas for the priority classes, a cycle that compares the freshly parsed
 * quotas against it, and the hand-off to hunting when some quota went up.
 * There is no separate queue: the hand-off only points the active index at
 * the best-ranked increased class, and hunting continues linearly from there.
 */
module Watcher {
  import opened Wrappers
  import opened Model
  import Background
  import Hunting

  /** The sort key of an increased class that is not in the priority list. */
  const UNRANKED: int := 1000000000

  /** The class is a priority class with a numeric quota, so it enters the baseline. */
  predicate Counts(pr: seq<ClassOption>, c: ClassOption) {
    Listed(pr, c.rawValue) && Kuota(c).Some?
  }

  /** `buildNotifyBaseline`: walk the classes in page order, writing each priority class with a numeric quota. */
  function Build(pr: seq<ClassOption>, cl: seq<ClassOption>, now: int): Baseline
    decreases |cl|
  {
    if |cl| == 0 then []
    else
      var b := Build(pr, cl[..|cl| - 1], now);
      var c := cl[|cl| - 1];
      if Counts(pr, c) then Put(b, BaselineEntry(c.rawValue, Kuota(c).value, now)) else b
  }

  /** Some parsed class with key `k` has a numeric quota. */
  predicate HasNumeric(cl: seq<ClassOption>, k: string) {
    exists i :: 0 <= i < |cl| && cl[i].rawValue == k && Kuota(cl[i]).Some?
  }

  /** Position `i` holds the last class with key `k` whose quota is numeric. */
  predicate LastNumeric(cl: seq<ClassOption>, k: string, i: int) {
    0 <= i < |cl| && cl[i].rawValue == k && Kuota(cl[i]).Some?
    && forall j :: i < j < |cl| ==> !(cl[j].rawValue == k && Kuota(cl[j]).Some?)
  }

  lemma HasNumericSnoc(cl: seq<ClassOption>, k: string)
    requires |cl| > 0
    ensures HasNumeric(cl, k) <==>
            HasNumeric(cl[..|cl| - 1], k) || (cl[|cl| - 1].rawValue == k && Kuota(cl[|cl| - 1]).Some?)
  {
    var init := cl[..|cl| - 1];
    if HasNumeric(init, k) {
      var i :| 0 <= i < |init| && init[i].rawValue == k && Kuota(init[i]).Some?;
      assert cl[i] == init[i];
    }
    if HasNumeric(cl, k) && !(cl[|cl| - 1].rawValue == k && Kuota(cl[|cl| - 1]).Some?) {
      var i :| 0 <= i < |cl| && cl[i].rawValue == k && Kuota(cl[i]).Some?;
      assert init[i] == cl[i];
    }
  }

  lemma LastNumericSnoc(cl: seq<ClassOption>, k: string, i: int)
    requires |cl| > 0 && LastNumeric(cl[..|cl| - 1], k, i)
    requires !(cl[|cl| - 1].rawValue == k && Kuota(cl[|cl| - 1]).Some?)
    ensures LastNumeric(cl, k, i) && cl[i] == cl[..|cl| - 1][i]
  {
  }

  /**
   * The baseline holds a key exactly when it is a priority key some parsed
   * class with a numeric quota carries, and it maps the key to the quota of
   * the last such class.
   */
  lemma {:induction false} BuildLookup(pr: seq<ClassOption>, cl: seq<ClassOption>, now: int, k: string)
    ensures Lookup(Build(pr, cl, now), k).Some? <==> Listed(pr, k) && HasNumeric(cl, k)
    ensures Lookup(Build(pr, cl, now), k).Some? ==>
            exists i :: LastNumeric(cl, k, i) && Kuota(cl[i]) == Some(Lookup(Build(pr, cl, now), k).value.kuota)
    decreases |cl|
  {
    if |cl| > 0 {
      var n := |cl| - 1;
      var init := cl[..n];
      var c := cl[n];
      var b := Build(pr, init, now);
      var r := Build(pr, cl, now);
      BuildLookup(pr, init, now, k);
      HasNumericSnoc(cl, k);
      if Counts(pr, c) && k == c.rawValue {
        var e := BaselineEntry(c.rawValue, Kuota(c).value, now);
        assert r == Put(b, e);
        PutLookup(b, e, k);
        assert LastNumeric(cl, k, n);
      } else {
        if Counts(pr, c) {
          PutLookup(b, BaselineEntry(c.rawValue, Kuota(c).value, now), k);
        }
        assert Lookup(r, k) == Lookup(b, k);
        if Lookup(b, k).Some? {
          var i :| LastNumeric(init, k, i) && Kuota(init[i]) == Some(Lookup(b, k).value.kuota);
          LastNumericSnoc(cl, k, i);
        }
      }
    }
  }

  /**
   * An entry a built baseline may hold: under a priority key, with the build
   * time and the quota of the last parsed class with that key and a numeric
   * quota.
   */
  ghost predicate BuiltEntry(pr: seq<ClassOption>, cl: seq<ClassOption>, now: int, e: BaselineEntry) {
    Listed(pr, e.rawValue) && e.ts == now
    && exists i :: LastNumeric(cl, e.rawValue, i) && Kuota(cl[i]) == Some(e.kuota)
  }

  /** Every entry of a built baseline is a `BuiltEntry`. */
  lemma {:induction false} BuildEntries(pr: seq<ClassOption>, cl: seq<ClassOption>, now: int)
    ensures forall e :: e in Build(pr, cl, now) ==> BuiltEntry(pr, cl, now, e)
    decreases |cl|
  {
    if |cl| > 0 {
      var init := cl[..|cl| - 1];
      BuildEntries(pr, init, now);
      forall e | e in Build(pr, cl, now) ensures BuiltEntry(pr, cl, now, e) {
        BuildEntryStep(pr, cl, Build(pr, init, now), now, e);
      }
    }
  }

  /** One class more at the end of the page: the entries of the longer build are still justified. */
  lemma BuildEntryStep(pr: seq<ClassOption>, cl: seq<ClassOption>, b: Baseline, now: int, e: BaselineEntry)
    requires |cl| > 0 && b == Build(pr, cl[..|cl| - 1], now)
    requires forall x :: x in b ==> BuiltEntry(pr, cl[..|cl| - 1], now, x)
    requires e in Build(pr, cl, now)
    ensures BuiltEntry(pr, cl, now, e)
  {
    var n := |cl| - 1;
    var init := cl[..n];
    var c := cl[n];
    if Counts(pr, c) {
      var e' := BaselineEntry(c.rawValue, Kuota(c).value, now);
      PutMembers(b, e');
      if e == e' {
        assert LastNumeric(cl, e.rawValue, n);
        return;
      }
      assert e in b && e.rawValue != c.rawValue;
    } else {
      assert e in b;
    }
    assert BuiltEntry(pr, init, now, e);
    var i :| LastNumeric(init, e.rawValue, i) && Kuota(init[i]) == Some(e.kuota);
    LastNumericSnoc(cl, e.rawValue, i);
  }

  /** Building twice from the same lists gives the same keys, order and quotas; only `ts` differs. */
  lemma {:induction false} BuildIgnoresClock(pr: seq<ClassOption>, cl: seq<ClassOption>, t1: int, t2: int)
    ensures SameQuotas(Build(pr, cl, t1), Build(pr, cl, t2))
    decreases |cl|
  {
    if |cl| > 0 {
      var c := cl[|cl| - 1];
      BuildIgnoresClock(pr, cl[..|cl| - 1], t1, t2);
      if Counts(pr, c) {
        PutSameQuotas(Build(pr, cl[..|cl| - 1], t1), Build(pr, cl[..|cl| - 1], t2),
                      BaselineEntry(c.rawValue, Kuota(c).value, t1), BaselineEntry(c.rawValue, Kuota(c).value, t2));
      }
    }
  }

  /** The quota the current page shows for a key: the last parsed class with it (`nowMap.get`). */
  function NowKuota(cl: seq<ClassOption>, raw: string): Option<int> {
    var c := LastClass(cl, raw);
    if c.Some? then Kuota(c.value) else None
  }

  /** The cycle's refresh when nothing went up: walk the priority list, keep keys whose current quota is numeric. */
  function Refresh(pr: seq<ClassOption>, cl: seq<ClassOption>, now: int): Baseline
    decreases |pr|
  {
    if |pr| == 0 then []
    else
      var b := Refresh(pr[..|pr| - 1], cl, now);
      var raw := pr[|pr| - 1].rawValue;
      var q := NowKuota(cl, raw);
      if q.Some? then Put(b, BaselineEntry(raw, q.value, now)) else b
  }

  /** The refreshed baseline holds exactly the priority keys whose current quota is numeric, with that quota. */
  lemma {:induction false} RefreshLookup(pr: seq<ClassOption>, cl: seq<ClassOption>, now: int, k: string)
    ensures Lookup(Refresh(pr, cl, now), k) ==
            if Listed(pr, k) && NowKuota(cl, k).Some? then Some(BaselineEntry(k, NowKuota(cl, k).value, now)) else None
    decreases |pr|
  {
    if |pr| > 0 {
      var init := pr[..|pr| - 1];
      var raw := pr[|pr| - 1].rawValue;
      var b := Refresh(init, cl, now);
      RefreshLookup(init, cl, now, k);
      if NowKuota(cl, raw).Some? {
        PutLookup(b, BaselineEntry(raw, NowKuota(cl, raw).value, now), k);
      }
      ListedSnoc(pr, k);
    }
  }

  /** One entry of `extendedItems`. */
  datatype Extended = Extended(
    rawValue: string,
    displayCode: string,
    name: string,
    kelas: string,
    oldKuota: int,
    newKuota: int,
    delta: int,
    kategori: string)

  /** The comparison for one baseline entry: an item when the current quota is a number above the old one. */
  function IncreaseOf(e: BaselineEntry, cl: seq<ClassOption>): Option<Extended> {
    var c := LastClass(cl, e.rawValue);
    if c.Some? && Kuota(c.value).Some? && Kuota(c.value).value > e.kuota then
      var q := Kuota(c.value).value;
      Some(Extended(e.rawValue, Hunting.OrElse(c.value.displayCode, c.value.valueCode), c.value.name,
                    c.value.kelas, e.kuota, q, q - e.kuota, c.value.kategori))
    else None
  }

  /**
   * The comparison loop over the baseline in key order: entries absent from
   * the page or without a numeric current quota are skipped, and only a
   * strict rise is reported, so every delta is positive.
   */
  function Increases(b: seq<BaselineEntry>, cl: seq<ClassOption>): (items: seq<Extended>)
    ensures forall j :: 0 <= j < |items| ==>
              items[j].delta > 0 && items[j].delta == items[j].newKuota - items[j].oldKuota
              && NowKuota(cl, items[j].rawValue) == Some(items[j].newKuota)
    decreases |b|
  {
    if |b| == 0 then []
    else
      var rest := Increases(b[1..], cl);
      var inc := IncreaseOf(b[0], cl);
      if inc.Some? then
        var r := [inc.value] + rest;
        assert forall j :: 1 <= j < |r| ==> r[j] == rest[j - 1];
        r
      else rest
  }

  /** Some reported item carries key `k`. */
  predicate Reported(items: seq<Extended>, k: string) {
    exists j :: 0 <= j < |items| && items[j].rawValue == k
  }

  /** Some baseline entry under `k` holds a quota below the current numeric one. */
  predicate Rose(b: seq<BaselineEntry>, cl: seq<ClassOption>, k: string) {
    exists i :: 0 <= i < |b| && b[i].rawValue == k && Above(b[i], cl)
  }

  /** The current quota of the entry's class is numeric and above the recorded one. */
  predicate Above(e: BaselineEntry, cl: seq<ClassOption>) {
    NowKuota(cl, e.rawValue).Some? && NowKuota(cl, e.rawValue).value > e.kuota
  }

  lemma ReportedCons(x: Extended, rest: seq<Extended>, k: string)
    ensures Reported([x] + rest, k) <==> x.rawValue == k || Reported(rest, k)
  {
    var items := [x] + rest;
    assert items[0] == x;
    if Reported(rest, k) {
      var j :| 0 <= j < |rest| && rest[j].rawValue == k;
      assert items[j + 1] == rest[j];
    }
    if Reported(items, k) && x.rawValue != k {
      var j :| 0 <= j < |items| && items[j].rawValue == k;
      assert rest[j - 1] == items[j];
    }
  }

  lemma RoseCons(b: seq<BaselineEntry>, cl: seq<ClassOption>, k: string)
    requires |b| > 0
    ensures Rose(b, cl, k) <==> (b[0].rawValue == k && Above(b[0], cl)) || Rose(b[1..], cl, k)
  {
    if Rose(b[1..], cl, k) {
      var i :| 0 <= i < |b[1..]| && b[1..][i].rawValue == k && Above(b[1..][i], cl);
      assert b[i + 1] == b[1..][i];
    }
    if Rose(b, cl, k) && !(b[0].rawValue == k && Above(b[0], cl)) {
      var i :| 0 <= i < |b| && b[i].rawValue == k && Above(b[i], cl);
      assert b[1..][i - 1] == b[i];
    }
  }

  lemma IncreaseOfSpec(e: BaselineEntry, cl: seq<ClassOption>)
    ensures IncreaseOf(e, cl).Some? <==> Above(e, cl)
    ensures IncreaseOf(e, cl).Some? ==> IncreaseOf(e, cl).value.rawValue == e.rawValue
  {
  }

  /** An item is reported for a key exactly when a baseline entry under it saw its quota rise. */
  lemma {:induction false} IncreasesIff(b: seq<BaselineEntry>, cl: seq<ClassOption>, k: string)
    ensures Reported(Increases(b, cl), k) <==> Rose(b, cl, k)
    decreases |b|
  {
    if |b| > 0 {
      IncreasesIff(b[1..], cl, k);
      RoseCons(b, cl, k);
      IncreaseOfSpec(b[0], cl);
      var inc := IncreaseOf(b[0], cl);
      if inc.Some? {
        ReportedCons(inc.value, Increases(b[1..], cl), k);
      }
    }
  }

  /** Against a baseline no quota has risen above, the comparison reports nothing. */
  lemma {:induction false} NoRiseNoItems(b: seq<BaselineEntry>, cl: seq<ClassOption>)
    requires forall i :: 0 <= i < |b| ==> IncreaseOf(b[i], cl).None?
    ensures Increases(b, cl) == []
    decreases |b|
  {
    if |b| > 0 {
      NoRiseNoItems(b[1..], cl);
    }
  }

  /** A baseline just built from a page shows no rise against that same page. */
  lemma NoRiseAgainstOwnBuild(pr: seq<ClassOption>, cl: seq<ClassOption>, now: int)
    ensures Increases(Build(pr, cl, now), cl) == []
  {
    var b := Build(pr, cl, now);
    BuildEntries(pr, cl, now);
    forall i | 0 <= i < |b| ensures IncreaseOf(b[i], cl).None? {
      var e := b[i];
      assert e in b;
      var k :| LastNumeric(cl, e.rawValue, k) && Kuota(cl[k]) == Some(e.kuota);
      var last := LastIndexOf(cl, e.rawValue);
      assert last.Some? && last.value >= k;
      if Kuota(cl[last.value]).Some? {
        assert last.value == k;
      }
    }
    NoRiseNoItems(b, cl);
  }

  /** `pOrder.get(raw) ?? 1e9`: the comparator's key. */
  function RankKey(pr: seq<ClassOption>, raw: string): int {
    var i := LastIndexOf(pr, raw);
    if i.Some? then i.value else UNRANKED
  }

  /**
   * The head of the stable sort of the increased items by rank key: the
   * first item whose key is minimal.
   */
  function SortHead(items: seq<Extended>, pr: seq<ClassOption>): (m: nat)
    requires |items| > 0
    ensures m < |items|
    ensures forall j :: 0 <= j < |items| ==> RankKey(pr, items[m].rawValue) <= RankKey(pr, items[j].rawValue)
    ensures forall j :: 0 <= j < m ==> RankKey(pr, items[j].rawValue) > RankKey(pr, items[m].rawValue)
    decreases |items|
  {
    if |items| == 1 then 0
    else
      var m := SortHead(items[1..], pr) + 1;
      if RankKey(pr, items[0].rawValue) <= RankKey(pr, items[m].rawValue) then 0 else m
  }

  /** `pOrder.get(target.rawValue) ?? 0` for the sorted head `target`. */
  function TargetIndex(pr: seq<ClassOption>, items: seq<Extended>): nat
    requires |items| > 0
  {
    var i := LastIndexOf(pr, items[SortHead(items, pr)].rawValue);
    if i.Some? then i.value else 0
  }

  /**
   * The hand-off index is at or before the priority position of every
   * increased class that is in the list; when some increased class has a
   * position below the sentinel, the index names an increased class; when
   * none is in the list, it is 0.
   */
  lemma TargetIsBestRanked(pr: seq<ClassOption>, items: seq<Extended>)
    requires |items| > 0
    ensures forall j :: 0 <= j < |items| && LastIndexOf(pr, items[j].rawValue).Some?
              ==> TargetIndex(pr, items) <= LastIndexOf(pr, items[j].rawValue).value
    ensures (exists j :: 0 <= j < |items| && RankKey(pr, items[j].rawValue) < UNRANKED)
              ==> TargetIndex(pr, items) < |pr|
                  && exists j :: 0 <= j < |items| && items[j].rawValue == pr[TargetIndex(pr, items)].rawValue
    ensures (forall j :: 0 <= j < |items| ==> !Listed(pr, items[j].rawValue)) ==> TargetIndex(pr, items) == 0
  {
    var m := SortHead(items, pr);
  }

  /** The watcher may act: its flag is on and the run mode is idle. */
  predicate Watching(s: Store) {
    Truthy(s.notifyEnabled) && s.runMode == IDLE
  }

  /** The classes the cycle compares with: the stored list unless missing or empty, else the page. */
  function CycleClasses(s: Store, parsed: seq<ClassOption>): seq<ClassOption> {
    if s.classes.Some? && |s.classes.value| > 0 then s.classes.value else parsed
  }

  /** `st.notifyExtendedBaseline || {}`: the baseline the cycle compares with. */
  function BaselineOf(s: Store): seq<BaselineEntry> {
    if s.baseline.Some? then s.baseline.value else []
  }

  /** The hand-off to hunting: watcher off, hunting from `t` with no pending, then attempt entry `t` if it exists. */
  function HandOff(s: Store, t: nat, now: int): Store {
    var s1 := Background.NotifyFound(s);
    var s2 := s1.(notifyEnabled := Some(false), runMode := HUNTING, pending := None, activeIndex := t);
    var s3 := Background.SetLastTs(s2, now);
    if t < |s3.priority| then Hunting.TryTake(s3, s3.priority[t], t, now) else s3
  }

  /**
   * `notifyCheckAndSchedule`: nothing unless watching. With a rise, hand off
   * to hunting at the best-ranked increased class; without one, replace the
   * baseline by the refresh and leave hunting state alone (the reload timer
   * is left out).
   */
  function WatchCycle(s: Store, parsed: seq<ClassOption>, now: int): (r: Store)
    ensures !Watching(s) ==> r == s
    ensures Watching(s) && Increases(BaselineOf(s), CycleClasses(s, parsed)) == [] ==>
              r.baseline == Some(Refresh(s.priority, CycleClasses(s, parsed), now))
              && r.runMode == s.runMode && r.pending == s.pending && r.activeIndex == s.activeIndex
              && r.notifyEnabled == s.notifyEnabled && r.lastCheckTs == Some(now)
    ensures Watching(s) && Increases(BaselineOf(s), CycleClasses(s, parsed)) != [] ==>
              var t := TargetIndex(s.priority, Increases(BaselineOf(s), CycleClasses(s, parsed)));
              r.notifyEnabled == Some(false) && r.runMode == HUNTING && r.activeIndex == t
              && r.lastCheckTs == Some(now)
              && (t < |s.priority| ==> r.pending.Some? && r.pending.value.rawValue == s.priority[t].rawValue
                                       && r.pending.value.attempt == 1)
              && (t >= |s.priority| ==> r.pending.None?)
    ensures r.priority == s.priority
  {
    if !Watching(s) then s
    else
      var classes := CycleClasses(s, parsed);
      var s1 := if s.classes.Some? && |s.classes.value| > 0 then s else s.(classes := Some(parsed));
      var baseline := BaselineOf(s1);
      var s2 := if |baseline| == 0 then s1.(baseline := Some(Build(s1.priority, classes, now))) else s1;
      var items := Increases(baseline, classes);
      if |items| > 0 then HandOff(s2, TargetIndex(s2.priority, items), now)
      else s2.(baseline := Some(Refresh(s2.priority, classes, now)), lastCheckTs := Some(now))
  }

  /**
   * A cycle that finds no stored baseline (missing or `{}`) compares against
   * that empty object, so it cannot hand off; it only stores the refresh.
   */
  lemma EmptyBaselineNeverHandsOff(s: Store, parsed: seq<ClassOption>, now: int)
    requires Watching(s) && (s.baseline.None? || s.baseline == Some([]))
    ensures WatchCycle(s, parsed, now).runMode == IDLE
    ensures WatchCycle(s, parsed, now).pending == s.pending
    ensures WatchCycle(s, parsed, now).baseline == Some(Refresh(s.priority, CycleClasses(s, parsed), now))
  {
  }

  /**
   * `buildNotifyBaseline`: replace the baseline by one built from the stored
   * class list (or the page when none is stored); nothing else changes.
   */
  function BuildBaseline(s: Store, parsed: seq<ClassOption>, now: int): (r: Store)
    ensures r.baseline.Some? && r.(baseline := s.baseline) == s
    ensures forall k :: Lookup(r.baseline.value, k).Some? <==>
              Listed(s.priority, k) && HasNumeric(if s.classes.Some? then s.classes.value else parsed, k)
  {
    var classes := if s.classes.Some? then s.classes.value else parsed;
    forall k ensures Lookup(Build(s.priority, classes, now), k).Some? <==>
                     Listed(s.priority, k) && HasNumeric(classes, k) {
      BuildLookup(s.priority, classes, now, k);
    }
    s.(baseline := Some(Build(s.priority, classes, now)))
  }

  /**
   * `enableNotifyWatcher`: store the flag; when turning on, build the
   * baseline from the stored classes (or the page) and run one cycle at once.
   * There is no idle guard: outside idle the cycle does nothing, so the flag
   * is on and the fresh build is the baseline. While idle the cycle compares
   * the page with the build it was just made from, sees no rise, and leaves
   * the refresh; hunting state is untouched either way.
   */
  function EnableWatcher(s: Store, enable: bool, parsed: seq<ClassOption>, now: int): (r: Store)
    ensures !enable ==> r == s.(notifyEnabled := Some(false))
    ensures enable && s.runMode != IDLE ==>
              r == s.(notifyEnabled := Some(true),
                      baseline := Some(Build(s.priority, if s.classes.Some? then s.classes.value else parsed, now)))
    ensures enable && s.runMode == IDLE ==>
              r.runMode == IDLE && r.notifyEnabled == Some(true) && r.pending == s.pending
              && r.activeIndex == s.activeIndex && r.priority == s.priority && r.lastCheckTs == Some(now)
              && r.baseline == Some(Refresh(s.priority, CycleClasses(s, parsed), now))
  {
    var s1 := s.(notifyEnabled := Some(enable));
    if enable then
      EnableSeesNoRise(s, parsed, now);
      WatchCycle(BuildBaseline(s1, parsed, now), parsed, now)
    else s1
  }

  /**
   * The baseline built on enabling shows no rise against the classes the
   * cycle then compares with: the same list, or an empty build when the
   * stored list is empty.
   */
  lemma EnableSeesNoRise(s: Store, parsed: seq<ClassOption>, now: int)
    ensures Increases(Build(s.priority, if s.classes.Some? then s.classes.value else parsed, now),
                      CycleClasses(s, parsed)) == []
  {
    if s.classes.Some? && |s.classes.value| == 0 {
      assert Build(s.priority, s.classes.value, now) == [];
    } else {
      NoRiseAgainstOwnBuild(s.priority, CycleClasses(s, parsed), now);
    }
  }

  /**
   * Turning the watcher on never hands off in the same call, whatever the
   * run mode and the stored class list: the baseline was just built.
   */
  lemma EnableDoesNotHandOff(s: Store, parsed: seq<ClassOption>, now: int)
    ensures EnableWatcher(s, true, parsed, now).runMode == s.runMode
    ensures EnableWatcher(s, true, parsed, now).pending == s.pending
    ensures EnableWatcher(s, true, parsed, now).activeIndex == s.activeIndex
    ensures EnableWatcher(s, true, parsed, now).notifyEnabled == Some(true)
  {
  }
}
