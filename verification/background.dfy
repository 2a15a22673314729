/**
 * The service worker's message switch (background.js): the store updates each
 * message causes. Delivery of messages to tabs and notifications is left out;
 * only the resulting store and the reply matter here.
 */
module Background {
  import opened Wrappers
  import opened Model

  /**
   * `onInstalled`: a falsy run mode becomes idle and a never-set watcher flag
   * becomes false; everything else stays.
   */
  function OnInstalled(s: Store): (r: Store)
    ensures r.runMode != "" && r.notifyEnabled.Some?
    ensures s.runMode != "" ==> r.runMode == s.runMode
    ensures s.notifyEnabled.Some? ==> r.notifyEnabled == s.notifyEnabled
    ensures r.(runMode := s.runMode, notifyEnabled := s.notifyEnabled) == s
  {
    s.(runMode := if s.runMode == "" then IDLE else s.runMode,
       notifyEnabled := if s.notifyEnabled.None? then Some(false) else s.notifyEnabled)
  }

  /** Re-installing over an installed store changes nothing. */
  lemma OnInstalledIdempotent(s: Store)
    ensures OnInstalled(OnInstalled(s)) == OnInstalled(s)
    ensures s.runMode == "" ==> OnInstalled(s).runMode == IDLE
    ensures s.notifyEnabled.None? ==> OnInstalled(s).notifyEnabled == Some(false)
  {
  }

  /** `STOP_HUNT`: unconditional hard cancel. */
  function StopHunt(s: Store): (r: Store)
    ensures r.runMode == IDLE && r.pending.None? && r.activeIndex == 0 && r.lastCaptcha.None?
    ensures r.(runMode := s.runMode, pending := s.pending, activeIndex := s.activeIndex,
               lastCaptcha := s.lastCaptcha) == s
  {
    s.(runMode := IDLE, pending := None, activeIndex := 0, lastCaptcha := None)
  }

  /** The reply to `TOGGLE_NOTIFY_EXTENDED` together with the store after it. */
  datatype Toggled = Toggled(ok: bool, store: Store)

  /**
   * `TOGGLE_NOTIFY_EXTENDED`: turning the watcher on is refused unless the
   * run mode is idle, and a refusal writes nothing; an accepted toggle stores
   * the flag and resets the baseline to `{}` (on) or `null` (off).
   */
  function ToggleNotify(s: Store, enable: bool): (t: Toggled)
    ensures !t.ok <==> enable && s.runMode != IDLE
    ensures !t.ok ==> t.store == s
    ensures t.ok ==> t.store.notifyEnabled == Some(enable)
    ensures t.ok && enable ==> t.store.baseline == Some([])
    ensures t.ok && !enable ==> t.store.baseline.None?
    ensures t.store.(notifyEnabled := s.notifyEnabled, baseline := s.baseline) == s
  {
    if enable && s.runMode != IDLE then Toggled(false, s)
    else Toggled(true, s.(notifyEnabled := Some(enable), baseline := if enable then Some([]) else None))
  }

  /** `NOTIFY_EXTENDED_FOUND`: only the watcher flag changes, to false. */
  function NotifyFound(s: Store): (r: Store)
    ensures r.notifyEnabled == Some(false)
    ensures r.(notifyEnabled := s.notifyEnabled) == s
  {
    s.(notifyEnabled := Some(false))
  }

  /** `NOTIFY_SET_LAST_TS`. */
  function SetLastTs(s: Store, now: int): (r: Store)
    ensures r.lastCheckTs == Some(now)
    ensures r.(lastCheckTs := s.lastCheckTs) == s
  {
    s.(lastCheckTs := Some(now))
  }

  /** `NEED_CAPTCHA`: the single CAPTCHA slot keeps only the latest snapshot. */
  function NeedCaptcha(s: Store, meta: CaptchaMeta, now: int): (r: Store)
    ensures r.lastCaptcha == Some(CaptchaShot(meta, now))
    ensures r.(lastCaptcha := s.lastCaptcha) == s
  {
    s.(lastCaptcha := Some(CaptchaShot(meta, now)))
  }

  /** `REORDER_PRIORITY`: the list is stored as sent; the tab is then told `PRIORITY_UPDATED`. */
  function ReorderPriority(s: Store, priority: seq<ClassOption>): (r: Store)
    ensures r.priority == priority
    ensures r.(priority := s.priority) == s
  {
    s.(priority := priority)
  }

  /** Where `CAPTCHA_SUBMIT` sends the typed value. */
  datatype CaptchaRoute = Forward(tab: int, value: string) | Refuse

  /** `CAPTCHA_SUBMIT`: forwarded to the tab only when both the tab id and the value are truthy. */
  function CaptchaSubmit(tabId: Option<int>, value: string): (r: CaptchaRoute)
    ensures r.Forward? <==> tabId.Some? && tabId.value != 0 && value != ""
    ensures r.Forward? ==> r.tab == tabId.value && r.value == value
  {
    if tabId.Some? && tabId.value != 0 && value != "" then Forward(tabId.value, value) else Refuse
  }

  /** The reply to `NOTIFY_STATUS`. */
  datatype Status = Status(enabled: bool, lastTs: Option<int>, baselineSize: nat)

  /**
   * `NOTIFY_STATUS`: the flag's truthiness, the last check time (`|| null`)
   * and the number of baseline keys, 0 when there is no baseline.
   */
  function NotifyStatus(s: Store): (r: Status)
    ensures r.enabled <==> Truthy(s.notifyEnabled)
    ensures r.baselineSize == if s.baseline.Some? then |KeySet(s.baseline.value)| else 0
    ensures r.lastTs.Some? <==> s.lastCheckTs.Some? && s.lastCheckTs.value != 0
    ensures r.lastTs.Some? ==> r.lastTs == s.lastCheckTs
  {
    KeyCount(s.baseline.GetOr([]));
    Status(Truthy(s.notifyEnabled),
           if s.lastCheckTs == Some(0) then None else s.lastCheckTs,
           if s.baseline.Some? then |s.baseline.value| else 0)
  }
}
