/**
 * The records the extension keeps in `chrome.storage.local`, held as one
 * immutable store value, and the lookups every surface performs on them.
 * An absent key is modelled by the value the source reads it as: a missing
 * priority list is `[]`, a missing run mode is `""` (falsy, neither mode),
 * a missing active index is `0` (`activeCandidateIndex || 0`).
 */
module Model {
  import opened Wrappers

  const IDLE: string := "idle"
  const HUNTING: string := "hunting"

  /** `kapasitas` read from an option label: seats filled and quota, each possibly unknown. */
  datatype Capacity = Capacity(terisi: Option<int>, kuota: Option<int>)

  /** One enrollable class section as parsed from the page (`parseAllClasses`). */
  datatype ClassOption = ClassOption(
    kategori: string,
    rawValue: string,
    valueCode: string,
    displayCode: string,
    name: string,
    sks: Option<int>,
    kelas: string,
    jur: string,
    thnKurikulum: string,
    kapasitas: Option<Capacity>)

  /** `pendingAction`: the attempt prepared before the page is submitted and reloaded. */
  datatype Pending = Pending(
    rawValue: string,
    valueCode: string,
    displayCode: string,
    name: string,
    kelas: string,
    kategori: string,
    attempt: nat,
    ts: int)

  /** What the CAPTCHA relay shows next to the image. */
  datatype CaptchaMeta = CaptchaMeta(title: string, desc: string, kelas: string, kategori: string, attempt: int)

  /** `lastCaptcha`; the image, its URL and the tab id are left out. */
  datatype CaptchaShot = CaptchaShot(meta: CaptchaMeta, ts: int)

  /** One key of `notifyExtendedBaseline`; every writer stores a numeric quota. */
  datatype BaselineEntry = BaselineEntry(rawValue: string, kuota: int, ts: int)

  predicate DistinctKeys(b: seq<BaselineEntry>) {
    forall i, j :: 0 <= i < j < |b| ==> b[i].rawValue != b[j].rawValue
  }

  /** A JavaScript object keyed by `rawValue`: distinct keys, kept in insertion order. */
  type Baseline = b: seq<BaselineEntry> | DistinctKeys(b) witness []

  /** The options record `opts`; a field may be missing. */
  datatype StoredOpts = StoredOpts(maxCaptcha: Option<int>, notifyIntervalSec: Option<int>)

  datatype Store = Store(
    priority: seq<ClassOption>,
    runMode: string,
    pending: Option<Pending>,
    activeIndex: nat,
    classes: Option<seq<ClassOption>>,
    notifyEnabled: Option<bool>,
    baseline: Option<Baseline>,
    lastCheckTs: Option<int>,
    lastCaptcha: Option<CaptchaShot>,
    opts: Option<StoredOpts>)

  /** JavaScript truthiness of a stored flag. */
  predicate Truthy(b: Option<bool>) {
    b == Some(true)
  }

  /** `c.kapasitas?.kuota` as a number, if it is one. */
  function Kuota(c: ClassOption): Option<int> {
    if c.kapasitas.Some? then c.kapasitas.value.kuota else None
  }

  /** Some class in the list has key `raw` (`pMap.has(raw)`, `inPriority.has(raw)`). */
  predicate Listed(cs: seq<ClassOption>, raw: string) {
    exists i :: 0 <= i < |cs| && cs[i].rawValue == raw
  }

  /** Listing a list with one more class at the end. */
  lemma ListedSnoc(cs: seq<ClassOption>, raw: string)
    requires |cs| > 0
    ensures Listed(cs, raw) <==> Listed(cs[..|cs| - 1], raw) || cs[|cs| - 1].rawValue == raw
  {
    if Listed(cs, raw) && cs[|cs| - 1].rawValue != raw {
      var i :| 0 <= i < |cs| && cs[i].rawValue == raw;
      assert cs[..|cs| - 1][i] == cs[i];
    }
    if Listed(cs[..|cs| - 1], raw) {
      var i :| 0 <= i < |cs| - 1 && cs[..|cs| - 1][i].rawValue == raw;
      assert cs[i] == cs[..|cs| - 1][i];
    }
  }

  /** `cs.findIndex(c => c.rawValue === raw)`: the first position, or -1. */
  function FindIndex(cs: seq<ClassOption>, raw: string): (i: int)
    ensures -1 <= i < |cs|
    ensures i >= 0 ==> cs[i].rawValue == raw
    ensures forall j :: 0 <= j < |cs| && (i < 0 || j < i) ==> cs[j].rawValue != raw
    decreases |cs|
  {
    if |cs| == 0 then -1
    else if cs[0].rawValue == raw then 0
    else
      var k := FindIndex(cs[1..], raw);
      if k < 0 then -1 else k + 1
  }

  /** `cs.find(c => c.rawValue === raw)`: the first class with that key. */
  function FindClass(cs: seq<ClassOption>, raw: string): (r: Option<ClassOption>)
    ensures r.Some? <==> Listed(cs, raw)
    ensures r.Some? ==> r.value.rawValue == raw && r.value in cs
    ensures r.Some? ==> exists i :: 0 <= i < |cs| && cs[i] == r.value
                                    && forall j :: 0 <= j < i ==> cs[j].rawValue != raw
  {
    var i := FindIndex(cs, raw);
    if i < 0 then None else Some(cs[i])
  }

  /** `new Map(cs.map((c, i) => [c.rawValue, i])).get(raw)`: a later duplicate overwrites, so the last position. */
  function LastIndexOf(cs: seq<ClassOption>, raw: string): (r: Option<nat>)
    ensures r.Some? <==> Listed(cs, raw)
    ensures r.Some? ==> r.value < |cs| && cs[r.value].rawValue == raw
    ensures r.Some? ==> forall j :: r.value < j < |cs| ==> cs[j].rawValue != raw
    ensures r.None? ==> forall j :: 0 <= j < |cs| ==> cs[j].rawValue != raw
    decreases |cs|
  {
    if |cs| == 0 then None
    else if cs[|cs| - 1].rawValue == raw then Some(|cs| - 1)
    else LastIndexOf(cs[..|cs| - 1], raw)
  }

  /** `new Map(cs.map(c => [c.rawValue, c])).get(raw)`: the last class with that key. */
  function LastClass(cs: seq<ClassOption>, raw: string): (r: Option<ClassOption>)
    ensures r.Some? <==> Listed(cs, raw)
    ensures r.Some? ==> r.value.rawValue == raw && r.value in cs
    ensures r.Some? ==> exists i :: 0 <= i < |cs| && cs[i] == r.value
                                    && forall j :: i < j < |cs| ==> cs[j].rawValue != raw
  {
    var i := LastIndexOf(cs, raw);
    if i.Some? then Some(cs[i.value]) else None
  }

  /* ---------- the baseline object ---------- */

  function Keys(b: seq<BaselineEntry>): (r: seq<string>)
    ensures |r| == |b|
    ensures forall i :: 0 <= i < |b| ==> r[i] == b[i].rawValue
  {
    seq(|b|, i requires 0 <= i < |b| => b[i].rawValue)
  }

  /** `baseline[k]`. */
  function Lookup(b: seq<BaselineEntry>, k: string): (r: Option<BaselineEntry>)
    ensures r.Some? <==> k in Keys(b)
    ensures r.Some? ==> r.value in b && r.value.rawValue == k
    decreases |b|
  {
    if |b| == 0 then None
    else if b[0].rawValue == k then Some(b[0])
    else Lookup(b[1..], k)
  }

  lemma ConsKeys(x: BaselineEntry, t: seq<BaselineEntry>)
    ensures Keys([x] + t) == [x.rawValue] + Keys(t)
    ensures DistinctKeys(t) && x.rawValue !in Keys(t) ==> DistinctKeys([x] + t)
  {
    if DistinctKeys(t) && x.rawValue !in Keys(t) {
      forall i, j | 0 <= i < j < |[x] + t|
        ensures ([x] + t)[i].rawValue != ([x] + t)[j].rawValue
      {
        if i == 0 {
          assert ([x] + t)[j] == t[j - 1];
          assert Keys(t)[j - 1] == t[j - 1].rawValue;
        }
      }
    }
  }

  lemma ConsLookup(x: BaselineEntry, t: seq<BaselineEntry>, k: string)
    ensures Lookup([x] + t, k) == if x.rawValue == k then Some(x) else Lookup(t, k)
  {
    assert ([x] + t)[1..] == t;
  }

  /** `baseline[e.rawValue] = e`: overwrite in place, or append a new key. */
  function Put(b: Baseline, e: BaselineEntry): (r: Baseline)
    ensures e.rawValue in Keys(b) ==> Keys(r) == Keys(b)
    ensures e.rawValue !in Keys(b) ==> Keys(r) == Keys(b) + [e.rawValue]
    decreases |b|
  {
    if |b| == 0 then
      ConsKeys(e, []);
      [e]
    else
      var head := b[0];
      var rest: Baseline := b[1..];
      assert b == [head] + rest;
      ConsKeys(head, rest);
      if head.rawValue == e.rawValue then
        ConsKeys(e, rest);
        [e] + rest
      else
        var tail := Put(rest, e);
        ConsKeys(head, tail);
        [head] + tail
  }

  /** After `baseline[e.rawValue] = e`, that key reads `e` and every other key reads as before. */
  lemma {:induction false} PutLookup(b: Baseline, e: BaselineEntry, k: string)
    ensures Lookup(Put(b, e), k) == if k == e.rawValue then Some(e) else Lookup(b, k)
    decreases |b|
  {
    if |b| == 0 {
      ConsLookup(e, [], k);
    } else {
      var head := b[0];
      var rest: Baseline := b[1..];
      assert b == [head] + rest;
      ConsLookup(head, rest, k);
      if head.rawValue == e.rawValue {
        ConsLookup(e, rest, k);
        ConsKeys(head, rest);
        if k == e.rawValue {
          assert Lookup(b, k) == Some(head);
        }
      } else {
        PutLookup(rest, e, k);
        ConsLookup(head, Put(rest, e), k);
      }
    }
  }

  /** The keys of a baseline as a set: `Object.keys(baseline)` without the order. */
  function KeySet(b: seq<BaselineEntry>): set<string> {
    set i | 0 <= i < |b| :: b[i].rawValue
  }

  /** A baseline has exactly as many keys as entries (`Object.keys(b).length`). */
  lemma {:induction false} KeyCount(b: Baseline)
    ensures |KeySet(b)| == |b|
    decreases |b|
  {
    if |b| > 0 {
      var rest: Baseline := b[1..];
      KeyCount(rest);
      assert KeySet(b) == {b[0].rawValue} + KeySet(rest) by {
        forall k | k in KeySet(b) ensures k in {b[0].rawValue} + KeySet(rest) {
          var i :| 0 <= i < |b| && b[i].rawValue == k;
          if i > 0 { assert rest[i - 1] == b[i]; }
        }
        forall k | k in KeySet(rest) ensures k in KeySet(b) {
          var i :| 0 <= i < |rest| && rest[i].rawValue == k;
          assert b[i + 1] == rest[i];
        }
      }
      assert b[0].rawValue !in KeySet(rest) by {
        forall i | 0 <= i < |rest| ensures rest[i].rawValue != b[0].rawValue {
          assert b[i + 1] == rest[i];
        }
      }
    }
  }

  /** An entry after `baseline[e.rawValue] = e` is `e` or an untouched entry under another key. */
  lemma {:induction false} PutMembers(b: Baseline, e: BaselineEntry)
    ensures forall x :: x in Put(b, e) ==> x == e || (x in b && x.rawValue != e.rawValue)
    decreases |b|
  {
    if |b| > 0 {
      var rest: Baseline := b[1..];
      if b[0].rawValue == e.rawValue {
        forall x | x in rest ensures x in b && x.rawValue != e.rawValue {
          var i :| 0 <= i < |rest| && rest[i] == x;
          assert b[i + 1] == x;
        }
      } else {
        PutMembers(rest, e);
      }
    }
  }

  /** Two baselines agree on keys, their order and quotas; only the timestamps may differ. */
  predicate SameQuotas(b1: seq<BaselineEntry>, b2: seq<BaselineEntry>) {
    |b1| == |b2|
    && forall i :: 0 <= i < |b1| ==> b1[i].rawValue == b2[i].rawValue && b1[i].kuota == b2[i].kuota
  }

  /** Writing the same key and quota into baselines that agree up to timestamps keeps them agreeing. */
  lemma {:induction false} PutSameQuotas(b1: Baseline, b2: Baseline, e1: BaselineEntry, e2: BaselineEntry)
    requires SameQuotas(b1, b2)
    requires e1.rawValue == e2.rawValue && e1.kuota == e2.kuota
    ensures SameQuotas(Put(b1, e1), Put(b2, e2))
    decreases |b1|
  {
    if |b1| > 0 && b1[0].rawValue != e1.rawValue {
      var r1: Baseline := b1[1..];
      var r2: Baseline := b2[1..];
      PutSameQuotas(r1, r2, e1, e2);
    }
  }
}
