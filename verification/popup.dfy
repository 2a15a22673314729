/**
 * The popup's editing of the priority list (drag and drop, double click),
 * the filtered list of classes it offers, the capacity badge, and its two
 * guarded actions: start hunting and switch the watcher. The drop position,
 * the dragged key and the filter text are inputs; rendering is left out.
 */
module Popup {
  import opened Wrappers
  import opened Model
  import Text

  /* ---------- Array.prototype.splice for one element ---------- */

  /** A splice start past the end is clamped to the length. */
  function Clamp(i: nat, n: nat): (k: nat)
    ensures k <= n && (i <= n ==> k == i) && (i > n ==> k == n)
  {
    if i < n then i else n
  }

  /** `xs.splice(i, 1)`: drop the element at `i`, keep the others in order. */
  function RemoveAt<T>(xs: seq<T>, i: nat): (r: seq<T>)
    requires i < |xs|
    ensures |r| == |xs| - 1
    ensures forall j :: 0 <= j < i ==> r[j] == xs[j]
    ensures forall j :: i <= j < |r| ==> r[j] == xs[j + 1]
    ensures multiset(r) + multiset{xs[i]} == multiset(xs)
  {
    assert xs == xs[..i] + [xs[i]] + xs[i + 1..];
    xs[..i] + xs[i + 1..]
  }

  /** `xs.splice(i, 0, x)`: insert `x` before position `i`, or at the end when `i` is past it. */
  function InsertAt<T>(xs: seq<T>, i: nat, x: T): (r: seq<T>)
    ensures |r| == |xs| + 1 && r[Clamp(i, |xs|)] == x
    ensures multiset(r) == multiset(xs) + multiset{x}
  {
    var k := Clamp(i, |xs|);
    assert xs == xs[..k] + xs[k..];
    xs[..k] + [x] + xs[k..]
  }

  /** Removing what was just inserted gives back the list. */
  lemma RemoveInserted<T>(xs: seq<T>, i: nat, x: T)
    ensures RemoveAt(InsertAt(xs, i, x), Clamp(i, |xs|)) == xs
  {
    var k := Clamp(i, |xs|);
    var r := InsertAt(xs, i, x);
    assert r[..k] == xs[..k];
    assert r[k + 1..] == xs[k..];
    assert xs[..k] + xs[k..] == xs;
  }

  /** Inserting what was just removed, at the same place, gives back the list. */
  lemma InsertRemoved<T>(xs: seq<T>, i: nat)
    requires i < |xs|
    ensures InsertAt(RemoveAt(xs, i), i, xs[i]) == xs
  {
    var r := RemoveAt(xs, i);
    assert r[..i] == xs[..i];
    assert r[i..] == xs[i + 1..];
    assert xs[..i] + [xs[i]] + xs[i + 1..] == xs;
  }

  /** No two priority entries share a key. */
  predicate DistinctRaw(pr: seq<ClassOption>) {
    forall i, j :: 0 <= i < j < |pr| ==> pr[i].rawValue != pr[j].rawValue
  }

  lemma RemoveAtDistinct(pr: seq<ClassOption>, i: nat)
    requires i < |pr|
    ensures DistinctRaw(pr) ==> DistinctRaw(RemoveAt(pr, i)) && !Listed(RemoveAt(pr, i), pr[i].rawValue)
  {
    if DistinctRaw(pr) {
      RemoveAtDistinctCase(pr, i);
    }
  }

  lemma RemoveAtDistinctCase(pr: seq<ClassOption>, i: nat)
    requires i < |pr| && DistinctRaw(pr)
    ensures DistinctRaw(RemoveAt(pr, i)) && !Listed(RemoveAt(pr, i), pr[i].rawValue)
  {
    var r := RemoveAt(pr, i);
    forall a, b | 0 <= a < b < |r| ensures r[a].rawValue != r[b].rawValue {
      var a' := if a < i then a else a + 1;
      var b' := if b < i then b else b + 1;
      assert r[a] == pr[a'] && r[b] == pr[b'];
    }
    forall j | 0 <= j < |r| ensures r[j].rawValue != pr[i].rawValue {
      var j' := if j < i then j else j + 1;
      assert r[j] == pr[j'];
    }
  }

  lemma InsertAtDistinct(pr: seq<ClassOption>, i: nat, x: ClassOption)
    ensures DistinctRaw(pr) && !Listed(pr, x.rawValue) ==> DistinctRaw(InsertAt(pr, i, x))
  {
    if DistinctRaw(pr) && !Listed(pr, x.rawValue) {
      InsertAtDistinctCase(pr, i, x);
    }
  }

  lemma InsertAtDistinctCase(pr: seq<ClassOption>, i: nat, x: ClassOption)
    requires DistinctRaw(pr) && !Listed(pr, x.rawValue)
    ensures DistinctRaw(InsertAt(pr, i, x))
  {
    var k := Clamp(i, |pr|);
    var r := InsertAt(pr, i, x);
    forall a, b | 0 <= a < b < |r| ensures r[a].rawValue != r[b].rawValue {
      if a != k && b != k {
        var a' := if a < k then a else a - 1;
        var b' := if b < k then b else b - 1;
        assert r[a] == pr[a'] && r[b] == pr[b'];
      } else if a == k {
        assert r[b] == pr[b - 1];
      } else {
        assert r[a] == pr[a];
      }
    }
  }

  /* ---------- priority list edits ---------- */

  /**
   * Dropping a priority entry back onto the priority list at drop index
   * `index` (between 0 and the list length): take it out at its first
   * position, shift the index down by one when it came from above, and
   * splice it back. An empty key or a key not in the list changes nothing
   * (`None`: nothing is saved).
   */
  function Move(pr: seq<ClassOption>, raw: string, index: nat): (r: Option<seq<ClassOption>>)
    ensures r.None? <==> raw == "" || !Listed(pr, raw)
    ensures r.Some? ==> |r.value| == |pr| && multiset(r.value) == multiset(pr)
  {
    if raw == "" then None
    else
      var src := FindIndex(pr, raw);
      if src < 0 then None
      else
        var dest := if src < index then index - 1 else index;
        var r := InsertAt(RemoveAt(pr, src), dest, pr[src]);
        assert multiset(r) == multiset(pr);
        Some(r)
  }

  /** Where a moved entry lands: the adjusted drop index, clamped to the shortened list. */
  function MoveDest(pr: seq<ClassOption>, raw: string, index: nat): nat
    requires FindIndex(pr, raw) >= 0
  {
    var src := FindIndex(pr, raw);
    Clamp(if src < index then index - 1 else index, |pr| - 1)
  }

  /**
   * The moved entry is the first one with the key and it lands at the
   * adjusted index; taking it out again leaves the other entries in their
   * old order.
   */
  lemma MoveLands(pr: seq<ClassOption>, raw: string, index: nat)
    requires raw != "" && Listed(pr, raw)
    ensures var src := FindIndex(pr, raw);
            var d := MoveDest(pr, raw, index);
            src >= 0 && d < |pr| && Move(pr, raw, index).value[d] == pr[src]
            && RemoveAt(Move(pr, raw, index).value, d) == RemoveAt(pr, src)
  {
    var src := FindIndex(pr, raw);
    var dest := if src < index then index - 1 else index;
    RemoveInserted(RemoveAt(pr, src), dest, pr[src]);
  }

  /** Dropping an entry just above or just below itself leaves the list as it was. */
  lemma MoveInPlace(pr: seq<ClassOption>, raw: string, index: nat)
    requires raw != "" && Listed(pr, raw)
    requires index == FindIndex(pr, raw) || index == FindIndex(pr, raw) + 1
    ensures Move(pr, raw, index) == Some(pr)
  {
    InsertRemoved(pr, FindIndex(pr, raw));
  }

  /** Reordering a list without duplicate keys keeps it without duplicates. */
  lemma MoveDistinct(pr: seq<ClassOption>, raw: string, index: nat)
    requires DistinctRaw(pr) && raw != "" && Listed(pr, raw)
    ensures DistinctRaw(Move(pr, raw, index).value)
  {
    var src := FindIndex(pr, raw);
    var dest := if src < index then index - 1 else index;
    RemoveAtDistinct(pr, src);
    InsertAtDistinct(RemoveAt(pr, src), dest, pr[src]);
  }

  /**
   * Dropping a class from the class list onto the priority list at `index`:
   * nothing when the key is empty, already in the list, or not among the
   * cached classes; otherwise the first cached class with the key is spliced
   * in at `index`.
   */
  function InsertFromClasses(pr: seq<ClassOption>, cache: seq<ClassOption>, raw: string, index: nat)
    : (r: Option<seq<ClassOption>>)
    ensures r.None? <==> raw == "" || Listed(pr, raw) || !Listed(cache, raw)
    ensures r.Some? ==> |r.value| == |pr| + 1
                        && r.value[Clamp(index, |pr|)] == FindClass(cache, raw).value
                        && RemoveAt(r.value, Clamp(index, |pr|)) == pr
    ensures r.Some? && DistinctRaw(pr) ==> DistinctRaw(r.value)
  {
    if raw == "" || Listed(pr, raw) then None
    else
      var item := FindClass(cache, raw);
      if item.None? then None
      else
        RemoveInserted(pr, index, item.value);
        InsertAtDistinct(pr, index, item.value);
        Some(InsertAt(pr, index, item.value))
  }

  /**
   * Dropping a priority entry onto a class section: the first entry with
   * the key is spliced out; an empty or unknown key saves nothing.
   */
  function RemoveFirst(pr: seq<ClassOption>, raw: string): (r: Option<seq<ClassOption>>)
    ensures r.None? <==> raw == "" || !Listed(pr, raw)
    ensures r.Some? ==> var i := FindIndex(pr, raw);
                        0 <= i && r.value == pr[..i] + pr[i + 1..]
                        && (forall j :: 0 <= j < i ==> pr[j].rawValue != raw)
    ensures r.Some? && DistinctRaw(pr) ==> !Listed(r.value, raw)
  {
    if raw == "" then None
    else
      var i := FindIndex(pr, raw);
      if i < 0 then None
      else
        RemoveAtDistinct(pr, i);
        Some(RemoveAt(pr, i))
  }

  /** Double click on a priority entry: keep every entry whose key differs. */
  function RemoveAll(pr: seq<ClassOption>, raw: string): (r: seq<ClassOption>)
    ensures !Listed(r, raw)
    ensures |r| <= |pr|
    ensures forall c :: c in r <==> c in pr && c.rawValue != raw
    decreases |pr|
  {
    if |pr| == 0 then []
    else
      var rest := RemoveAll(pr[1..], raw);
      if pr[0].rawValue == raw then rest
      else
        var r := [pr[0]] + rest;
        assert forall j :: 1 <= j < |r| ==> r[j] == rest[j - 1];
        r
  }

  /** Filtering distributes over concatenation: the kept entries keep their order. */
  lemma {:induction false} RemoveAllAppend(a: seq<ClassOption>, b: seq<ClassOption>, raw: string)
    ensures RemoveAll(a + b, raw) == RemoveAll(a, raw) + RemoveAll(b, raw)
    decreases |a|
  {
    if |a| > 0 {
      assert (a + b)[1..] == a[1..] + b;
      RemoveAllAppend(a[1..], b, raw);
    } else {
      assert a + b == b;
    }
  }

  /** A key that is not in the list leaves it unchanged. */
  lemma {:induction false} RemoveAllAbsent(pr: seq<ClassOption>, raw: string)
    requires !Listed(pr, raw)
    ensures RemoveAll(pr, raw) == pr
    decreases |pr|
  {
    if |pr| > 0 {
      forall j | 0 <= j < |pr[1..]| ensures pr[1..][j].rawValue != raw {
        assert pr[1..][j] == pr[j + 1];
      }
      assert pr[0].rawValue != raw;
      RemoveAllAbsent(pr[1..], raw);
      assert [pr[0]] + pr[1..] == pr;
    }
  }

  /** Removing twice removes nothing more. */
  lemma RemoveAllIdempotent(pr: seq<ClassOption>, raw: string)
    ensures RemoveAll(RemoveAll(pr, raw), raw) == RemoveAll(pr, raw)
  {
    RemoveAllAbsent(RemoveAll(pr, raw), raw);
  }

  /**
   * On a list without duplicate keys the double-click removal and the
   * drop-on-section removal give the same list.
   */
  lemma {:induction false} RemoveAllIsRemoveFirst(pr: seq<ClassOption>, raw: string)
    requires DistinctRaw(pr) && raw != "" && Listed(pr, raw)
    ensures RemoveFirst(pr, raw) == Some(RemoveAll(pr, raw))
  {
    var i := FindIndex(pr, raw);
    assert pr == pr[..i] + ([pr[i]] + pr[i + 1..]);
    RemoveAllAppend(pr[..i], [pr[i]] + pr[i + 1..], raw);
    RemoveAllAppend([pr[i]], pr[i + 1..], raw);
    forall j | 0 <= j < |pr[..i]| ensures pr[..i][j].rawValue != raw {
      assert pr[..i][j] == pr[j];
    }
    RemoveAllAbsent(pr[..i], raw);
    var tail := pr[i + 1..];
    forall j | 0 <= j < |tail| ensures tail[j].rawValue != raw {
      assert tail[j] == pr[i + 1 + j];
    }
    RemoveAllAbsent(pr[i + 1..], raw);
    assert RemoveAll([pr[i]], raw) == [];
  }

  /** Double click on a class: append it to the priority list. */
  function Append(pr: seq<ClassOption>, item: ClassOption): (r: seq<ClassOption>)
    ensures |r| == |pr| + 1 && r[|pr|] == item && r[..|pr|] == pr
    ensures DistinctRaw(pr) && !Listed(pr, item.rawValue) ==> DistinctRaw(r)
  {
    InsertAtDistinct(pr, |pr|, item);
    assert InsertAt(pr, |pr|, item) == pr + [item];
    pr + [item]
  }

  /** Appending a class and then double-clicking it away restores a list that did not have its key. */
  lemma AppendThenRemove(pr: seq<ClassOption>, item: ClassOption)
    requires !Listed(pr, item.rawValue)
    ensures RemoveAll(Append(pr, item), item.rawValue) == pr
  {
    RemoveAllAppend(pr, [item], item.rawValue);
    RemoveAllAbsent(pr, item.rawValue);
    assert RemoveAll([item], item.rawValue) == [];
  }

  /* ---------- the class sections ---------- */

  /** `${c.sks ?? ""}`. */
  function SksText(sks: Option<int>): string {
    if sks.Some? then Text.IntToString(sks.value) else ""
  }

  /** The text the filter searches: codes, section, name and credits separated by spaces. */
  function Haystack(c: ClassOption): string {
    c.valueCode + " " + c.displayCode + " " + c.kelas + " " + c.name + " " + SksText(c.sks)
  }

  /** A class shown in the sections: not in the priority list, and matching the filter (case-insensitively) if there is one. */
  predicate Shown(c: ClassOption, pr: seq<ClassOption>, filter: string) {
    !Listed(pr, c.rawValue) && (filter == "" || Text.Includes(Text.Lower(Haystack(c)), Text.Lower(filter)))
  }

  /** The classes offered in the sections, in the order of the cache. */
  function Offered(cache: seq<ClassOption>, pr: seq<ClassOption>, filter: string): (r: seq<ClassOption>)
    ensures forall c :: c in r <==> c in cache && Shown(c, pr, filter)
    ensures |r| <= |cache|
    decreases |cache|
  {
    if |cache| == 0 then []
    else
      var rest := Offered(cache[1..], pr, filter);
      if Shown(cache[0], pr, filter) then
        var r := [cache[0]] + rest;
        assert forall j :: 1 <= j < |r| ==> r[j] == rest[j - 1];
        r
      else rest
  }

  /** The offer of a concatenated cache is the concatenation of the offers: the cache order is kept. */
  lemma {:induction false} OfferedAppend(a: seq<ClassOption>, b: seq<ClassOption>, pr: seq<ClassOption>, filter: string)
    ensures Offered(a + b, pr, filter) == Offered(a, pr, filter) + Offered(b, pr, filter)
    decreases |a|
  {
    if |a| > 0 {
      assert (a + b)[1..] == a[1..] + b;
      OfferedAppend(a[1..], b, pr, filter);
    } else {
      assert a + b == b;
    }
  }

  /** With no filter and an empty priority list every cached class is offered, in order. */
  lemma {:induction false} OfferedAll(cache: seq<ClassOption>)
    ensures Offered(cache, [], "") == cache
    decreases |cache|
  {
    if |cache| > 0 {
      OfferedAll(cache[1..]);
      assert [cache[0]] + cache[1..] == cache;
    }
  }

  /** A class double-clicked into the priority list leaves the sections, with every class sharing its key. */
  lemma AppendHides(cache: seq<ClassOption>, pr: seq<ClassOption>, filter: string, item: ClassOption)
    ensures forall c :: c in Offered(cache, Append(pr, item), filter) ==> c.rawValue != item.rawValue
  {
    var r := Append(pr, item);
    assert r[|pr|] == item;
  }

  /* ---------- capacity badge ---------- */

  /** The em dash shown when the capacity is unknown. */
  const NO_CAPACITY: string := "\U{2014}"

  /** `kapTxt`: "terisi/kuota", or a dash when the capacity or either count is missing. */
  function KapTxt(k: Option<Capacity>): (t: string)
    ensures k.None? || k.value.terisi.None? || k.value.kuota.None? <==> t == NO_CAPACITY
  {
    if k.None? || k.value.terisi.None? || k.value.kuota.None? then NO_CAPACITY
    else
      SlashFree(k.value.terisi.value);
      Text.Join([Text.IntToString(k.value.terisi.value), Text.IntToString(k.value.kuota.value)], '/')
  }

  /** A printed integer has no slash, and it is never the dash. */
  lemma SlashFree(i: int)
    ensures '/' !in Text.IntToString(i) && Text.IntToString(i) != NO_CAPACITY
  {
    var t := Text.IntToString(i);
    var d := Text.NatToString(if i < 0 then -i else i);
    forall j | 0 <= j < |t| ensures t[j] != '/' && t[j] != NO_CAPACITY[0] {
      if i < 0 {
        if j > 0 {
          assert t[j] == d[j - 1];
          assert Text.IsDigit(d[j - 1]);
        }
      } else {
        assert Text.IsDigit(d[j]);
      }
    }
    assert t[0] != NO_CAPACITY[0];
  }

  /** The badge of known counts reads back: the part before the slash parses to `terisi`, the part after to `kuota`. */
  lemma KapTxtReadsBack(terisi: int, kuota: int)
    ensures var parts := Text.Split(KapTxt(Some(Capacity(Some(terisi), Some(kuota)))), '/');
            |parts| == 2 && Text.ParseInt(parts[0]) == Some(terisi) && Text.ParseInt(parts[1]) == Some(kuota)
  {
    SlashFree(terisi);
    SlashFree(kuota);
    var parts := [Text.IntToString(terisi), Text.IntToString(kuota)];
    Text.SplitJoin(parts, '/');
    Text.ParseIntOfIntToString(terisi, "");
    assert parts[0] + "" == parts[0];
    Text.ParseIntOfIntToString(kuota, "");
    assert parts[1] + "" == parts[1];
  }

  /* ---------- guarded actions ---------- */

  /**
   * `startHunt`: refused (`None`) with an empty priority list; otherwise the
   * state written through `SET_STATE`: the list, hunting, index 0, no pending.
   */
  function StartHunt(s: Store, pr: seq<ClassOption>): (r: Option<Store>)
    ensures r.None? <==> |pr| == 0
    ensures r.Some? ==> r.value.priority == pr && r.value.runMode == HUNTING
                        && r.value.activeIndex == 0 && r.value.pending.None?
    ensures r.Some? ==> r.value.(priority := s.priority, runMode := s.runMode, activeIndex := s.activeIndex,
                                 pending := s.pending) == s
  {
    if |pr| == 0 then None
    else Some(s.(priority := pr, runMode := HUNTING, activeIndex := 0, pending := None))
  }

  /** What the watcher switch does. */
  datatype ToggleAction =
    | Reverted                           // switching on while not idle: the box is unticked, nothing is sent
    | Sent(enable: bool, rebuild: bool)  // the toggle message; the baseline rebuild follows when switching on

  /** `onToggleNotify`: switching on is refused unless the run mode is exactly "idle". */
  function ToggleNotify(s: Store, on: bool): (a: ToggleAction)
    ensures a == Reverted <==> on && s.runMode != IDLE
    ensures a.Sent? ==> a.enable == on && a.rebuild == on
  {
    if s.runMode != IDLE && on then Reverted else Sent(on, on)
  }
}
