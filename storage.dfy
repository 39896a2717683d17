/** The conversion-history list kept in the browser's local storage: an
    ordered list of history records, upserted by design URL and capped at ten
    entries, with delete by id, partial update by id and clear. */
module Storage {
  import opened Wrappers

  /** The most entries a save keeps (`slice(0, 10)`). */
  const MaxItems: nat := 10

  /** One history record. `format` and `lastAccessed` are optional fields. */
  datatype HistoryItem = HistoryItem(
    id: string,
    figmaUrl: string,
    timestamp: string,
    preview: string,
    name: string,
    format: Option<string>,
    lastAccessed: Option<string>)

  /** `Partial<HistoryItem>`: a record in which every field may be missing. */
  datatype HistoryPatch = HistoryPatch(
    id: Option<string>,
    figmaUrl: Option<string>,
    timestamp: Option<string>,
    preview: Option<string>,
    name: Option<string>,
    format: Option<string>,
    lastAccessed: Option<string>)

  /** What local storage holds under the history key: nothing, text that does
      not parse, or a parsed list of records. */
  datatype Slot = Absent | Corrupt | Stored(items: seq<HistoryItem>)

  // ---------------------------------------------------------------------------
  // List helpers with the meaning of the library calls the store uses
  // ---------------------------------------------------------------------------

  /** `Array.prototype.findIndex`: the first index whose element satisfies
      `p`, or -1 when there is none. */
  function FindIndex<T>(s: seq<T>, p: T -> bool): (r: int)
    ensures -1 <= r < |s|
    ensures r == -1 <==> forall j :: 0 <= j < |s| ==> !p(s[j])
    ensures 0 <= r ==> p(s[r]) && forall j :: 0 <= j < r ==> !p(s[j])
  {
    if |s| == 0 then -1
    else if p(s[0]) then 0
    else
      var k := FindIndex(s[1..], p);
      if k == -1 then -1 else k + 1
  }

  /** `Array.prototype.slice(0, n)`: the first `n` elements, or all of them. */
  function Take<T>(s: seq<T>, n: nat): (r: seq<T>)
    ensures |r| == if |s| <= n then |s| else n
    ensures forall j :: 0 <= j < |r| ==> r[j] == s[j]
  {
    if |s| <= n then s else s[..n]
  }

  /** The first index of an entry for design URL `url`, or -1. */
  function UrlIndex(items: seq<HistoryItem>, url: string): int {
    FindIndex(items, (i: HistoryItem) => i.figmaUrl == url)
  }

  /** The first index of an entry with id `id`, or -1. */
  function IdIndex(items: seq<HistoryItem>, id: string): int {
    FindIndex(items, (i: HistoryItem) => i.id == id)
  }

  /** No two entries share a design URL. */
  predicate DistinctUrls(items: seq<HistoryItem>) {
    forall i, j :: 0 <= i < j < |items| ==> items[i].figmaUrl != items[j].figmaUrl
  }

  // ---------------------------------------------------------------------------
  // The records a write produces
  // ---------------------------------------------------------------------------

  /** `{...item, lastAccessed: now}`. */
  function Stamp(item: HistoryItem, now: string): (r: HistoryItem)
    ensures r.id == item.id && r.figmaUrl == item.figmaUrl && r.timestamp == item.timestamp
    ensures r.preview == item.preview && r.name == item.name && r.format == item.format
    ensures r.lastAccessed == Some(now)
  {
    item.(lastAccessed := Some(now))
  }

  /** `{...existing, ...item, lastAccessed: now}`: every required field comes
      from `item`; `format` from `item` when it has one. */
  function Merge(existing: HistoryItem, item: HistoryItem, now: string): (r: HistoryItem)
    ensures r.id == item.id && r.figmaUrl == item.figmaUrl && r.timestamp == item.timestamp
    ensures r.preview == item.preview && r.name == item.name
    ensures item.format.Some? ==> r.format == item.format
    ensures item.format.None? ==> r.format == existing.format
    ensures r.lastAccessed == Some(now)
  {
    item.(format := Override(existing.format, item.format), lastAccessed := Some(now))
  }

  /** `{...existing, ...updates, lastAccessed: now}`: each field the patch
      carries replaces the old one. */
  function Patch(existing: HistoryItem, updates: HistoryPatch, now: string): (r: HistoryItem)
    ensures r.id == (if updates.id.Some? then updates.id.value else existing.id)
    ensures r.figmaUrl == (if updates.figmaUrl.Some? then updates.figmaUrl.value else existing.figmaUrl)
    ensures r.timestamp == (if updates.timestamp.Some? then updates.timestamp.value else existing.timestamp)
    ensures r.preview == (if updates.preview.Some? then updates.preview.value else existing.preview)
    ensures r.name == (if updates.name.Some? then updates.name.value else existing.name)
    ensures r.format == (if updates.format.Some? then updates.format else existing.format)
    ensures r.lastAccessed == Some(now)
  {
    HistoryItem(
      updates.id.GetOr(existing.id),
      updates.figmaUrl.GetOr(existing.figmaUrl),
      updates.timestamp.GetOr(existing.timestamp),
      updates.preview.GetOr(existing.preview),
      updates.name.GetOr(existing.name),
      Override(existing.format, updates.format),
      Some(now))
  }

  // ---------------------------------------------------------------------------
  // The list each operation writes, as functions of the list it reads
  // ---------------------------------------------------------------------------

  /** The list `saveToLocalStorage` writes: merge into the first entry with the
      same URL, in place, or put a new entry at the head; then cut to ten. */
  function Saved(items: seq<HistoryItem>, item: HistoryItem, now: string): (r: seq<HistoryItem>)
    ensures |r| <= MaxItems
  {
    var k := UrlIndex(items, item.figmaUrl);
    var updated := if k != -1 then items[k := Merge(items[k], item, now)] else [Stamp(item, now)] + items;
    Take(updated, MaxItems)
  }

  /** The list `deleteFromLocalStorage` writes: `filter(item => item.id !== id)`. */
  function WithoutId(items: seq<HistoryItem>, id: string): (r: seq<HistoryItem>)
    ensures |r| <= |items|
    ensures forall j :: 0 <= j < |r| ==> r[j].id != id && r[j] in items
  {
    if items == [] then []
    else
      var last := items[|items| - 1];
      WithoutId(items[..|items| - 1], id) + (if last.id != id then [last] else [])
  }

  /** The list `updateLocalStorageItem` writes, or `None` when it writes nothing. */
  function Updated(items: seq<HistoryItem>, id: string, updates: HistoryPatch, now: string): (r: Option<seq<HistoryItem>>)
    ensures r.None? <==> forall j :: 0 <= j < |items| ==> items[j].id != id
    ensures r.Some? ==> |r.value| == |items|
  {
    var k := IdIndex(items, id);
    if k == -1 then None else Some(items[k := Patch(items[k], updates, now)])
  }

  // ---------------------------------------------------------------------------
  // The store
  // ---------------------------------------------------------------------------

  /** The local-storage entry that holds the history. */
  class HistoryStore {
    var slot: Slot

    constructor (initial: Slot)
      ensures slot == initial
    {
      slot := initial;
    }

    /** `getFromLocalStorage`: the stored list; an absent entry or one that does
        not parse reads as the empty list. */
    function Get(): (items: seq<HistoryItem>)
      reads this
      ensures slot.Stored? ==> items == slot.items
      ensures !slot.Stored? ==> items == []
    {
      if slot.Stored? then slot.items else []
    }

    /** The shape every save of a list with distinct URLs leaves behind: at
        most ten entries, distinct URLs. A property of the stored contents,
        not an object invariant: an entry written by other code, or an update
        that sets a URL, need not have it. */
    ghost predicate BoundedDistinct()
      reads this
    {
      |Get()| <= MaxItems && DistinctUrls(Get())
    }

    /** `saveToLocalStorage`. */
    method Save(item: HistoryItem, now: string)
      modifies this
      ensures slot == Stored(Saved(old(Get()), item, now))
      ensures |Get()| <= MaxItems
      ensures old(DistinctUrls(Get())) ==> BoundedDistinct()
    {
      var existingItems := Get();
      ghost var before := existingItems;
      var existingItemIndex := FindIndex(existingItems, (i: HistoryItem) => i.figmaUrl == item.figmaUrl);
      if existingItemIndex != -1 {
        existingItems := existingItems[existingItemIndex := Merge(existingItems[existingItemIndex], item, now)];
      } else {
        existingItems := [Stamp(item, now)] + existingItems;
      }
      var newItems := Take(existingItems, MaxItems);
      slot := Stored(newItems);
      if DistinctUrls(before) {
        SavePreservesDistinctUrls(before, item, now);
      }
    }

    /** `deleteFromLocalStorage`: always writes, even when nothing matched. */
    method Delete(id: string)
      modifies this
      ensures slot == Stored(WithoutId(old(Get()), id))
      ensures old(BoundedDistinct()) ==> BoundedDistinct()
    {
      var existingItems := Get();
      var newItems := WithoutId(existingItems, id);
      slot := Stored(newItems);
      if DistinctUrls(existingItems) {
        DeletePreservesDistinctUrls(existingItems, id);
      }
    }

    /** `clearLocalStorage`: removes the entry. */
    method Clear()
      modifies this
      ensures slot == Absent
      ensures Get() == []
    {
      slot := Absent;
    }

    /** `updateLocalStorageItem`: writes only when some entry has the id. */
    method Update(id: string, updates: HistoryPatch, now: string)
      modifies this
      ensures Updated(old(Get()), id, updates, now).None? ==> slot == old(slot)
      ensures Updated(old(Get()), id, updates, now).Some? ==> slot == Stored(Updated(old(Get()), id, updates, now).value)
      ensures old(BoundedDistinct()) && updates.figmaUrl.None? ==> BoundedDistinct()
    {
      var existingItems := Get();
      var itemIndex := FindIndex(existingItems, (i: HistoryItem) => i.id == id);
      if itemIndex != -1 {
        ghost var before := existingItems;
        existingItems := existingItems[itemIndex := Patch(existingItems[itemIndex], updates, now)];
        slot := Stored(existingItems);
        if DistinctUrls(before) && updates.figmaUrl.None? {
          UpdatePreservesDistinctUrls(before, id, updates, now);
        }
      }
    }
  }

  // ---------------------------------------------------------------------------
  // Save
  // ---------------------------------------------------------------------------

  /** Saving a URL not yet in the list puts the stamped record at the head;
      the old entries follow in order, and only one pushed past the tenth
      place is dropped. */
  lemma SaveNewUrl(items: seq<HistoryItem>, item: HistoryItem, now: string)
    requires forall j :: 0 <= j < |items| ==> items[j].figmaUrl != item.figmaUrl
    ensures var r := Saved(items, item, now);
      && |r| == (if |items| < MaxItems then |items| + 1 else MaxItems)
      && r[0] == item.(lastAccessed := Some(now))
      && forall j :: 1 <= j < |r| ==> r[j] == items[j - 1]
  {
  }

  /** Saving a URL already in the list merges into its first entry, at the
      same index: the required fields and a given `format` come from `item`,
      a missing `format` keeps the old one, `lastAccessed` becomes `now`.
      Every other entry is unchanged; the cut to ten applies as always. */
  lemma SaveExistingUrl(items: seq<HistoryItem>, item: HistoryItem, now: string, k: nat)
    requires k < |items| && items[k].figmaUrl == item.figmaUrl
    requires forall j :: 0 <= j < k ==> items[j].figmaUrl != item.figmaUrl
    ensures var r := Saved(items, item, now);
      && |r| == (if |items| <= MaxItems then |items| else MaxItems)
      && (forall j :: 0 <= j < |r| && j != k ==> r[j] == items[j])
      && (k < |r| ==>
            && r[k].id == item.id && r[k].figmaUrl == item.figmaUrl
            && r[k].timestamp == item.timestamp && r[k].preview == item.preview
            && r[k].name == item.name
            && r[k].format == (if item.format.Some? then item.format else items[k].format)
            && r[k].lastAccessed == Some(now))
  {
  }

  /** Unless the URL's entry sits past the cut, the saved list holds an entry
      for the URL stamped with `now`. */
  lemma SaveStampsEntry(items: seq<HistoryItem>, item: HistoryItem, now: string)
    requires UrlIndex(items, item.figmaUrl) < MaxItems
    ensures exists j :: 0 <= j < |Saved(items, item, now)|
              && Saved(items, item, now)[j].figmaUrl == item.figmaUrl
              && Saved(items, item, now)[j].lastAccessed == Some(now)
  {
    var k := UrlIndex(items, item.figmaUrl);
    var r := Saved(items, item, now);
    var j := if k == -1 then 0 else k;
    assert r[j].figmaUrl == item.figmaUrl && r[j].lastAccessed == Some(now);
  }

  /** Saving keeps the URLs of the list pairwise distinct. */
  lemma SavePreservesDistinctUrls(items: seq<HistoryItem>, item: HistoryItem, now: string)
    requires DistinctUrls(items)
    ensures DistinctUrls(Saved(items, item, now))
  {
    var k := UrlIndex(items, item.figmaUrl);
    var updated := if k != -1 then items[k := Merge(items[k], item, now)] else [Stamp(item, now)] + items;
    assert DistinctUrls(updated) by {
      if k == -1 {
        forall i, j | 0 <= i < j < |updated|
          ensures updated[i].figmaUrl != updated[j].figmaUrl
        {
          if i > 0 {
            assert updated[i] == items[i - 1] && updated[j] == items[j - 1];
          }
        }
      }
    }
  }

  // ---------------------------------------------------------------------------
  // Delete
  // ---------------------------------------------------------------------------

  /** Deleting keeps exactly the records whose id differs. */
  lemma {:induction false} DeleteMembership(items: seq<HistoryItem>, id: string, x: HistoryItem)
    ensures x in WithoutId(items, id) <==> x in items && x.id != id
    decreases |items|
  {
    if items != [] {
      assert items == items[..|items| - 1] + [items[|items| - 1]];
      DeleteMembership(items[..|items| - 1], id, x);
    }
  }

  /** Deleting an id no entry has leaves the list as it was. */
  lemma {:induction false} DeleteMissingId(items: seq<HistoryItem>, id: string)
    requires forall j :: 0 <= j < |items| ==> items[j].id != id
    ensures WithoutId(items, id) == items
    decreases |items|
  {
    if items != [] {
      DeleteMissingId(items[..|items| - 1], id);
    }
  }

  /** Deleting keeps the relative order: the filter of two consecutive parts is
      the filter of the first followed by the filter of the second. */
  lemma {:induction false} DeleteKeepsOrder(a: seq<HistoryItem>, b: seq<HistoryItem>, id: string)
    ensures WithoutId(a + b, id) == WithoutId(a, id) + WithoutId(b, id)
    decreases |b|
  {
    if b == [] {
      assert a + b == a;
    } else {
      assert (a + b)[..|a + b| - 1] == a + b[..|b| - 1];
      DeleteKeepsOrder(a, b[..|b| - 1], id);
    }
  }

  /** Deleting keeps the URLs of the list pairwise distinct. */
  lemma {:induction false} DeletePreservesDistinctUrls(items: seq<HistoryItem>, id: string)
    requires DistinctUrls(items)
    ensures DistinctUrls(WithoutId(items, id))
    decreases |items|
  {
    if items != [] {
      var prefix, last := items[..|items| - 1], items[|items| - 1];
      DeletePreservesDistinctUrls(prefix, id);
      var rest := WithoutId(prefix, id);
      if last.id != id {
        forall i | 0 <= i < |rest|
          ensures rest[i].figmaUrl != last.figmaUrl
        {
          DeleteMembership(prefix, id, rest[i]);
          var j :| 0 <= j < |prefix| && prefix[j] == rest[i];
        }
      }
    }
  }

  // ---------------------------------------------------------------------------
  // Update
  // ---------------------------------------------------------------------------

  /** An update writes nothing exactly when no entry has the id. */
  lemma UpdateMissingId(items: seq<HistoryItem>, id: string, updates: HistoryPatch, now: string)
    ensures Updated(items, id, updates, now).None? <==> forall j :: 0 <= j < |items| ==> items[j].id != id
  {
  }

  /** Otherwise only the first entry with the id changes: each field the patch
      carries replaces the old one, `lastAccessed` becomes `now`; the length and
      every other entry are unchanged. */
  lemma UpdateFirstMatch(items: seq<HistoryItem>, id: string, updates: HistoryPatch, now: string, k: nat)
    requires k < |items| && items[k].id == id
    requires forall j :: 0 <= j < k ==> items[j].id != id
    ensures Updated(items, id, updates, now).Some?
    ensures var r := Updated(items, id, updates, now).value;
      && |r| == |items|
      && (forall j :: 0 <= j < |r| && j != k ==> r[j] == items[j])
      && r[k].id == (if updates.id.Some? then updates.id.value else id)
      && r[k].figmaUrl == (if updates.figmaUrl.Some? then updates.figmaUrl.value else items[k].figmaUrl)
      && r[k].timestamp == (if updates.timestamp.Some? then updates.timestamp.value else items[k].timestamp)
      && r[k].preview == (if updates.preview.Some? then updates.preview.value else items[k].preview)
      && r[k].name == (if updates.name.Some? then updates.name.value else items[k].name)
      && r[k].format == (if updates.format.Some? then updates.format else items[k].format)
      && r[k].lastAccessed == Some(now)
  {
  }

  /** An update that leaves the URL alone keeps the URLs pairwise distinct. */
  lemma UpdatePreservesDistinctUrls(items: seq<HistoryItem>, id: string, updates: HistoryPatch, now: string)
    requires DistinctUrls(items) && updates.figmaUrl.None?
    ensures Updated(items, id, updates, now).Some? ==> DistinctUrls(Updated(items, id, updates, now).value)
  {
  }

  // ---------------------------------------------------------------------------
  // Repeated saves
  // ---------------------------------------------------------------------------

  /** The list after saving `xs[0]` at `nows[0]`, then `xs[1]` at `nows[1]`, ... */
  function SaveAll(items: seq<HistoryItem>, xs: seq<HistoryItem>, nows: seq<string>): seq<HistoryItem>
    requires |xs| == |nows|
    decreases |xs|
  {
    if xs == [] then items else SaveAll(Saved(items, xs[0], nows[0]), xs[1..], nows[1..])
  }

  /** The stamped records of `xs`, the last saved first. */
  function NewestFirst(xs: seq<HistoryItem>, nows: seq<string>): (r: seq<HistoryItem>)
    requires |xs| == |nows|
    ensures |r| == |xs|
    decreases |xs|
  {
    if xs == [] then [] else NewestFirst(xs[1..], nows[1..]) + [Stamp(xs[0], nows[0])]
  }

  lemma {:induction false} NewestFirstAt(xs: seq<HistoryItem>, nows: seq<string>, j: nat)
    requires |xs| == |nows| && j < |xs|
    ensures NewestFirst(xs, nows)[j] == xs[|xs| - 1 - j].(lastAccessed := Some(nows[|xs| - 1 - j]))
    decreases |xs|
  {
    if j < |xs| - 1 {
      NewestFirstAt(xs[1..], nows[1..], j);
    }
  }

  lemma TakeOfTake(a: seq<HistoryItem>, b: seq<HistoryItem>, n: nat)
    ensures Take(a + Take(b, n), n) == Take(a + b, n)
  {
    var l, r := Take(a + Take(b, n), n), Take(a + b, n);
    assert |l| == |r|;
    forall j | 0 <= j < |l|
      ensures l[j] == r[j]
    {
      if j >= |a| {
        assert (a + Take(b, n))[j] == Take(b, n)[j - |a|];
      }
    }
  }

  /** A save of a new URL is a push at the head followed by the cut. */
  lemma SaveFreshIsPush(items: seq<HistoryItem>, item: HistoryItem, now: string)
    requires forall j :: 0 <= j < |items| ==> items[j].figmaUrl != item.figmaUrl
    ensures Saved(items, item, now) == Take([Stamp(item, now)] + items, MaxItems)
  {
  }

  /** URLs absent from the list and different from the saved one stay absent. */
  lemma SaveFreshKeepsOthersAbsent(items: seq<HistoryItem>, item: HistoryItem, now: string, rest: seq<HistoryItem>)
    requires forall j :: 0 <= j < |items| ==> items[j].figmaUrl != item.figmaUrl
    requires forall i :: 0 <= i < |rest| ==> rest[i].figmaUrl != item.figmaUrl
    requires forall i, j :: 0 <= i < |rest| && 0 <= j < |items| ==> rest[i].figmaUrl != items[j].figmaUrl
    ensures forall i, j :: 0 <= i < |rest| && 0 <= j < |Saved(items, item, now)| ==>
              rest[i].figmaUrl != Saved(items, item, now)[j].figmaUrl
  {
    var saved := Saved(items, item, now);
    SaveFreshIsPush(items, item, now);
    forall i, j | 0 <= i < |rest| && 0 <= j < |saved|
      ensures rest[i].figmaUrl != saved[j].figmaUrl
    {
      if j > 0 {
        assert saved[j] == items[j - 1];
      }
    }
  }

  /** Peeling off the first save: the rest of the new records come before the
      first one, which comes before the old list. */
  lemma NewestFirstStep(items: seq<HistoryItem>, xs: seq<HistoryItem>, nows: seq<string>)
    requires |xs| == |nows| && xs != []
    ensures Take(NewestFirst(xs[1..], nows[1..]) + Take([Stamp(xs[0], nows[0])] + items, MaxItems), MaxItems)
            == Take(NewestFirst(xs, nows) + items, MaxItems)
  {
    var head := Stamp(xs[0], nows[0]);
    TakeOfTake(NewestFirst(xs[1..], nows[1..]), [head] + items, MaxItems);
    assert NewestFirst(xs[1..], nows[1..]) + ([head] + items) == NewestFirst(xs, nows) + items;
  }

  /** Saving URLs that are new and pairwise distinct puts each at the head in
      turn: the list ends as the new records, newest first, followed by the old
      ones, cut to ten. */
  lemma {:induction false} FreshSavesKeepNewest(items: seq<HistoryItem>, xs: seq<HistoryItem>, nows: seq<string>)
    requires |xs| == |nows| && |items| <= MaxItems
    requires forall i, j :: 0 <= i < j < |xs| ==> xs[i].figmaUrl != xs[j].figmaUrl
    requires forall i, j :: 0 <= i < |xs| && 0 <= j < |items| ==> xs[i].figmaUrl != items[j].figmaUrl
    ensures SaveAll(items, xs, nows) == Take(NewestFirst(xs, nows) + items, MaxItems)
    decreases |xs|
  {
    if xs != [] {
      var rest, later := xs[1..], nows[1..];
      var saved := Saved(items, xs[0], nows[0]);
      assert forall j :: 0 <= j < |items| ==> items[j].figmaUrl != xs[0].figmaUrl;
      SaveFreshIsPush(items, xs[0], nows[0]);
      SaveFreshKeepsOthersAbsent(items, xs[0], nows[0], rest);
      FreshSavesKeepNewest(saved, rest, later);
      NewestFirstStep(items, xs, nows);
    }
  }

  /** Starting from an empty history, after at least ten saves of distinct URLs
      exactly ten records remain: the ten saved last, newest first. */
  lemma TenMostRecentRemain(xs: seq<HistoryItem>, nows: seq<string>)
    requires |xs| == |nows| && |xs| >= MaxItems
    requires forall i, j :: 0 <= i < j < |xs| ==> xs[i].figmaUrl != xs[j].figmaUrl
    ensures var r := SaveAll([], xs, nows);
      && |r| == MaxItems
      && forall j :: 0 <= j < MaxItems ==> r[j] == xs[|xs| - 1 - j].(lastAccessed := Some(nows[|xs| - 1 - j]))
  {
    FreshSavesKeepNewest([], xs, nows);
    assert NewestFirst(xs, nows) + [] == NewestFirst(xs, nows);
    forall j | 0 <= j < MaxItems
      ensures SaveAll([], xs, nows)[j] == xs[|xs| - 1 - j].(lastAccessed := Some(nows[|xs| - 1 - j]))
    {
      NewestFirstAt(xs, nows, j);
    }
  }
}
