/** The bookmark store of the shop pages: a list of saved products kept in
    local storage under one key and memoised in a cache, with add (no
    duplicate ids), remove, toggle and clear, and the order the bookmark page
    lists the entries in. */
module Bookmark {
  import opened Wrappers
  import Seqs
  import opened ClientCommon

  /** The storage key of the list. */
  const LS_KEY: string := "moltiz:bookmarks"

  /** A product as a heart button describes it; a missing id is the empty string. */
  datatype Item = Item(id: string, name: string, price: int, image: string, url: string)

  /** A saved product and the time it was saved. */
  datatype Entry = Entry(item: Item, addedAt: Time)

  function Id(e: Entry): string {
    e.item.id
  }

  function AddedAt(e: Entry): int {
    e.addedAt
  }

  /** Some entry of the list carries `id`. */
  predicate HasId(list: seq<Entry>, id: string) {
    exists i | 0 <= i < |list| :: list[i].item.id == id
  }

  /** The list after adding `item` at time `now`: unchanged when its id is
      already saved, otherwise extended by one entry at the end. */
  function AddTo(list: seq<Entry>, item: Item, now: Time): (r: seq<Entry>)
    ensures list <= r && |r| <= |list| + 1
    ensures HasId(r, item.id)
    ensures forall id :: HasId(r, id) <==> HasId(list, id) || id == item.id
    ensures |r| == |list| + 1 ==> r[|list|] == Entry(item, now)
  {
    if HasId(list, item.id) then list
    else
      var r := list + [Entry(item, now)];
      assert r[|list|].item.id == item.id;
      assert forall i | 0 <= i < |list| :: r[i] == list[i];
      r
  }

  predicate OtherId(id: string, e: Entry) {
    e.item.id != id
  }

  /** The list without the entries carrying `id`, the others in their order. */
  function RemoveFrom(list: seq<Entry>, id: string): (r: seq<Entry>)
    ensures !HasId(r, id)
    ensures forall other | other != id :: HasId(r, other) <==> HasId(list, other)
    ensures forall e | e in list && e.item.id != id :: e in r
    ensures forall e | e in r :: e in list
  {
    var r := Seqs.Filter(list, e => OtherId(id, e));
    forall other | other != id && HasId(list, other) ensures HasId(r, other) {
      var i :| 0 <= i < |list| && list[i].item.id == other;
      assert list[i] in r;
      var j :| 0 <= j < |r| && r[j] == list[i];
    }
    forall other | HasId(r, other) ensures HasId(list, other) {
      var j :| 0 <= j < |r| && r[j].item.id == other;
      assert r[j] in list;
      var i :| 0 <= i < |list| && list[i] == r[j];
    }
    forall e | e in list && e.item.id != id ensures e in r {
      var i :| 0 <= i < |list| && list[i] == e;
    }
    r
  }

  /** What a toggle does to the list: remove when the id is saved, add otherwise. */
  function ToggleIn(list: seq<Entry>, item: Item, now: Time): seq<Entry> {
    if HasId(list, item.id) then RemoveFrom(list, item.id) else AddTo(list, item, now)
  }

  /** The order of the bookmark page: newest first, a stable sort on the time saved. */
  function PageOrder(list: seq<Entry>): (r: seq<Entry>)
    ensures multiset(r) == multiset(list)
    ensures Seqs.SortedDesc(r, AddedAt)
  {
    Seqs.SortDesc(list, AddedAt)
  }

  // ---------------------------------------------------------------- properties

  /** Adding keeps the ids of a list pairwise distinct. */
  lemma AddKeepsIdsDistinct(list: seq<Entry>, item: Item, now: Time)
    requires Seqs.DistinctBy(list, Id)
    ensures Seqs.DistinctBy(AddTo(list, item, now), Id)
  {
    var r := AddTo(list, item, now);
    forall i, j | 0 <= i < j < |r| ensures Id(r[i]) != Id(r[j]) {
      if j == |list| {
        assert r[i] == list[i];
      } else {
        assert r[i] == list[i] && r[j] == list[j];
      }
    }
  }

  lemma {:induction false} RemoveAppend(a: seq<Entry>, b: seq<Entry>, id: string)
    ensures RemoveFrom(a + b, id) == RemoveFrom(a, id) + RemoveFrom(b, id)
  {
    Seqs.FilterAppend(a, b, e => OtherId(id, e));
  }

  /** Removing drops exactly the entries with that id and keeps every other
      entry where it stood relative to the rest. */
  lemma RemoveKeepsOthersInOrder(a: seq<Entry>, e: Entry, b: seq<Entry>, id: string)
    requires e.item.id != id
    ensures RemoveFrom(a + [e] + b, id) == RemoveFrom(a, id) + [e] + RemoveFrom(b, id)
  {
    RemoveAppend(a + [e], b, id);
    RemoveAppend(a, [e], id);
    assert [e][1..] == [];
  }

  /** Removing an id that is absent changes nothing. */
  lemma RemoveAbsent(list: seq<Entry>, id: string)
    requires !HasId(list, id)
    ensures RemoveFrom(list, id) == list
  {
    Seqs.FilterAll(list, e => OtherId(id, e));
  }

  /** Removing keeps the ids of a list pairwise distinct. */
  lemma RemoveKeepsIdsDistinct(list: seq<Entry>, id: string)
    requires Seqs.DistinctBy(list, Id)
    ensures Seqs.DistinctBy(RemoveFrom(list, id), Id)
  {
    Seqs.FilterKeepsOrdered(list, e => OtherId(id, e), (x: Entry, y: Entry) => Id(x) != Id(y));
  }

  /** A toggle flips whether the item is saved and leaves every other id as it was. */
  lemma ToggleFlips(list: seq<Entry>, item: Item, now: Time)
    ensures HasId(ToggleIn(list, item, now), item.id) <==> !HasId(list, item.id)
    ensures forall id | id != item.id :: HasId(ToggleIn(list, item, now), id) <==> HasId(list, id)
  {
  }

  /** Toggling an unsaved item twice gives the list back. */
  lemma ToggleTwice(list: seq<Entry>, item: Item, t1: Time, t2: Time)
    requires !HasId(list, item.id)
    ensures ToggleIn(ToggleIn(list, item, t1), item, t2) == list
  {
    var e := Entry(item, t1);
    assert ToggleIn(list, item, t1) == list + [e];
    RemoveAppend(list, [e], item.id);
    RemoveAbsent(list, item.id);
    assert RemoveFrom([e], item.id) == [] by {
      assert [e][1..] == [];
    }
  }

  /** On the bookmark page a product saved later is listed before one saved earlier. */
  lemma PageOrderNewestFirst(list: seq<Entry>, i: nat, j: nat)
    requires i < |PageOrder(list)| && j < |PageOrder(list)|
    requires PageOrder(list)[i].addedAt > PageOrder(list)[j].addedAt
    ensures i < j
  {
  }

  // ---------------------------------------------------------------- the store

  /** The memoised store: `cache` is the in-memory list (`None` before the first
      read and after an invalidation) and `stored` what local storage holds
      under the key (`None` when the key is missing or its value does not
      parse, which reads as the empty list). */
  class Favorites {
    var cache: Option<seq<Entry>>
    var stored: Option<seq<Entry>>

    /** The list every operation works on: the cache once filled, otherwise
        what a read of the storage would give. */
    function Current(): seq<Entry>
      reads this
    {
      if cache.Some? then cache.value else stored.GetOr([])
    }

    /** The cache holds what the storage holds, or nothing. */
    predicate Synced()
      reads this
    {
      cache.None? || cache.value == stored.GetOr([])
    }

    constructor (stored0: Option<seq<Entry>>)
      ensures cache == None && stored == stored0
      ensures Synced()
    {
      cache := None;
      stored := stored0;
    }

    /** Fills the cache from storage when it is empty and returns it. */
    method EnsureCache() returns (list: seq<Entry>)
      modifies this
      ensures list == old(Current()) && cache == Some(list)
      ensures stored == old(stored)
      ensures old(Synced()) ==> Synced()
    {
      if cache.None? {
        cache := Some(stored.GetOr([]));
      }
      list := cache.value;
    }

    method Invalidate()
      modifies this
      ensures cache == None && stored == old(stored)
      ensures Synced()
    {
      cache := None;
    }

    /** A copy of the list: being a value, changing it later leaves the cache as it is. */
    method Load() returns (list: seq<Entry>)
      modifies this
      ensures list == old(Current()) && cache == Some(list)
      ensures stored == old(stored)
      ensures old(Synced()) ==> Synced()
    {
      list := EnsureCache();
    }

    /** Replaces the cache with the list and writes it to storage. */
    method Save(list: seq<Entry>)
      modifies this
      ensures cache == Some(list) && stored == Some(list)
      ensures Current() == list && Synced()
    {
      cache := Some(list);
      stored := Some(list);
    }

    method Exists(id: string) returns (b: bool)
      modifies this
      ensures b <==> HasId(old(Current()), id)
      ensures cache == Some(old(Current())) && stored == old(stored)
      ensures old(Synced()) ==> Synced()
    {
      var list := EnsureCache();
      b := HasId(list, id);
    }

    /** Appends the item with the time `now` unless its id is saved; only a
        change is written to storage. */
    method Add(item: Item, now: Time)
      modifies this
      ensures Current() == AddTo(old(Current()), item, now)
      ensures HasId(old(Current()), item.id) ==> stored == old(stored) && cache == Some(old(Current()))
      ensures !HasId(old(Current()), item.id) ==> stored == cache
      ensures old(Synced()) ==> Synced()
    {
      var list := EnsureCache();
      if !HasId(list, item.id) {
        list := list + [Entry(item, now)];
        Save(list);
      }
    }

    /** Drops every entry with the id and writes the rest. */
    method Remove(id: string)
      modifies this
      ensures cache == Some(RemoveFrom(old(Current()), id)) && stored == cache
      ensures Synced()
    {
      var list := EnsureCache();
      Save(RemoveFrom(list, id));
    }

    method ClearAll()
      modifies this
      ensures cache == Some([]) && stored == Some([])
      ensures Current() == [] && Synced()
    {
      Save([]);
    }

    method Toggle(item: Item, now: Time)
      modifies this
      ensures Current() == ToggleIn(old(Current()), item, now)
      ensures old(Synced()) ==> Synced()
    {
      var saved := Exists(item.id);
      if saved {
        Remove(item.id);
      } else {
        Add(item, now);
      }
    }

    /** Another window wrote `value` under `key`; the listener drops the cache
        when the key is the list's. Afterwards the store sees that value. */
    method OnStorage(key: string, value: Option<seq<Entry>>)
      modifies this
      ensures stored == (if key == LS_KEY then value else old(stored))
      ensures key == LS_KEY ==> cache == None && Current() == value.GetOr([]) && Synced()
      ensures key != LS_KEY ==> cache == old(cache)
    {
      if key == LS_KEY {
        stored := value;
        Invalidate();
      }
    }

    /** A click on a heart: nothing for an item without id, otherwise a
        toggle, and the heart shows the item saved exactly when it is saved now. */
    method Click(item: Item, now: Time) returns (liked: Option<bool>)
      modifies this
      ensures item.id == "" ==> liked.None? && cache == old(cache) && stored == old(stored)
      ensures item.id != "" ==>
        && liked == Some(!HasId(old(Current()), item.id))
        && Current() == ToggleIn(old(Current()), item, now)
        && liked.value == HasId(Current(), item.id)
      ensures old(Synced()) ==> Synced()
    {
      if item.id == "" {
        return None;
      }
      var was := Exists(item.id);
      ghost var before := Current();
      Toggle(item, now);
      ToggleFlips(before, item, now);
      liked := Some(!was);
    }
  }
}
