/** The saved-meme gallery: an in-memory list, newest first, and its persisted copy
    under the `memeGallery` storage key. Encoded images are opaque strings. */
module Gallery {
  import opened Wrappers

  type Entry = string

  /** The storage slot: absent until the first save, then the list last written. */
  type Storage = Option<seq<Entry>>

  datatype Shelf = Shelf(entries: seq<Entry>, stored: Storage)

  /** The list a page load restores: the stored list if the key is present, else empty. */
  function Restore(stored: Storage): seq<Entry> {
    match stored
    case Some(entries) => entries
    case None => []
  }

  /** The in-memory list is what a page load would restore from storage. */
  ghost predicate InSync(s: Shelf) {
    s.entries == Restore(s.stored)
  }

  /** The gallery-load effect at mount. */
  function Startup(stored: Storage): (r: Shelf)
    ensures InSync(r) && r.stored == stored
    ensures stored.None? ==> r.entries == []
    ensures stored.Some? ==> r.entries == stored.value
  {
    Shelf(Restore(stored), stored)
  }

  /** Save: prepend the new entry and rewrite the stored copy with the whole new list. */
  function Save(s: Shelf, e: Entry): (r: Shelf)
    ensures |r.entries| == |s.entries| + 1
    ensures r.entries[0] == e && r.entries[1..] == s.entries
    ensures r.stored == Some(r.entries)
    ensures InSync(r)
  {
    var updated := [e] + s.entries;
    Shelf(updated, Some(updated))
  }

  /** Several saves in order. */
  function SaveAll(s: Shelf, es: seq<Entry>): Shelf
    decreases |es|
  {
    if es == [] then s else SaveAll(Save(s, es[0]), es[1..])
  }

  function Reverse(es: seq<Entry>): (r: seq<Entry>)
    ensures |r| == |es|
    ensures forall i :: 0 <= i < |es| ==> r[i] == es[|es| - 1 - i]
    decreases |es|
  {
    if es == [] then [] else Reverse(es[1..]) + [es[0]]
  }

  /** After saves of `es` the gallery lists them newest first, followed by the older
      entries in their old order. */
  lemma {:induction false} SavesListNewestFirst(s: Shelf, es: seq<Entry>)
    ensures SaveAll(s, es).entries == Reverse(es) + s.entries
    decreases |es|
  {
    if es != [] {
      var s' := Save(s, es[0]);
      SavesListNewestFirst(s', es[1..]);
      calc {
        SaveAll(s, es).entries;
        Reverse(es[1..]) + ([es[0]] + s.entries);
        (Reverse(es[1..]) + [es[0]]) + s.entries;
        Reverse(es) + s.entries;
      }
    }
  }

  /** Once anything was saved, storage holds exactly the in-memory list, so a page
      load restores it; and a gallery in sync with storage stays in sync. */
  lemma {:induction false} SavesPersist(s: Shelf, es: seq<Entry>)
    ensures es != [] ==> SaveAll(s, es).stored == Some(SaveAll(s, es).entries)
    ensures es != [] ==> Startup(SaveAll(s, es).stored).entries == SaveAll(s, es).entries
    ensures InSync(s) ==> InSync(SaveAll(s, es))
    decreases |es|
  {
    if es != [] {
      SavesPersist(Save(s, es[0]), es[1..]);
    }
  }
}
