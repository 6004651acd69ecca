/**
 * The browser-side topic store (client/src/lib/localStorage.ts): a
 * `Map<string, Topic>` kept in memory and mirrored, after every change, into
 * one localStorage item as the JSON array of its values.
 *
 * The localStorage item is the field `stored`: `Some(ts)` when it holds the
 * array `ts`, `None` when it is absent (or unreadable, which loads the same
 * way). JSON encoding is left out: the item holds the records themselves.
 * `crypto.randomUUID()` becomes an `id` argument that is not yet a key.
 */
module ClientStore {
  import opened Schema
  import opened TopicMap

  class ClientStorage {
    /** The Map's keys in insertion order. */
    var order: seq<string>
    /** The Map's contents. */
    var topics: map<string, Topic>
    /** The localStorage item under 'heatmap-tracker-data'. */
    var stored: Option<seq<Topic>>

    ghost predicate Valid()
      reads this
    {
      WellFormed(order, topics) && KeyedById(topics)
    }

    /** The localStorage item just written by `saveToStorage`. */
    ghost predicate Saved()
      reads this
      requires Valid()
    {
      stored == Some(Values(order, topics))
    }

    /**
     * `loadFromStorage`: every record of the saved array is `set` under its
     * id, in array order; nothing saved gives an empty store.
     */
    constructor(saved: Option<seq<Topic>>)
      ensures Valid()
      ensures saved.None? ==> order == [] && topics == map[]
      ensures saved.Some? ==> (order, topics) == ImportAll(saved.value)
      ensures stored == saved
    {
      order := [];
      topics := map[];
      stored := saved;
      new;
      if saved.Some? {
        SetEach(saved.value);
        ImportWellFormed(saved.value);
      }
    }

    /** `ts.forEach(t => this.topics.set(t.id, t))` on an empty Map. */
    method SetEach(ts: seq<Topic>)
      requires order == [] && topics == map[]
      modifies this
      ensures (order, topics) == ImportAll(ts)
      ensures stored == old(stored)
    {
      for i := 0 to |ts|
        invariant (order, topics) == ImportAll(ts[..i])
        invariant stored == old(stored)
      {
        assert ts[..i + 1][..i] == ts[..i];
        order := Insert(order, ts[i].id);
        topics := topics[ts[i].id := ts[i]];
      }
      assert ts[..|ts|] == ts;
    }

    /** `getAllTopics`: every stored record, in insertion order. */
    method GetAllTopics() returns (ts: seq<Topic>)
      requires Valid()
      ensures ts == Values(order, topics)
      ensures forall i :: 0 <= i < |ts| ==> ts[i].id == order[i]
      ensures forall k :: k in topics ==> topics[k] in ts
    {
      ts := Values(order, topics);
      forall k | k in topics
        ensures topics[k] in ts
      {
        var i :| 0 <= i < |order| && order[i] == k;
        assert ts[i] == topics[k];
      }
    }

    /** `getTopicById`: the record stored under `id`, if any. */
    method GetTopicById(id: string) returns (r: Option<Topic>)
      requires Valid()
      ensures r.Some? <==> id in topics
      ensures r.Some? ==> r.value == topics[id] && r.value.id == id
    {
      r := if id in topics then Some(topics[id]) else None;
    }

    /**
     * `createTopic`: the record with a fresh id is added as the last key and
     * saved; nothing else changes.
     */
    method CreateTopic(name: string, unit: string, data: Data, id: string) returns (t: Topic)
      requires Valid() && id !in topics
      modifies this
      ensures t == Topic(id, name, unit, data)
      ensures topics == old(topics)[id := t] && order == old(order) + [id]
      ensures Valid() && Saved()
    {
      t := Topic(id, name, unit, data);
      order := order + [id];
      topics := topics[id := t];
      stored := Some(Values(order, topics));
    }

    /**
     * `updateTopic`: on a missing id the error "Topic with id ... not found"
     * and no change; otherwise the supplied fields replace the stored ones,
     * the key keeps its place and the store is saved. The source's type
     * keeps `id` out of the updates.
     */
    method UpdateTopic(id: string, updates: Patch) returns (r: Result<Topic>)
      requires Valid() && updates.id.None?
      modifies this
      ensures id !in old(topics) ==>
        r == NotFound(id) && topics == old(topics) && order == old(order) && stored == old(stored)
      ensures id in old(topics) ==>
        && r == Ok(Merge(old(topics)[id], updates))
        && topics == old(topics)[id := r.value] && order == old(order)
        && Saved()
      ensures Valid()
    {
      if id !in topics {
        return NotFound(id);
      }
      var updated := Merge(topics[id], updates);
      topics := topics[id := updated];
      stored := Some(Values(order, topics));
      r := Ok(updated);
    }

    /** `deleteTopic`: a missing id is an error and no change; otherwise exactly that key goes. */
    method DeleteTopic(id: string) returns (r: Result<()>)
      requires Valid()
      modifies this
      ensures id !in old(topics) ==>
        r == NotFound(id) && topics == old(topics) && order == old(order) && stored == old(stored)
      ensures id in old(topics) ==>
        && r == Ok(())
        && topics == old(topics) - {id} && order == Remove(old(order), id)
        && Saved()
      ensures Valid()
    {
      if id !in topics {
        return NotFound(id);
      }
      order := Remove(order, id);
      topics := topics - {id};
      stored := Some(Values(order, topics));
      r := Ok(());
    }

    /** `exportData`: every stored record, in insertion order. */
    method ExportData() returns (ts: seq<Topic>)
      requires Valid()
      ensures ts == Values(order, topics)
      ensures ImportAll(ts) == (order, topics)
    {
      ts := Values(order, topics);
      ExportImportRoundTrip(order, topics);
    }

    /**
     * `importData`: the store is emptied and refilled from `ts` alone, then
     * saved; the input comes back unchanged with the success message.
     */
    method ImportData(ts: seq<Topic>) returns (message: string, imported: seq<Topic>)
      modifies this
      ensures (order, topics) == ImportAll(ts)
      ensures Valid() && Saved()
      ensures message == "Data imported successfully" && imported == ts
    {
      order := [];
      topics := map[];
      SetEach(ts);
      ImportWellFormed(ts);
      stored := Some(Values(order, topics));
      message := "Data imported successfully";
      imported := ts;
    }

    /**
     * `importData` handed a parsed value that is not an array (the caller's
     * `Topic[]` annotation is not checked): the Map is cleared, then
     * `forEach` throws before anything is saved.
     */
    method ImportNonArray()
      modifies this
      ensures order == [] && topics == map[] && stored == old(stored)
      ensures Valid()
    {
      order := [];
      topics := map[];
    }

    /** `clearAllData`: an empty store and no saved item. */
    method ClearAllData()
      modifies this
      ensures order == [] && topics == map[] && stored == None
      ensures Valid()
    {
      order := [];
      topics := map[];
      stored := None;
    }
  }
}
