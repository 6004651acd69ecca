/**
 * The server-side topic store (server/storage.ts): a `Map<string, Topic>` in
 * memory, seeded with three sample topics. `randomUUID()` becomes an id
 * argument that is not yet a key; `Math.random()` becomes a stream of draws
 * in [0, 1) that the sample generator reads from the front.
 */
module ServerStore {
  import opened Schema
  import opened TopicMap

  // ---------------------------------------------------------------------------
  // Sample data
  // ---------------------------------------------------------------------------

  /** 2024-01-01, a Monday, as a day number. */
  const SampleStart: Day := 19723

  const SampleDays: nat := 365

  /**
   * `getDay()` from 1 (Monday) to 5 (Friday). Day 0 was a Thursday, so the
   * weekend days are those 2 (Saturday) and 3 (Sunday) modulo 7.
   */
  function IsWeekday(d: Day): (b: bool)
    ensures b <==> d % 7 != 2 && d % 7 != 3
  {
    1 <= DayOfWeek(d) <= 5
  }

  /** Every value of the stream is one `Math.random()` could return. */
  ghost predicate Draws(rand: seq<real>)
  {
    forall i :: 0 <= i < |rand| ==> 0.0 <= rand[i] < 1.0
  }

  /**
   * Entries the generator may have stored for the days before `end`: dates
   * increasing from 2024-01-01, whole values from 1 to 8 on a weekday and
   * from 1 to 3 on a weekend day.
   */
  ghost predicate SampleBefore(data: Data, end: Day)
  {
    && (forall i :: 0 <= i < |data| ==>
         && SampleStart <= data[i].date < end
         && data[i].value == data[i].value.Floor as real
         && 1.0 <= data[i].value
         && data[i].value <= (if IsWeekday(data[i].date) then 8.0 else 3.0))
    && (forall i, j :: 0 <= i < j < |data| ==> data[i].date < data[j].date)
  }

  /** Sample data for the 365 days from 2024-01-01. */
  ghost predicate IsSample(data: Data)
  {
    SampleBefore(data, SampleStart + SampleDays)
  }

  /**
   * `generateSampleData`: for each of the 365 days from 2024-01-01 a weekday
   * draws `floor(r * 9)` and a weekend day draws `floor(r' * 4)` only when a
   * first draw exceeds 0.7; a value of 0 is not stored. At most two draws a
   * day are read.
   */
  method GenerateSampleData(rand: seq<real>) returns (data: Data)
    requires |rand| >= 2 * SampleDays && Draws(rand)
    ensures IsSample(data)
  {
    data := [];
    var pos := 0;
    for i := 0 to SampleDays
      invariant pos <= 2 * i
      invariant SampleBefore(data, SampleStart + i)
    {
      var date := SampleStart + i;
      var value: int := 0;
      if IsWeekday(date) {
        value := (rand[pos] * 9.0).Floor;
        pos := pos + 1;
      } else {
        var coin := rand[pos];
        pos := pos + 1;
        if coin > 0.7 {
          value := (rand[pos] * 4.0).Floor;
          pos := pos + 1;
        }
      }
      if value > 0 {
        data := data + [Entry(date, value as real)];
      }
    }
  }

  /** Sample data never stores a zero (or negative) value and never repeats a date. */
  lemma SampleIsPositive(data: Data)
    requires IsSample(data)
    ensures AllPositive(data) && UniqueDates(data)
  {
  }

  // ---------------------------------------------------------------------------
  // The store
  // ---------------------------------------------------------------------------

  /** `InsertTopic`: a new topic's fields; `data` may be left out. */
  datatype InsertTopic = InsertTopic(name: string, unit: string, data: Option<Data>)

  class MemStorage {
    /** The Map's keys in insertion order. */
    var order: seq<string>
    /** The Map's contents. */
    var topics: map<string, Topic>

    ghost predicate Valid()
      reads this
    {
      WellFormed(order, topics)
    }

    /**
     * `initializeSampleData`: "Coding" (hours) with generated data, then
     * "Reading" (pages) and "Exercise" (minutes) with none.
     */
    constructor(codingId: string, readingId: string, exerciseId: string, rand: seq<real>)
      requires codingId != readingId && codingId != exerciseId && readingId != exerciseId
      requires |rand| >= 2 * SampleDays && Draws(rand)
      ensures Valid() && KeyedById(topics)
      ensures order == [codingId, readingId, exerciseId]
      ensures topics[codingId] == Topic(codingId, "Coding", "hours", topics[codingId].data)
      ensures IsSample(topics[codingId].data)
      ensures topics[readingId] == Topic(readingId, "Reading", "pages", [])
      ensures topics[exerciseId] == Topic(exerciseId, "Exercise", "minutes", [])
    {
      var data := GenerateSampleData(rand);
      order := [codingId, readingId, exerciseId];
      topics := map[
        codingId := Topic(codingId, "Coding", "hours", data),
        readingId := Topic(readingId, "Reading", "pages", []),
        exerciseId := Topic(exerciseId, "Exercise", "minutes", [])];
    }

    /** `getTopic`: the record under `id`, or undefined. */
    method GetTopic(id: string) returns (r: Option<Topic>)
      ensures r.Some? <==> id in topics
      ensures r.Some? ==> r.value == topics[id]
    {
      r := if id in topics then Some(topics[id]) else None;
    }

    /** `getAllTopics`: every record in insertion order. */
    method GetAllTopics() returns (ts: seq<Topic>)
      requires Valid()
      ensures |ts| == |order|
      ensures forall i :: 0 <= i < |ts| ==> ts[i] == topics[order[i]]
      ensures forall k :: k in topics ==> topics[k] in ts
    {
      ts := Values(order, topics);
      forall k | k in topics
        ensures topics[k] in ts
      {
        var i :| 0 <= i < |order| && order[i] == k;
        assert ts[i] == topics[k];
      }
    }

    /** `createTopic`: a fresh key for the new record, `data` defaulting to `{}`; nothing else changes. */
    method CreateTopic(insertTopic: InsertTopic, id: string) returns (t: Topic)
      requires Valid() && id !in topics
      modifies this
      ensures t.id == id && t.name == insertTopic.name && t.unit == insertTopic.unit
      ensures t.data == (if insertTopic.data.Some? then insertTopic.data.value else [])
      ensures topics == old(topics)[id := t] && order == old(order) + [id]
      ensures Valid()
      ensures old(KeyedById(topics)) ==> KeyedById(topics)
    {
      t := Topic(id, insertTopic.name, insertTopic.unit,
        if insertTopic.data.Some? then insertTopic.data.value else []);
      order := order + [id];
      topics := topics[id := t];
    }

    /**
     * `updateTopic`: undefined and no change for a missing id; otherwise
     * `{...topic, ...updates}` under the same key. An `id` among the updates
     * is stored in the record, so the record's id then differs from its key.
     */
    method UpdateTopic(id: string, updates: Patch) returns (r: Option<Topic>)
      requires Valid()
      modifies this
      ensures id !in old(topics) ==> r.None? && topics == old(topics) && order == old(order)
      ensures id in old(topics) ==>
        && r == Some(Merge(old(topics)[id], updates))
        && topics == old(topics)[id := r.value] && order == old(order)
      ensures Valid()
      ensures old(KeyedById(topics)) && updates.id.None? ==> KeyedById(topics)
      ensures id in old(topics) && updates.id.Some? ==> topics[id].id == updates.id.value
    {
      if id !in topics {
        return None;
      }
      var updated := Merge(topics[id], updates);
      topics := topics[id := updated];
      r := Some(updated);
    }

    /** `deleteTopic`: whether the key was there; afterwards it is not. */
    method DeleteTopic(id: string) returns (deleted: bool)
      requires Valid()
      modifies this
      ensures deleted <==> id in old(topics)
      ensures topics == old(topics) - {id} && order == Remove(old(order), id)
      ensures Valid()
      ensures old(KeyedById(topics)) ==> KeyedById(topics)
    {
      deleted := id in topics;
      order := Remove(order, id);
      topics := topics - {id};
    }
  }
}
