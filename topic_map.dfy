/**
 * The `Map<string, Topic>` both stores keep, with JavaScript Map semantics:
 * keys iterate in insertion order, `set` on a present key keeps its position,
 * `delete` drops it. A store holds the key order and the key -> topic map side
 * by side; this module gives the views and the facts both stores need.
 */
module TopicMap {
  import opened Schema

  ghost predicate Distinct(s: seq<string>)
  {
    forall i, j :: 0 <= i < j < |s| ==> s[i] != s[j]
  }

  /** `order` lists each key of `topics` exactly once. */
  ghost predicate WellFormed(order: seq<string>, topics: map<string, Topic>)
  {
    Distinct(order) && forall k :: k in topics <==> k in order
  }

  /** Every record is stored under its own id. */
  ghost predicate KeyedById(topics: map<string, Topic>)
  {
    forall k :: k in topics ==> topics[k].id == k
  }

  /** `Array.from(topics.values())`. */
  function Values(order: seq<string>, topics: map<string, Topic>): (vs: seq<Topic>)
    requires forall k :: k in order ==> k in topics
    ensures |vs| == |order|
    ensures forall i :: 0 <= i < |order| ==> vs[i] == topics[order[i]]
  {
    seq(|order|, i requires 0 <= i < |order| => topics[order[i]])
  }

  /** The key order after `delete(k)`. */
  function Remove(order: seq<string>, k: string): (r: seq<string>)
    ensures forall x :: x in r <==> x in order && x != k
    ensures Distinct(order) ==> Distinct(r)
    ensures Distinct(order) && k in order ==> |r| == |order| - 1
    ensures k !in order ==> r == order
  {
    if order == [] then []
    else
      var rest := Remove(order[1..], k);
      assert forall x :: x in order[1..] ==> x in order;
      if order[0] == k then rest
      else
        assert Distinct(order) ==> order[0] !in order[1..];
        [order[0]] + rest
  }

  /** The key order after `set(k, v)`. */
  function Insert(order: seq<string>, k: string): (r: seq<string>)
    ensures |r| == if k in order then |order| else |order| + 1
    ensures order <= r
    ensures k in r
    ensures Distinct(order) ==> Distinct(r)
  {
    if k in order then order else order + [k]
  }

  lemma InsertWellFormed(order: seq<string>, topics: map<string, Topic>, k: string, t: Topic)
    requires WellFormed(order, topics)
    ensures WellFormed(Insert(order, k), topics[k := t])
  {
  }

  /** `ts.find(t => t.id === id)`. */
  function Find(ts: seq<Topic>, id: string): (r: Option<Topic>)
    ensures r.None? <==> forall i :: 0 <= i < |ts| ==> ts[i].id != id
    ensures r.Some? ==> r.value.id == id && r.value in ts
    ensures r.Some? ==> exists i :: 0 <= i < |ts| && ts[i] == r.value && forall j :: 0 <= j < i ==> ts[j].id != id
  {
    if ts == [] then None
    else if ts[0].id == id then Some(ts[0])
    else
      var r := Find(ts[1..], id);
      if r.Some? then
        var i :| 0 <= i < |ts[1..]| && ts[1..][i] == r.value && forall j :: 0 <= j < i ==> ts[1..][j].id != id;
        assert ts[i + 1] == r.value;
        r
      else r
  }

  /** A record whose id no earlier record has is the one `find` returns for that id. */
  lemma FindLast(ts: seq<Topic>, t: Topic)
    requires ts != [] && ts[|ts| - 1] == t
    requires forall i :: 0 <= i < |ts| - 1 ==> ts[i].id != t.id
    ensures Find(ts, t.id) == Some(t)
  {
    var n := |ts| - 1;
    assert ts[n].id == t.id;
    var r := Find(ts, t.id);
    var i :| 0 <= i < |ts| && ts[i] == r.value && forall j :: 0 <= j < i ==> ts[j].id != t.id;
    assert i == n;
  }

  /** A record added under a fresh id is listed last, and `find` on its id returns it. */
  lemma FindCreated(order: seq<string>, topics: map<string, Topic>, t: Topic)
    requires WellFormed(order, topics) && KeyedById(topics) && t.id !in topics
    ensures Find(Values(order + [t.id], topics[t.id := t]), t.id) == Some(t)
  {
    var vs := Values(order + [t.id], topics[t.id := t]);
    assert forall i :: 0 <= i < |vs| - 1 ==> vs[i].id == order[i];
    FindLast(vs, t);
  }

  /** `ts.filter(t => t.id !== id)`. */
  function Without(ts: seq<Topic>, id: string): (r: seq<Topic>)
    ensures forall t :: t in r <==> t in ts && t.id != id
  {
    if ts == [] then []
    else
      assert forall t :: t in ts[1..] ==> t in ts;
      if ts[0].id == id then Without(ts[1..], id) else [ts[0]] + Without(ts[1..], id)
  }

  /**
   * The store filled by `ts.forEach(t => topics.set(t.id, t))` on an empty
   * Map: the key order and the map after the last element.
   */
  ghost function ImportAll(ts: seq<Topic>): (seq<string>, map<string, Topic>)
  {
    (ImportOrder(ts), ImportMap(ts))
  }

  /** The key order after `ts.forEach(t => topics.set(t.id, t))` on an empty Map. */
  ghost function ImportOrder(ts: seq<Topic>): seq<string>
  {
    if ts == [] then [] else Insert(ImportOrder(ts[..|ts| - 1]), ts[|ts| - 1].id)
  }

  /** The Map's contents after `ts.forEach(t => topics.set(t.id, t))` on an empty Map. */
  ghost function ImportMap(ts: seq<Topic>): map<string, Topic>
  {
    if ts == [] then map[] else ImportMap(ts[..|ts| - 1])[ts[|ts| - 1].id := ts[|ts| - 1]]
  }

  /** The store `forEach(set)` builds lists each key once and keeps every record under its own id. */
  lemma {:induction false} ImportWellFormed(ts: seq<Topic>)
    ensures WellFormed(ImportOrder(ts), ImportMap(ts)) && KeyedById(ImportMap(ts))
  {
    if ts != [] {
      var init, t := ts[..|ts| - 1], ts[|ts| - 1];
      ImportWellFormed(init);
      InsertWellFormed(ImportOrder(init), ImportMap(init), t.id, t);
    }
  }

  /** After an import the keys are exactly the ids of the imported records. */
  lemma {:induction false} ImportKeys(ts: seq<Topic>)
    ensures forall k :: k in ImportMap(ts) <==> exists i :: 0 <= i < |ts| && ts[i].id == k
  {
    forall k
      ensures k in ImportMap(ts) <==> exists i :: 0 <= i < |ts| && ts[i].id == k
    {
      ImportKey(ts, k);
    }
  }

  /** One key at a time: `k` is imported exactly when some record has the id `k`. */
  lemma {:induction false} ImportKey(ts: seq<Topic>, k: string)
    ensures k in ImportMap(ts) <==> exists i :: 0 <= i < |ts| && ts[i].id == k
  {
    if ts != [] {
      var n := |ts| - 1;
      var init := ts[..n];
      ImportKey(init, k);
      ImportLast(ts, k);
      if k == ts[n].id {
        assert ts[n].id == k;
      } else {
        if k in ImportMap(init) {
          var i :| 0 <= i < n && init[i].id == k;
          assert ts[i].id == k;
        }
        if exists i :: 0 <= i < |ts| && ts[i].id == k {
          var i :| 0 <= i < |ts| && ts[i].id == k;
          assert init[i].id == k;
        }
      }
    }
  }

  /** After importing a non-empty array, `find` on the listing locates the first record's id. */
  lemma ImportFirstFound(ts: seq<Topic>)
    requires ts != []
    ensures WellFormed(ImportOrder(ts), ImportMap(ts))
      && Find(Values(ImportOrder(ts), ImportMap(ts)), ts[0].id).Some?
  {
    ImportWellFormed(ts);
    ImportKey(ts, ts[0].id);
    FindKey(ImportOrder(ts), ImportMap(ts), ts[0].id);
  }

  /** The last record's id is added to the keys imported before it. */
  lemma ImportLast(ts: seq<Topic>, k: string)
    requires ts != []
    ensures k in ImportMap(ts) <==> k == ts[|ts| - 1].id || k in ImportMap(ts[..|ts| - 1])
  {
  }

  /** `find` on the listing of a store keyed by id locates every stored key. */
  lemma FindKey(order: seq<string>, topics: map<string, Topic>, k: string)
    requires WellFormed(order, topics) && KeyedById(topics) && k in topics
    ensures Find(Values(order, topics), k).Some?
  {
    var i :| 0 <= i < |order| && order[i] == k;
    assert Values(order, topics)[i].id == k;
  }

  /** On duplicate ids the later record wins. */
  lemma {:induction false} ImportLaterWins(ts: seq<Topic>, i: nat)
    requires i < |ts|
    requires forall j :: i < j < |ts| ==> ts[j].id != ts[i].id
    ensures ts[i].id in ImportMap(ts) && ImportMap(ts)[ts[i].id] == ts[i]
  {
    var n := |ts| - 1;
    assert ImportMap(ts) == ImportMap(ts[..n])[ts[n].id := ts[n]];
    if i < n {
      assert ts[..n][i] == ts[i];
      forall j | i < j < n
        ensures ts[..n][j].id != ts[..n][i].id
      {
        assert ts[..n][j] == ts[j];
      }
      ImportLaterWins(ts[..n], i);
    }
  }

  /** `Values` of a prefix of the key order is the prefix of `Values`. */
  lemma ValuesPrefix(order: seq<string>, topics: map<string, Topic>, n: nat)
    requires forall k :: k in order ==> k in topics
    requires n <= |order|
    ensures forall k :: k in order[..n] ==> k in topics
    ensures Values(order[..n], topics) == Values(order, topics)[..n]
  {
    assert forall k :: k in order[..n] ==> k in order;
  }

  /** The part of `topics` under the keys listed in `keys`. */
  ghost function Restrict(keys: seq<string>, topics: map<string, Topic>): map<string, Topic>
    requires forall k :: k in keys ==> k in topics
  {
    map k | k in keys :: topics[k]
  }

  /** Extending the key list by its next key extends the restriction by that key. */
  lemma RestrictStep(order: seq<string>, topics: map<string, Topic>)
    requires order != [] && Distinct(order)
    requires forall k :: k in order ==> k in topics
    ensures forall k :: k in order[..|order| - 1] ==> k in topics
    ensures Insert(order[..|order| - 1], order[|order| - 1]) == order
    ensures Restrict(order[..|order| - 1], topics)[order[|order| - 1] := topics[order[|order| - 1]]]
      == Restrict(order, topics)
  {
    var n := |order| - 1;
    assert forall k :: k in order[..n] ==> k in order;
    assert order[n] !in order[..n];
    assert order[..n] + [order[n]] == order;
  }

  /**
   * Importing the exported values of a store keyed by id rebuilds the store
   * restricted to the exported keys, in the same order.
   */
  lemma {:induction false} ImportValuesPrefix(order: seq<string>, topics: map<string, Topic>)
    requires Distinct(order) && KeyedById(topics)
    requires forall k :: k in order ==> k in topics
    ensures ImportAll(Values(order, topics)) == (order, Restrict(order, topics))
  {
    if order != [] {
      var vs := Values(order, topics);
      var n := |order| - 1;
      ValuesPrefix(order, topics, n);
      ImportValuesPrefix(order[..n], topics);
      RestrictStep(order, topics);
      assert vs[..n] == Values(order[..n], topics);
      assert vs[n] == topics[order[n]] && vs[n].id == order[n];
    }
  }

  /** Round trip: `importData(exportData())` leaves a store keyed by id unchanged. */
  lemma ExportImportRoundTrip(order: seq<string>, topics: map<string, Topic>)
    requires WellFormed(order, topics) && KeyedById(topics)
    ensures ImportAll(Values(order, topics)) == (order, topics)
  {
    ImportValuesPrefix(order, topics);
    assert Restrict(order, topics) == topics;
  }

  lemma ValuesCons(order: seq<string>, topics: map<string, Topic>)
    requires order != [] && forall k :: k in order ==> k in topics
    ensures forall k :: k in order[1..] ==> k in topics
    ensures Values(order, topics) == [topics[order[0]]] + Values(order[1..], topics)
  {
    assert forall k :: k in order[1..] ==> k in order;
  }

  /**
   * Dropping a key from the store and listing its values gives the old
   * listing without the records carrying that id.
   */
  lemma {:induction false} ValuesAfterRemove(order: seq<string>, topics: map<string, Topic>, k: string)
    requires Distinct(order) && KeyedById(topics)
    requires forall x :: x in order ==> x in topics
    ensures forall x :: x in Remove(order, k) ==> x in topics - {k}
    ensures Values(Remove(order, k), topics - {k}) == Without(Values(order, topics), k)
  {
    if order != [] {
      var rest := order[1..];
      var vs := Values(order, topics);
      ValuesCons(order, topics);
      ValuesAfterRemove(rest, topics, k);
      var t := topics[order[0]];
      assert t.id == order[0];
      assert vs[1..] == Values(rest, topics);
      assert Without(vs, k) == if t.id == k then Without(vs[1..], k) else [t] + Without(vs[1..], k);
      if order[0] != k {
        var r := Remove(order, k);
        assert r == [order[0]] + Remove(rest, k);
        ValuesCons(r, topics - {k});
        assert r[1..] == Remove(rest, k);
      }
    }
  }
}
