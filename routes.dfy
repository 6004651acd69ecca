/**
 * The HTTP handlers of the server (server/routes.ts): the topic handlers map
 * what the server store reports to a status code, and the import handler
 * validates an uploaded JSON array, element by element, before handing it
 * on. Request parsing (multer, express, zod) is abstracted: a handler gets
 * the already decoded request.
 */
module Routes {
  import opened Schema
  import opened TopicMap
  import opened ServerStore

  /** A parsed JSON value; an object's members in source order. */
  datatype Json =
    | JNull
    | JBool(b: bool)
    | JNum(n: real)
    | JStr(s: string)
    | JArr(items: seq<Json>)
    | JObj(members: seq<(string, Json)>)

  /** What `res.json(...)` or `res.send()` sends. */
  datatype Body =
    | NoBody
    | Message(text: string)
    | TopicBody(topic: Topic)
    | TopicList(topics: seq<Topic>)
    | Imported(message: string, items: seq<Json>)

  datatype Response = Response(status: int, body: Body)

  // ---------------------------------------------------------------------------
  // Topic handlers
  // ---------------------------------------------------------------------------

  /** `GET /api/topics`: every topic, 200. */
  method ListTopics(store: MemStorage) returns (resp: Response)
    requires store.Valid()
    ensures resp.status == 200 && resp.body.TopicList?
    ensures resp.body.topics == Values(store.order, store.topics)
  {
    var topics := store.GetAllTopics();
    resp := Response(200, TopicList(topics));
  }

  /** `GET /api/topics/:id`: 404 for an unknown id, else the topic with 200. */
  method GetTopic(store: MemStorage, id: string) returns (resp: Response)
    ensures id !in store.topics ==> resp == Response(404, Message("Topic not found"))
    ensures id in store.topics ==> resp == Response(200, TopicBody(store.topics[id]))
  {
    var topic := store.GetTopic(id);
    if topic.None? {
      return Response(404, Message("Topic not found"));
    }
    resp := Response(200, TopicBody(topic.value));
  }

  /**
   * `POST /api/topics`: a body that fails the insert schema (`None`) is 400
   * and stores nothing; a valid one is stored under a fresh id, 201.
   */
  method CreateTopic(store: MemStorage, body: Option<InsertTopic>, id: string) returns (resp: Response)
    requires store.Valid() && id !in store.topics
    modifies store
    ensures store.Valid()
    ensures body.None? ==> (resp == Response(400, Message("Invalid topic data"))
      && store.topics == old(store.topics) && store.order == old(store.order))
    ensures body.Some? ==> (resp.status == 201 && resp.body.TopicBody?
      && resp.body.topic == Topic(id, body.value.name, body.value.unit,
           if body.value.data.Some? then body.value.data.value else [])
      && store.topics == old(store.topics)[id := resp.body.topic]
      && store.order == old(store.order) + [id])
  {
    if body.None? {
      return Response(400, Message("Invalid topic data"));
    }
    var topic := store.CreateTopic(body.value, id);
    resp := Response(201, TopicBody(topic));
  }

  /** `PATCH /api/topics/:id`: 404 and no change for an unknown id, else the merged topic with 200. */
  method PatchTopic(store: MemStorage, id: string, updates: Patch) returns (resp: Response)
    requires store.Valid()
    modifies store
    ensures store.Valid()
    ensures id !in old(store.topics) ==> (resp == Response(404, Message("Topic not found"))
      && store.topics == old(store.topics) && store.order == old(store.order))
    ensures id in old(store.topics) ==> (resp == Response(200, TopicBody(Merge(old(store.topics)[id], updates)))
      && store.topics == old(store.topics)[id := Merge(old(store.topics)[id], updates)]
      && store.order == old(store.order))
  {
    var topic := store.UpdateTopic(id, updates);
    if topic.None? {
      return Response(404, Message("Topic not found"));
    }
    resp := Response(200, TopicBody(topic.value));
  }

  /** `DELETE /api/topics/:id`: 404 when the store had no such key, else 204 with no body. */
  method DeleteTopic(store: MemStorage, id: string) returns (resp: Response)
    requires store.Valid()
    modifies store
    ensures store.Valid()
    ensures id !in old(store.topics) ==> resp == Response(404, Message("Topic not found"))
    ensures id in old(store.topics) ==> resp == Response(204, NoBody)
    ensures store.topics == old(store.topics) - {id}
  {
    var deleted := store.DeleteTopic(id);
    if !deleted {
      return Response(404, Message("Topic not found"));
    }
    resp := Response(204, NoBody);
  }

  // ---------------------------------------------------------------------------
  // Import validation
  // ---------------------------------------------------------------------------

  /** JavaScript truthiness; a missing member is `undefined`, which is falsy. */
  predicate Truthy(v: Option<Json>)
    ensures Truthy(v) <==> v.Some? && v.value !in {JNull, JBool(false), JNum(0.0), JStr("")}
  {
    match v
    case None => false
    case Some(JNull) => false
    case Some(JBool(b)) => b
    case Some(JNum(n)) => n != 0.0
    case Some(JStr(s)) => s != ""
    case Some(_) => true
  }

  /** The member `key` of an object; `JSON.parse` keeps the last of repeated keys. */
  function Member(members: seq<(string, Json)>, key: string): (r: Option<Json>)
    ensures r.None? <==> forall i :: 0 <= i < |members| ==> members[i].0 != key
    ensures r.Some? ==> (key, r.value) in members
  {
    if members == [] then None
    else
      var rest := Member(members[1..], key);
      if rest.Some? then rest
      else if members[0].0 == key then Some(members[0].1)
      else None
  }

  /** Of repeated keys, the last one's value is the member's value. */
  lemma {:induction false} MemberLastWins(members: seq<(string, Json)>, key: string, i: nat)
    requires i < |members| && members[i].0 == key
    requires forall j :: i < j < |members| ==> members[j].0 != key
    ensures Member(members, key) == Some(members[i].1)
  {
    if i > 0 {
      assert forall j :: i - 1 < j < |members[1..]| ==> members[1..][j] == members[j + 1];
      MemberLastWins(members[1..], key, i - 1);
    } else {
      assert Member(members[1..], key).None?;
    }
  }

  /** `topic.key`: a member of an object; arrays and primitives have none of the keys checked here. */
  function Property(j: Json, key: string): (r: Option<Json>)
    requires !j.JNull?
    ensures r.Some? ==> j.JObj? && (key, r.value) in j.members
    ensures j.JObj? ==> (r.Some? <==> exists i :: 0 <= i < |j.members| && j.members[i].0 == key)
  {
    if j.JObj? then Member(j.members, key) else None
  }

  /** `typeof v === 'object'`: objects, arrays and null. */
  predicate IsObjectType(v: Option<Json>)
    ensures IsObjectType(v) <==> v.Some? && !v.value.JBool? && !v.value.JNum? && !v.value.JStr?
  {
    v.Some? && (v.value.JObj? || v.value.JArr? || v.value.JNull?)
  }

  /** The outcome of the check on one element. */
  datatype Verdict = Valid | Invalid | Throws

  /**
   * The loop body's test `!topic.id || !topic.name || !topic.unit ||
   * typeof topic.data !== 'object'`: reading a member of null throws.
   */
  function CheckTopic(j: Json): (v: Verdict)
    ensures v == Throws <==> j.JNull?
    ensures v == Valid <==> (j.JObj? && Truthy(Member(j.members, "id")) && Truthy(Member(j.members, "name"))
      && Truthy(Member(j.members, "unit")) && IsObjectType(Member(j.members, "data")))
  {
    if j.JNull? then Throws
    // a boolean, number, string or array has none of the four members
    else if !j.JObj? then Invalid
    else if !Truthy(Member(j.members, "id")) || !Truthy(Member(j.members, "name")) || !Truthy(Member(j.members, "unit"))
      || !IsObjectType(Member(j.members, "data")) then Invalid
    else Valid
  }

  /** The verdict of the first element that is not valid, or `Valid` when there is none. */
  function FirstFailure(items: seq<Json>): (v: Verdict)
    ensures v == Valid <==> forall i :: 0 <= i < |items| ==> CheckTopic(items[i]) == Valid
  {
    if items == [] then Valid
    else if CheckTopic(items[0]) != Valid then CheckTopic(items[0])
    else
      var v := FirstFailure(items[1..]);
      assert v == Valid <==> forall i :: 0 <= i < |items| ==> CheckTopic(items[i]) == Valid by {
        if v == Valid {
          forall i | 1 <= i < |items|
            ensures CheckTopic(items[i]) == Valid
          {
            assert items[i] == items[1..][i - 1];
          }
        } else {
          var i :| 0 <= i < |items[1..]| && CheckTopic(items[1..][i]) != Valid;
          assert items[i + 1] == items[1..][i];
        }
      }
      v
  }

  /** The upload `upload.single('file')` leaves on the request. */
  datatype Upload = NoFile | File(content: Parsed)

  /** The outcome of `JSON.parse(req.file.buffer.toString())`. */
  datatype Parsed = Unparsable | Value(json: Json)

  /**
   * `POST /api/import`: no file is 400, a parse error 500, a value that is
   * not an array 400; in an array, the first element that is null makes it
   * 500 and the first invalid one 400; an array of valid elements is
   * handed to `storage.importData` and, when that call returns (`stored`),
   * echoed with 200; when it throws, the catch answers 500.
   */
  function ImportResponse(upload: Upload, stored: bool): (r: Response)
    ensures r.status == 200 <==> Accepted(upload) && stored
    ensures Accepted(upload) && stored ==>
      r.body == Imported("Data imported successfully", upload.content.json.items)
    ensures r.status in {200, 400, 500}
  {
    match upload
    case NoFile => Response(400, Message("No file provided"))
    case File(Unparsable) => Response(500, Message("Failed to import data"))
    case File(Value(j)) =>
      if !j.JArr? then Response(400, Message("Invalid file format"))
      else match FirstFailure(j.items)
        case Throws => Response(500, Message("Failed to import data"))
        case Invalid => Response(400, Message("Invalid topic data format"))
        case Valid =>
          if stored then Response(200, Imported("Data imported successfully", j.items))
          else Response(500, Message("Failed to import data"))
  }

  /** Whether an upload is an array whose every element passes the check. */
  predicate Accepted(upload: Upload)
  {
    upload.File? && upload.content.Value? && upload.content.json.JArr?
      && forall i :: 0 <= i < |upload.content.json.items| ==> CheckTopic(upload.content.json.items[i]) == Valid
  }

  /** An element whose id, name or unit is the empty string is rejected with 400. */
  lemma EmptyStringRejected(items: seq<Json>, k: nat, key: string)
    requires k < |items| && items[k].JObj?
    requires key == "id" || key == "name" || key == "unit"
    requires Member(items[k].members, key) == Some(JStr(""))
    requires forall j :: 0 <= j < k ==> CheckTopic(items[j]) == Valid
    ensures forall stored :: ImportResponse(File(Value(JArr(items))), stored) == Response(400, Message("Invalid topic data format"))
  {
    EmptyStringInvalid(items[k], key);
    FirstFailureAt(items, k);
  }

  /** An object whose id, name or unit is the empty string fails the check without throwing. */
  lemma EmptyStringInvalid(j: Json, key: string)
    requires j.JObj? && (key == "id" || key == "name" || key == "unit")
    requires Member(j.members, key) == Some(JStr(""))
    ensures CheckTopic(j) == Invalid
  {
    assert !Truthy(Member(j.members, key));
  }

  /**
   * The handler's loop: `for (const topic of data)` returns at the first
   * element that fails; the array reaches `storage.importData` only when
   * none does. `stored` is whether that call returns normally.
   */
  method HandleImport(upload: Upload, stored: bool) returns (resp: Response, handedOff: Option<seq<Json>>)
    ensures resp == ImportResponse(upload, stored)
    ensures handedOff.Some? <==> Accepted(upload)
    ensures handedOff.Some? ==> handedOff.value == upload.content.json.items
  {
    if upload.NoFile? {
      return Response(400, Message("No file provided")), None;
    }
    if upload.content.Unparsable? {
      return Response(500, Message("Failed to import data")), None;
    }
    var data := upload.content.json;
    if !data.JArr? {
      return Response(400, Message("Invalid file format")), None;
    }
    var items := data.items;
    for i := 0 to |items|
      invariant forall j :: 0 <= j < i ==> CheckTopic(items[j]) == Valid
    {
      var topic := items[i];
      if topic.JNull? {
        assert FirstFailure(items) == Throws by { FirstFailureAt(items, i); }
        return Response(500, Message("Failed to import data")), None;
      }
      if !Truthy(Property(topic, "id")) || !Truthy(Property(topic, "name")) || !Truthy(Property(topic, "unit"))
        || !IsObjectType(Property(topic, "data")) {
        assert FirstFailure(items) == Invalid by { FirstFailureAt(items, i); }
        return Response(400, Message("Invalid topic data format")), None;
      }
    }
    handedOff := Some(items);
    if stored {
      resp := Response(200, Imported("Data imported successfully", items));
    } else {
      resp := Response(500, Message("Failed to import data"));
    }
  }

  /** The first failing element decides the verdict. */
  lemma FirstFailureAt(items: seq<Json>, i: nat)
    requires i < |items| && CheckTopic(items[i]) != Valid
    requires forall j :: 0 <= j < i ==> CheckTopic(items[j]) == Valid
    ensures FirstFailure(items) == CheckTopic(items[i])
  {
    var prefix := items[..i];
    forall j | 0 <= j < |prefix|
      ensures CheckTopic(prefix[j]) == Valid
    {
      assert prefix[j] == items[j];
    }
    FirstFailureFrom(items, i);
  }

  /** The same, with the passing prefix stated through `FirstFailure` itself. */
  lemma {:induction false} FirstFailureFrom(items: seq<Json>, i: nat)
    requires i < |items| && CheckTopic(items[i]) != Valid
    requires FirstFailure(items[..i]) == Valid
    ensures FirstFailure(items) == CheckTopic(items[i])
  {
    if i > 0 {
      var rest := items[1..];
      PassingPrefixTail(items, i);
      assert rest[i - 1] == items[i];
      FirstFailureFrom(rest, i - 1);
      FirstFailureSkip(items);
    }
  }

  /** A passing first element leaves the verdict to the rest. */
  lemma FirstFailureSkip(items: seq<Json>)
    requires items != [] && CheckTopic(items[0]) == Valid
    ensures FirstFailure(items) == FirstFailure(items[1..])
  {
  }

  /** A passing prefix passes its first element and, after it, the rest of the prefix. */
  lemma PassingPrefixTail(items: seq<Json>, i: nat)
    requires 0 < i <= |items| && FirstFailure(items[..i]) == Valid
    ensures CheckTopic(items[0]) == Valid && FirstFailure(items[1..][..i - 1]) == Valid
  {
    var prefix := items[..i];
    assert prefix[0] == items[0];
    assert prefix[1..] == items[1..][..i - 1];
  }
}
