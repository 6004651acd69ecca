/**
 * The main page (client/src/pages/home.tsx): the edit path that sets or
 * deletes one date of the current topic, the download filename stamp, and
 * the handlers that drive the page state over the client store.
 */
module Home {
  import opened Schema
  import opened TopicMap
  import opened Heatmap
  import opened ClientStore
  import SidebarPanel
  import Modals

  // ---------------------------------------------------------------------------
  // Set or delete one date
  // ---------------------------------------------------------------------------

  /**
   * The data copy `handleEntrySave` and `handleQuickAdd` pass on: a value of
   * 0 deletes the date, any other value is stored under it.
   */
  function SetOrDelete(data: Data, date: Day, value: real): (r: Data)
    ensures Get(r, date) == (if value == 0.0 then None else Some(value))
    ensures forall d :: d != date ==> Get(r, d) == Get(data, d)
    ensures UniqueDates(data) ==> UniqueDates(r)
    ensures AllPositive(data) && value >= 0.0 ==> AllPositive(r)
  {
    if value == 0.0 then
      var r := Delete(data, date);
      assert forall i :: 0 <= i < |r| ==> r[i] in data;
      r
    else
      var r := Put(data, date, value);
      assert forall i :: 0 <= i < |r| ==> r[i] in data || r[i] == Entry(date, value);
      r
  }

  /** Deleting a date that is not there leaves the object as it is. */
  lemma {:induction false} DeleteAbsent(data: Data, date: Day)
    requires Get(data, date).None?
    ensures Delete(data, date) == data
  {
    if data != [] {
      DeleteAbsent(data[1..], date);
    }
  }

  /** Setting a date twice to the same value is setting it once. */
  lemma {:induction false} PutTwice(data: Data, date: Day, value: real)
    ensures Put(Put(data, date, value), date, value) == Put(data, date, value)
  {
    if data != [] && data[0].date != date {
      PutTwice(data[1..], date, value);
      var once := Put(data, date, value);
      assert once[1..] == Put(data[1..], date, value);
    }
  }

  /** Saving the same value for the same date twice is saving it once. */
  lemma SetOrDeleteIdempotent(data: Data, date: Day, value: real)
    ensures SetOrDelete(SetOrDelete(data, date, value), date, value) == SetOrDelete(data, date, value)
  {
    if value == 0.0 {
      DeleteAbsent(Delete(data, date), date);
    } else {
      PutTwice(data, date, value);
    }
  }

  /** Saving 0 for a date with no entry changes nothing. */
  lemma SaveZeroOnEmptyDate(data: Data, date: Day)
    requires Get(data, date).None?
    ensures SetOrDelete(data, date, 0.0) == data
  {
    DeleteAbsent(data, date);
  }

  lemma {:induction false} TotalAfterPut(data: Data, date: Day, value: real)
    requires UniqueDates(data)
    ensures Total(Put(data, date, value)) == Total(data) - ValueOn(data, date) + value
  {
    if data != [] {
      if data[0].date == date {
        assert Put(data, date, value)[1..] == data[1..];
      } else {
        TotalAfterPut(data[1..], date, value);
        assert Put(data, date, value)[1..] == Put(data[1..], date, value);
      }
    }
  }

  lemma {:induction false} TotalAfterDelete(data: Data, date: Day)
    requires UniqueDates(data)
    ensures Total(Delete(data, date)) == Total(data) - ValueOn(data, date)
  {
    if data != [] {
      if data[0].date == date {
        DeleteAbsent(data[1..], date);
      } else {
        TotalAfterDelete(data[1..], date);
        assert Delete(data, date)[1..] == Delete(data[1..], date);
      }
    }
  }

  /**
   * The heatmap's total moves by exactly the change made at the saved date:
   * the old value (0 when absent) is replaced by the saved one.
   */
  lemma TotalAfterSave(data: Data, date: Day, value: real)
    requires UniqueDates(data)
    ensures Total(SetOrDelete(data, date, value)) == Total(data) - ValueOn(data, date) + value
  {
    if value == 0.0 {
      TotalAfterDelete(data, date);
    } else {
      TotalAfterPut(data, date, value);
    }
  }

  // ---------------------------------------------------------------------------
  // The download filename
  // ---------------------------------------------------------------------------

  /** The local calendar fields `new Date()` reports: `getMonth()` counts from 0. */
  datatype Clock = Clock(year: nat, month: nat, day: nat, hour: nat, minute: nat)

  /** The calendar fields of a real clock reading. */
  predicate ValidClock(c: Clock)
  {
    c.month < 12 && 1 <= c.day <= 31 && c.hour < 24 && c.minute < 60
  }

  predicate IsDigit(ch: char)
  {
    '0' <= ch <= '9'
  }

  /** The value of a decimal digit; any other character counts as 0. */
  function DigitValue(ch: char): nat
  {
    if IsDigit(ch) then ch as int - '0' as int else 0
  }

  function DigitChar(d: nat): (ch: char)
    requires d < 10
    ensures IsDigit(ch) && DigitValue(ch) == d
  {
    ('0' as int + d) as char
  }

  /** The number a string of decimal digits spells. */
  function DigitsValue(s: string): nat
  {
    if s == [] then 0
    else 10 * DigitsValue(s[..|s| - 1]) + DigitValue(s[|s| - 1])
  }

  /** `String(n)` for a non-negative integer: its decimal digits, no leading zero. */
  function NatToString(n: nat): (s: string)
    ensures 1 <= |s|
    ensures forall i :: 0 <= i < |s| ==> IsDigit(s[i])
    ensures n < 10 <==> |s| == 1
    ensures 10 <= n < 100 <==> |s| == 2
  {
    if n < 10 then [DigitChar(n)]
    else
      var s := NatToString(n / 10) + [DigitChar(n % 10)];
      assert s[..|s| - 1] == NatToString(n / 10);
      s
  }

  /** `String(n)` spells `n`. */
  lemma {:induction false} NatToStringValue(n: nat)
    ensures DigitsValue(NatToString(n)) == n
  {
    if n >= 10 {
      NatToStringValue(n / 10);
      var s := NatToString(n);
      assert s[..|s| - 1] == NatToString(n / 10);
    }
  }

  /** `.padStart(2, '0')`. */
  function PadStart2(s: string): (r: string)
    ensures |r| == if |s| >= 2 then |s| else 2
    ensures r[|r| - |s|..] == s
    ensures forall i :: 0 <= i < |r| - |s| ==> r[i] == '0'
  {
    if |s| >= 2 then s
    else seq(2 - |s|, _ => '0') + s
  }

  /** `.slice(-2)`: the last two characters, or the whole string when shorter. */
  function SliceLast2(s: string): (r: string)
    ensures |r| == if |s| >= 2 then 2 else |s|
    ensures r == s[|s| - |r|..]
  {
    if |s| >= 2 then s[|s| - 2..] else s
  }

  /** `String(n).padStart(2, '0')`. */
  function Pad2(n: nat): (r: string)
    ensures 2 <= |r| && (n < 100 ==> |r| == 2)
    ensures forall i :: 0 <= i < |r| ==> IsDigit(r[i])
  {
    var s := NatToString(n);
    var r := PadStart2(s);
    assert forall i :: |r| - |s| <= i < |r| ==> r[i] == s[i - (|r| - |s|)];
    r
  }

  /** `${day}${month}${year}${hour}${minute}` of `handleDownloadJSON`. */
  function Stamp(c: Clock): (s: string)
    ensures AllDigits(s)
    ensures ValidClock(c) && c.year >= 10 ==> |s| == 10
  {
    SliceLast2Digits(NatToString(c.year));
    AllDigitsConcat(Pad2(c.day), Pad2(c.month + 1));
    AllDigitsConcat(Pad2(c.day) + Pad2(c.month + 1), SliceLast2(NatToString(c.year)));
    AllDigitsConcat(Pad2(c.hour), Pad2(c.minute));
    AllDigitsConcat(Pad2(c.day) + Pad2(c.month + 1) + SliceLast2(NatToString(c.year)), Pad2(c.hour) + Pad2(c.minute));
    Pad2(c.day) + Pad2(c.month + 1) + SliceLast2(NatToString(c.year)) + (Pad2(c.hour) + Pad2(c.minute))
  }

  lemma SliceLast2Digits(s: string)
    requires AllDigits(s)
    ensures AllDigits(SliceLast2(s))
  {
    var r := SliceLast2(s);
    forall i | 0 <= i < |r|
      ensures IsDigit(r[i])
    {
      assert r[i] == s[|s| - |r| + i];
    }
  }

  predicate AllDigits(s: string)
  {
    forall i :: 0 <= i < |s| ==> IsDigit(s[i])
  }

  lemma AllDigitsConcat(a: string, b: string)
    requires AllDigits(a) && AllDigits(b)
    ensures AllDigits(a + b)
  {
    forall i | 0 <= i < |a + b|
      ensures IsDigit((a + b)[i])
    {
      if i >= |a| {
        assert (a + b)[i] == b[i - |a|];
      }
    }
  }

  /** The three parts of `p + m + q`, sliced back out. */
  lemma SplitThree(p: string, m: string, q: string)
    ensures var s := p + m + q;
      && s[..|p|] == p && s[|p|..|s| - |q|] == m && s[|s| - |q|..] == q
  {
  }

  /** `heatmap-data-${datetime}.json`. */
  function DownloadFileName(c: Clock): (name: string)
    ensures |name| >= 18 && name[..13] == "heatmap-data-" && name[|name| - 5..] == ".json"
    ensures AllDigits(name[13..|name| - 5])
    ensures ValidClock(c) && c.year >= 10 ==> |name| == 28
  {
    var stamp := Stamp(c);
    SplitThree("heatmap-data-", stamp, ".json");
    "heatmap-data-" + stamp + ".json"
  }

  /** A number below 100, padded, is two digits spelling it. */
  lemma Pad2Value(n: nat)
    requires n < 100
    ensures |Pad2(n)| == 2
    ensures forall i :: 0 <= i < 2 ==> IsDigit(Pad2(n)[i])
    ensures DigitsValue(Pad2(n)) == n
  {
    var s := NatToString(n);
    NatToStringValue(n);
    if n < 10 {
      assert Pad2(n) == ['0', s[0]];
      assert Pad2(n)[..1] == ['0'];
    }
  }

  lemma TwoDigits(a: nat, b: nat)
    requires a < 10 && b < 10
    ensures DigitsValue([DigitChar(a), DigitChar(b)]) == 10 * a + b
  {
    var s := [DigitChar(a), DigitChar(b)];
    assert s[..1] == [DigitChar(a)];
    assert s[..1][..0] == [];
    assert DigitsValue(s[..1]) == 10 * DigitsValue([]) + DigitValue(DigitChar(a));
  }

  /** The last two digits of a year from 10 on spell the year modulo 100. */
  lemma YearDigits(y: nat)
    requires y >= 10
    ensures |SliceLast2(NatToString(y))| == 2
    ensures forall i :: 0 <= i < 2 ==> IsDigit(SliceLast2(NatToString(y))[i])
    ensures DigitsValue(SliceLast2(NatToString(y))) == y % 100
  {
    var s := NatToString(y);
    var q := y / 10;
    var a := q % 10;
    var b := y % 10;
    var t := NatToString(q);
    assert s == t + [DigitChar(b)];
    LastDigit(q);
    assert SliceLast2(s) == [DigitChar(a), DigitChar(b)];
    TwoDigits(a, b);
    LastTwoDigits(y);
  }

  /** `String(n)` ends in the digit `n % 10`. */
  lemma LastDigit(n: nat)
    ensures NatToString(n)[|NatToString(n)| - 1] == DigitChar(n % 10)
  {
  }

  /** The remainder by 100 from the last two decimal digits. */
  lemma LastTwoDigits(y: nat)
    ensures y % 100 == 10 * ((y / 10) % 10) + y % 10
  {
    var q := y / 10;
    var p := q / 10;
    var a := q % 10;
    var b := y % 10;
    assert y == 10 * q + b;
    assert q == 10 * p + a;
    assert y == 100 * p + (10 * a + b);
  }

  /** Five two-character parts, sliced back out of the stamp's concatenation. */
  lemma SplitFive(a: string, b: string, c: string, d: string, e: string)
    requires |a| == 2 && |b| == 2 && |c| == 2 && |d| == 2 && |e| == 2
    ensures var s := a + b + c + (d + e);
      && s[0..2] == a && s[2..4] == b && s[4..6] == c && s[6..8] == d && s[8..10] == e
  {
  }

  /** The stamp's five two-character fields. */
  lemma StampParts(c: Clock)
    requires ValidClock(c) && c.year >= 10
    ensures var s := Stamp(c);
      && s[0..2] == Pad2(c.day) && s[2..4] == Pad2(c.month + 1) && s[4..6] == SliceLast2(NatToString(c.year))
      && s[6..8] == Pad2(c.hour) && s[8..10] == Pad2(c.minute)
  {
    var y := SliceLast2(NatToString(c.year));
    assert |y| == 2;
    assert Stamp(c) == Pad2(c.day) + Pad2(c.month + 1) + y + (Pad2(c.hour) + Pad2(c.minute));
    SplitFive(Pad2(c.day), Pad2(c.month + 1), y, Pad2(c.hour), Pad2(c.minute));
  }

  /**
   * For a real clock reading from year 10 on, the stamp is ten digits that
   * read back as day, month (from 1), year modulo 100, hour and minute.
   */
  lemma StampRoundTrip(c: Clock)
    requires ValidClock(c) && c.year >= 10
    ensures |Stamp(c)| == 10
    ensures forall i :: 0 <= i < 10 ==> IsDigit(Stamp(c)[i])
    ensures DigitsValue(Stamp(c)[0..2]) == c.day
    ensures DigitsValue(Stamp(c)[2..4]) == c.month + 1
    ensures DigitsValue(Stamp(c)[4..6]) == c.year % 100
    ensures DigitsValue(Stamp(c)[6..8]) == c.hour
    ensures DigitsValue(Stamp(c)[8..10]) == c.minute
  {
    Pad2Value(c.day);
    Pad2Value(c.month + 1);
    YearDigits(c.year);
    Pad2Value(c.hour);
    Pad2Value(c.minute);
    StampParts(c);
  }

  // ---------------------------------------------------------------------------
  // The page
  // ---------------------------------------------------------------------------

  /** What the file input hands to `handleFileChange`. */
  datatype Upload = NoFile | File(mimeType: string, content: Parsed)

  /** The outcome of `JSON.parse(await file.text())`. */
  datatype Parsed = Unparsable | NotAnArray | TopicArray(topics: seq<Topic>)

  /** The guard `file && file.type === 'application/json'`. */
  function IsJsonFile(file: Upload): (b: bool)
    ensures file.NoFile? ==> !b
    ensures file.File? ==> (b <==> file.mimeType == "application/json")
  {
    file.File? && file.mimeType == "application/json"
  }

  class HomePage {
    /** The client store singleton the page reads and writes. */
    const store: ClientStorage
    /** `topics`: the page's copy of the store's listing. */
    var topics: seq<Topic>
    var currentTopicId: string
    var showEditModal: bool
    var editEntry: Option<Entry>
    var isLoading: bool

    ghost predicate Valid()
      reads this, store
    {
      store.Valid()
    }

    /** The page shows what the store holds, as `refreshTopics` leaves it. */
    ghost predicate Synced()
      reads this, store
      requires Valid()
    {
      topics == Values(store.order, store.topics)
    }

    /** Every stored value is positive. */
    ghost predicate StorePositive()
      reads this, store
    {
      forall k :: k in store.topics ==> AllPositive(store.topics[k].data)
    }

    /** `topics.find(t => t.id === currentTopicId)`. */
    function CurrentTopic(): (r: Option<Topic>)
      reads this
      ensures r.None? <==> forall i :: 0 <= i < |topics| ==> topics[i].id != currentTopicId
      ensures r.Some? ==> r.value in topics && r.value.id == currentTopicId
    {
      Find(topics, currentTopicId)
    }

    constructor(store: ClientStorage)
      requires store.Valid()
      ensures this.store == store && Valid()
      ensures topics == [] && currentTopicId == "" && !showEditModal && editEntry.None? && isLoading
    {
      this.store := store;
      topics := [];
      currentTopicId := "";
      showEditModal := false;
      editEntry := None;
      isLoading := true;
    }

    /** `refreshTopics`: the page takes the store's listing. */
    method Refresh()
      requires Valid()
      modifies this
      ensures Valid() && Synced()
      ensures currentTopicId == old(currentTopicId) && showEditModal == old(showEditModal)
      ensures editEntry == old(editEntry) && isLoading == old(isLoading)
    {
      topics := store.GetAllTopics();
    }

    /** The mount effect: load the listing and select its first topic when none is selected. */
    method Load()
      requires Valid()
      modifies this
      ensures Valid() && Synced() && !isLoading
      ensures currentTopicId == if old(currentTopicId) == "" && topics != [] then topics[0].id else old(currentTopicId)
      ensures showEditModal == old(showEditModal) && editEntry == old(editEntry)
    {
      Refresh();
      if |topics| > 0 && currentTopicId == "" {
        currentTopicId := topics[0].id;
      }
      isLoading := false;
    }

    /** `handleCreateTopic`: an empty topic is created, listed and selected. */
    method CreateTopic(name: string, unit: string, id: string) returns (t: Topic)
      requires Valid() && id !in store.topics
      modifies this, store
      ensures Valid() && Synced()
      ensures t == Topic(id, name, unit, [])
      ensures store.topics == old(store.topics)[id := t] && store.order == old(store.order) + [id]
      ensures store.Saved()
      ensures currentTopicId == id && CurrentTopic() == Some(t)
      ensures showEditModal == old(showEditModal) && editEntry == old(editEntry) && isLoading == old(isLoading)
    {
      FindCreated(store.order, store.topics, Topic(id, name, unit, []));
      t := store.CreateTopic(name, unit, [], id);
      Refresh();
      currentTopicId := t.id;
    }

    /**
     * `handleUpdateTopic`: the topic's data is replaced; on success the
     * listing is refreshed, on a missing id the error is caught and nothing
     * changes.
     */
    method UpdateTopicData(id: string, data: Data) returns (ok: bool)
      requires Valid()
      modifies this, store
      ensures Valid()
      ensures ok <==> id in old(store.topics)
      ensures !ok ==> (store.topics == old(store.topics) && store.order == old(store.order)
        && store.stored == old(store.stored) && topics == old(topics))
      ensures ok ==> (store.topics == old(store.topics)[id := old(store.topics)[id].(data := data)]
        && store.order == old(store.order) && store.Saved() && Synced())
      ensures currentTopicId == old(currentTopicId) && showEditModal == old(showEditModal)
      ensures editEntry == old(editEntry) && isLoading == old(isLoading)
    {
      var r := store.UpdateTopic(id, Patch(None, None, None, Some(data)));
      ok := r.Ok?;
      if ok {
        Refresh();
      }
    }

    /**
     * `handleDeleteTopic`: refused while the page lists at most one topic;
     * otherwise the topic is deleted and, when it was the current one, the
     * first remaining topic of the page's list is selected.
     */
    method DeleteTopic(topicId: string) returns (deleted: bool)
      requires Valid()
      modifies this, store
      ensures Valid()
      ensures deleted <==> |old(topics)| > 1 && topicId in old(store.topics)
      ensures !deleted ==> (store.topics == old(store.topics) && store.order == old(store.order)
        && store.stored == old(store.stored) && topics == old(topics) && currentTopicId == old(currentTopicId))
      ensures deleted ==> (store.topics == old(store.topics) - {topicId}
        && store.order == Remove(old(store.order), topicId) && Synced() && store.Saved())
      ensures deleted && old(Synced()) ==> topics == Without(old(topics), topicId)
      ensures deleted && old(Synced()) && topicId == old(currentTopicId) ==>
        topics != [] && currentTopicId == topics[0].id
      ensures deleted && topicId != old(currentTopicId) ==> currentTopicId == old(currentTopicId)
      ensures showEditModal == old(showEditModal) && editEntry == old(editEntry) && isLoading == old(isLoading)
    {
      if |topics| <= 1 {
        return false;
      }
      ghost var synced := Synced();
      ghost var oldOrder := store.order;
      ghost var oldTopics := store.topics;
      var r := store.DeleteTopic(topicId);
      if r.NotFound? {
        return false;
      }
      if topicId == currentTopicId {
        var remaining := Without(topics, topicId);
        if synced {
          ValuesAfterRemove(oldOrder, oldTopics, topicId);
          assert oldOrder[0] != oldOrder[1];
          assert topics[0] in remaining || topics[1] in remaining;
        }
        if |remaining| > 0 {
          currentTopicId := remaining[0].id;
        }
      }
      if synced {
        ValuesAfterRemove(oldOrder, oldTopics, topicId);
      }
      Refresh();
      deleted := true;
    }

    /** `handleEntryEdit`: the clicked cell opens the edit modal. */
    method EntryEdit(date: Day, currentValue: real)
      modifies this
      ensures editEntry == Some(Entry(date, currentValue)) && showEditModal
      ensures topics == old(topics) && currentTopicId == old(currentTopicId) && isLoading == old(isLoading)
    {
      editEntry := Some(Entry(date, currentValue));
      showEditModal := true;
    }

    /**
     * `handleQuickAdd`: with a current topic, its data with the date set or
     * deleted is written back; with none, nothing happens.
     */
    method QuickAdd(date: Day, value: real)
      requires Valid()
      modifies this, store
      ensures Valid()
      ensures old(CurrentTopic()).None? ==>
        store.topics == old(store.topics) && store.order == old(store.order)
        && store.stored == old(store.stored) && topics == old(topics)
      ensures old(CurrentTopic()).Some? && old(Synced()) ==>
        var t := old(CurrentTopic()).value;
        && store.topics == old(store.topics)[t.id := t.(data := SetOrDelete(t.data, date, value))]
        && store.order == old(store.order) && Synced()
      ensures old(StorePositive()) && old(Synced()) && value >= 0.0 ==> StorePositive()
      ensures currentTopicId == old(currentTopicId) && showEditModal == old(showEditModal)
      ensures editEntry == old(editEntry) && isLoading == old(isLoading)
    {
      ghost var synced := Synced();
      var current := CurrentTopic();
      if current.None? {
        return;
      }
      var t := current.value;
      if synced {
        var i :| 0 <= i < |topics| && topics[i] == t;
        assert t == store.topics[store.order[i]] && t.id == store.order[i];
      }
      var newData := SetOrDelete(t.data, date, value);
      var ok := UpdateTopicData(t.id, newData);
    }

    /** `handleEntrySave`: as the quick add, then the edit modal closes. */
    method EntrySave(date: Day, value: real)
      requires Valid()
      modifies this, store
      ensures Valid()
      ensures old(CurrentTopic()).None? ==>
        store.topics == old(store.topics) && store.order == old(store.order)
        && store.stored == old(store.stored) && topics == old(topics)
        && showEditModal == old(showEditModal) && editEntry == old(editEntry)
      ensures old(CurrentTopic()).Some? && old(Synced()) ==>
        var t := old(CurrentTopic()).value;
        && store.topics == old(store.topics)[t.id := t.(data := SetOrDelete(t.data, date, value))]
        && store.order == old(store.order) && Synced()
      ensures old(CurrentTopic()).Some? ==> !showEditModal && editEntry.None?
      ensures old(StorePositive()) && old(Synced()) && value >= 0.0 ==> StorePositive()
      ensures currentTopicId == old(currentTopicId) && isLoading == old(isLoading)
    {
      if CurrentTopic().None? {
        return;
      }
      QuickAdd(date, value);
      showEditModal := false;
      editEntry := None;
    }

    /**
     * The sidebar's quick-add form wired to `handleQuickAdd`: whatever the
     * user types, the store keeps only positive values.
     */
    method SubmitQuickAdd(sidebar: SidebarPanel.Sidebar, parse: string -> Option<real>) returns (added: Option<Entry>)
      requires Valid() && Synced() && StorePositive()
      modifies this, store, sidebar
      ensures Valid() && Synced() && StorePositive()
      ensures added.None? ==> store.topics == old(store.topics) && topics == old(topics)
      ensures added.Some? && old(CurrentTopic()).Some? ==>
        var t := old(CurrentTopic()).value;
        store.topics == old(store.topics)[t.id := t.(data := SetOrDelete(t.data, added.value.date, added.value.value))]
    {
      added := sidebar.QuickSubmit(parse);
      if added.Some? {
        QuickAdd(added.value.date, added.value.value);
      }
    }

    /**
     * The edit dialog's submit wired to `handleEntrySave`: as for the quick
     * add, the store keeps only positive values.
     */
    method SubmitEdit(modal: Modals.EditEntryModal, parse: string -> Option<real>) returns (saved: Option<Entry>)
      requires Valid() && Synced() && StorePositive()
      modifies this, store
      ensures Valid() && Synced() && StorePositive()
      ensures saved.None? ==> store.topics == old(store.topics) && topics == old(topics)
      ensures saved.Some? && old(CurrentTopic()).Some? ==>
        var t := old(CurrentTopic()).value;
        && store.topics == old(store.topics)[t.id := t.(data := SetOrDelete(t.data, saved.value.date, saved.value.value))]
        && !showEditModal && editEntry.None?
    {
      saved := modal.Submit(editEntry, parse);
      if saved.Some? {
        EntrySave(saved.value.date, saved.value.value);
      }
    }

    /**
     * The `try` block of `handleFileChange` for a parsed array: the store is
     * replaced, the listing refreshed and the first imported topic selected.
     */
    method ImportTopics(ts: seq<Topic>)
      requires Valid()
      modifies this, store
      ensures Valid() && Synced()
      ensures (store.order, store.topics) == ImportAll(ts) && store.Saved()
      ensures ts != [] ==> currentTopicId == ts[0].id && CurrentTopic().Some?
      ensures ts == [] ==> currentTopicId == old(currentTopicId)
      ensures showEditModal == old(showEditModal) && editEntry == old(editEntry) && isLoading == old(isLoading)
    {
      var message, result := store.ImportData(ts);
      Refresh();
      currentTopicId := if |result| > 0 then result[0].id else currentTopicId;
      assert ts != [] ==> CurrentTopic().Some? by {
        if ts != [] {
          assert store.order == ImportOrder(ts) && store.topics == ImportMap(ts);
          ImportFirstFound(ts);
        }
      }
    }

    /**
     * `handleFileChange`, with the payload checked to be an array before the
     * store is touched: a JSON file whose content parses to an array of
     * topics replaces the store, the listing is refreshed and its first
     * topic selected; any other upload changes nothing.
     */
    method ImportFile(file: Upload) returns (ok: bool)
      requires Valid()
      modifies this, store
      ensures Valid()
      ensures ok <==> IsJsonFile(file) && file.content.TopicArray?
      ensures !ok ==> (store.topics == old(store.topics) && store.order == old(store.order)
        && store.stored == old(store.stored) && topics == old(topics) && currentTopicId == old(currentTopicId))
      ensures ok ==> (store.order, store.topics) == ImportAll(file.content.topics) && store.Saved() && Synced()
      ensures ok && file.content.topics != [] ==> currentTopicId == file.content.topics[0].id && CurrentTopic().Some?
      ensures showEditModal == old(showEditModal) && editEntry == old(editEntry) && isLoading == old(isLoading)
    {
      if !IsJsonFile(file) || !file.content.TopicArray? {
        return false;
      }
      ImportTopics(file.content.topics);
      ok := true;
    }

    /**
     * `handleFileChange` as written: a JSON file that parses to something
     * other than an array reaches `importData`, which empties the in-memory
     * store before it throws, while the page and the saved item keep the old
     * topics.
     */
    method ImportFileAsWritten(file: Upload) returns (ok: bool)
      requires Valid()
      modifies this, store
      ensures Valid()
      ensures ok <==> IsJsonFile(file) && file.content.TopicArray?
      ensures IsJsonFile(file) && file.content.NotAnArray? ==>
        (store.topics == map[] && store.order == [] && store.stored == old(store.stored) && topics == old(topics))
      ensures IsJsonFile(file) && file.content.NotAnArray? && old(store.order) != [] && old(store.Saved()) ==>
        !store.Saved()
      ensures IsJsonFile(file) && file.content.NotAnArray? && old(store.order) != [] && old(Synced()) ==>
        !Synced()
      ensures ok ==> (store.order, store.topics) == ImportAll(file.content.topics) && store.Saved() && Synced()
    {
      if !IsJsonFile(file) {
        return false;
      }
      match file.content
      case Unparsable =>
        return false;
      case NotAnArray =>
        store.ImportNonArray();
        return false;
      case TopicArray(ts) =>
        ImportTopics(ts);
        ok := true;
    }
  }
}
