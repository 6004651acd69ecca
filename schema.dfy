/**
 * The topic record every other module works on, and the calendar conventions
 * they share.
 *
 * A calendar date ("YYYY-MM-DD" in the application) is a day number counted
 * from 1970-01-01, which is day 0 and a Thursday. A point in time (what
 * `new Date()` reads) is a number of milliseconds since 1970-01-01T00:00:00Z.
 * Every date computation is taken in UTC.
 */
module Schema {

  /** A calendar date: days since 1970-01-01. */
  type Day = int

  /** A point in time: milliseconds since 1970-01-01T00:00:00Z. */
  type Instant = int

  /** One date/value pair: a property of a topic's data object. */
  datatype Entry = Entry(date: Day, value: real)

  /**
   * A topic's sparse date -> value object, as its entries in property order
   * (the order `Object.entries` and `Object.values` list them in).
   */
  type Data = seq<Entry>

  /** A tracked metric: `{id, name, unit, data}`. */
  datatype Topic = Topic(id: string, name: string, unit: string, data: Data)

  datatype Option<T> = None | Some(value: T)

  /** The outcome of a store operation that throws "Topic with id ... not found". */
  datatype Result<T> = Ok(value: T) | NotFound(id: string)

  /**
   * A partial topic: each present field replaces the stored one, as the
   * object spread `{...topic, ...updates}` does.
   */
  datatype Patch = Patch(id: Option<string>, name: Option<string>, unit: Option<string>, data: Option<Data>)

  function Merge(t: Topic, p: Patch): (r: Topic)
    ensures p.id.None? ==> r.id == t.id
    ensures p.id.Some? ==> r.id == p.id.value
    ensures r.name == (if p.name.Some? then p.name.value else t.name)
    ensures r.unit == (if p.unit.Some? then p.unit.value else t.unit)
    ensures r.data == (if p.data.Some? then p.data.value else t.data)
  {
    Topic(
      if p.id.Some? then p.id.value else t.id,
      if p.name.Some? then p.name.value else t.name,
      if p.unit.Some? then p.unit.value else t.unit,
      if p.data.Some? then p.data.value else t.data)
  }

  const MsPerDay: int := 86_400_000

  /** The UTC calendar date of an instant (`toISOString().split('T')[0]`). */
  function DayOf(t: Instant): (d: Day)
    ensures d * MsPerDay <= t < (d + 1) * MsPerDay
  {
    t / MsPerDay
  }

  /** `getDay()`: 0 for Sunday through 6 for Saturday. */
  function DayOfWeek(d: Day): (w: int)
    ensures 0 <= w < 7
    ensures w == 0 <==> d % 7 == 3
  {
    (d + 4) % 7
  }

  /** `data[date]`: the value stored under a date, if any. */
  function Get(data: Data, d: Day): (r: Option<real>)
    ensures r.None? <==> forall i :: 0 <= i < |data| ==> data[i].date != d
    ensures r.Some? ==> exists i :: 0 <= i < |data| && data[i] == Entry(d, r.value)
  {
    if data == [] then None
    else if data[0].date == d then Some(data[0].value)
    else
      var r := Get(data[1..], d);
      if r.Some? then
        var i :| 0 <= i < |data[1..]| && data[1..][i] == Entry(d, r.value);
        assert data[i + 1] == Entry(d, r.value);
        r
      else r
  }

  /** A data object never holds two properties with the same date. */
  ghost predicate UniqueDates(data: Data)
  {
    forall i, j :: 0 <= i < j < |data| ==> data[i].date != data[j].date
  }

  /** With unique dates, the value stored under an entry's date is that entry's value. */
  lemma GetEntry(data: Data, i: nat)
    requires UniqueDates(data) && i < |data|
    ensures Get(data, data[i].date) == Some(data[i].value)
  {
    var r := Get(data, data[i].date);
    var j :| 0 <= j < |data| && data[j] == Entry(data[i].date, r.value);
  }

  /** Looking a date up in `[x] + rest` finds `x` first. */
  lemma GetCons(x: Entry, rest: Data)
    ensures forall e :: Get([x] + rest, e) == if x.date == e then Some(x.value) else Get(rest, e)
  {
    assert ([x] + rest)[1..] == rest;
  }

  /** The tail of a data object with unique dates has unique dates, none equal to the head's. */
  lemma UniqueTail(data: Data)
    requires data != [] && UniqueDates(data)
    ensures UniqueDates(data[1..])
    ensures forall e :: e in data[1..] ==> e.date != data[0].date
  {
    forall e | e in data[1..]
      ensures e.date != data[0].date
    {
      var j :| 0 <= j < |data[1..]| && data[1..][j] == e;
      assert data[j + 1] == e;
    }
  }

  /** An entry whose date is new to `rest` can be put in front of it. */
  lemma ConsUnique(x: Entry, rest: Data)
    requires UniqueDates(rest)
    requires forall e :: e in rest ==> e.date != x.date
    ensures UniqueDates([x] + rest)
  {
    forall i, j | 0 <= i < j < |[x] + rest|
      ensures ([x] + rest)[i].date != ([x] + rest)[j].date
    {
      if i == 0 {
        assert ([x] + rest)[j] == rest[j - 1];
      }
    }
  }

  /** `data[date] || 0`: the stored value, or 0 for a date with no entry. */
  function ValueOn(data: Data, d: Day): (v: real)
    ensures (exists i :: 0 <= i < |data| && data[i] == Entry(d, v))
      || (v == 0.0 && forall i :: 0 <= i < |data| ==> data[i].date != d)
  {
    match Get(data, d)
    case Some(v) => v
    case None => 0.0
  }

  /**
   * `data[date] && data[date] > 0`: the date has a positive entry. (`undefined`
   * and 0 are falsy, and a negative number is not above 0.)
   */
  function Positive(data: Data, d: Day): (b: bool)
    ensures b ==> exists i :: 0 <= i < |data| && data[i].date == d && data[i].value > 0.0
    ensures UniqueDates(data) ==> (b <==> exists i :: 0 <= i < |data| && data[i].date == d && data[i].value > 0.0)
  {
    PositiveEntry(data, d);
    Get(data, d).Some? && Get(data, d).value > 0.0
  }

  /** With unique dates, a positive entry dated `d` is the value stored under `d`. */
  lemma PositiveEntry(data: Data, d: Day)
    ensures UniqueDates(data) && (exists i :: 0 <= i < |data| && data[i].date == d && data[i].value > 0.0)
      ==> Get(data, d).Some? && Get(data, d).value > 0.0
  {
    if UniqueDates(data) && exists i :: 0 <= i < |data| && data[i].date == d && data[i].value > 0.0 {
      var i :| 0 <= i < |data| && data[i].date == d && data[i].value > 0.0;
      GetEntry(data, i);
    }
  }

  ghost predicate NonNegative(data: Data)
  {
    forall i :: 0 <= i < |data| ==> data[i].value >= 0.0
  }

  /** The invariant the entry editors keep: no stored value is zero or negative. */
  ghost predicate AllPositive(data: Data)
  {
    forall i :: 0 <= i < |data| ==> data[i].value > 0.0
  }

  /** `delete data[d]`: the object without the property `d`, the others in their order. */
  function Delete(data: Data, d: Day): (r: Data)
    ensures forall e :: e in r <==> e in data && e.date != d
    ensures Get(r, d).None?
    ensures forall e :: e != d ==> Get(r, e) == Get(data, e)
    ensures |r| <= |data|
    ensures Get(data, d).Some? ==> |r| < |data|
    ensures UniqueDates(data) ==> UniqueDates(r)
  {
    if data == [] then []
    else
      var rest := Delete(data[1..], d);
      assert data == [data[0]] + data[1..];
      if data[0].date == d then rest
      else
        GetCons(data[0], rest);
        assert UniqueDates(data) ==> UniqueDates([data[0]] + rest) by {
          if UniqueDates(data) {
            UniqueTail(data);
            ConsUnique(data[0], rest);
          }
        }
        [data[0]] + rest
  }

  /**
   * `data[d] = v`: a present property keeps its place and takes the new
   * value, an absent one is appended.
   */
  function Put(data: Data, d: Day, v: real): (r: Data)
    ensures Get(r, d) == Some(v)
    ensures forall e :: e != d ==> Get(r, e) == Get(data, e)
    ensures |r| == if Get(data, d).Some? then |data| else |data| + 1
    ensures forall e :: e in r ==> e in data || e == Entry(d, v)
    ensures UniqueDates(data) ==> UniqueDates(r)
  {
    if data == [] then [Entry(d, v)]
    else if data[0].date == d then
      var r := [Entry(d, v)] + data[1..];
      assert r[1..] == data[1..];
      assert forall i :: 1 <= i < |r| ==> r[i] == data[i];
      r
    else
      var rest := Put(data[1..], d, v);
      GetCons(data[0], rest);
      assert forall e :: e in data[1..] ==> e in data;
      assert UniqueDates(data) ==> UniqueDates([data[0]] + rest) by {
        if UniqueDates(data) {
          UniqueTail(data);
          ConsUnique(data[0], rest);
        }
      }
      [data[0]] + rest
  }
}
