/**
 * The two dialogs (client/src/components/modals.tsx): adding a topic and
 * editing one day's entry. Both are small state machines over their form
 * fields. `parseFloat` is a parameter (`None` stands for NaN), and so is the
 * number formatting of `toString()`.
 */
module Modals {
  import opened Schema

  // ---------------------------------------------------------------------------
  // String.prototype.trim
  // ---------------------------------------------------------------------------

  /** The white space and line terminators `trim()` removes. */
  predicate IsJsWhitespace(c: char)
  {
    || c == '\t' || c == '\n' || c == '\U{B}' || c == '\U{C}' || c == '\r' || c == ' '
    || c == '\U{A0}' || c == '\U{1680}' || ('\U{2000}' <= c <= '\U{200A}')
    || c == '\U{2028}' || c == '\U{2029}' || c == '\U{202F}' || c == '\U{205F}'
    || c == '\U{3000}' || c == '\U{FEFF}'
  }

  /** The string without its leading white space. */
  function TrimStart(s: string): (r: string)
    ensures |r| <= |s| && r == s[|s| - |r|..]
    ensures r == [] || !IsJsWhitespace(r[0])
    ensures forall i :: 0 <= i < |s| - |r| ==> IsJsWhitespace(s[i])
  {
    if s == [] || !IsJsWhitespace(s[0]) then s
    else TrimStart(s[1..])
  }

  /** The string without its trailing white space. */
  function TrimEnd(s: string): (r: string)
    ensures |r| <= |s| && r == s[..|r|]
    ensures r == [] || !IsJsWhitespace(r[|r| - 1])
    ensures forall i :: |r| <= i < |s| ==> IsJsWhitespace(s[i])
  {
    if s == [] || !IsJsWhitespace(s[|s| - 1]) then s
    else TrimEnd(s[..|s| - 1])
  }

  /** `s.trim()`. */
  function Trim(s: string): (r: string)
    ensures |r| <= |s|
    ensures r == [] || (!IsJsWhitespace(r[0]) && !IsJsWhitespace(r[|r| - 1]))
    ensures var i := |s| - |TrimStart(s)|;
      && 0 <= i && i + |r| <= |s| && (forall k :: 0 <= k < |r| ==> r[k] == s[i + k])
      && (forall k :: 0 <= k < i ==> IsJsWhitespace(s[k]))
      && (forall k :: i + |r| <= k < |s| ==> IsJsWhitespace(s[k]))
  {
    var t := TrimStart(s);
    var r := TrimEnd(t);
    TrimSlice(s, t, r);
    r
  }

  /** Where `trim()`'s result `r` sits in `s`, given `t` is a suffix of `s` and `r` the prefix of `t` that `TrimStart` and `TrimEnd` leave. */
  lemma TrimSlice(s: string, t: string, r: string)
    requires |t| <= |s| && t == s[|s| - |t|..] && (t == [] || !IsJsWhitespace(t[0]))
    requires |r| <= |t| && r == t[..|r|] && (r == [] || !IsJsWhitespace(r[|r| - 1]))
    requires forall i :: |r| <= i < |t| ==> IsJsWhitespace(t[i])
    ensures r == [] || (!IsJsWhitespace(r[0]) && !IsJsWhitespace(r[|r| - 1]))
    ensures forall k :: 0 <= k < |r| ==> r[k] == s[|s| - |t| + k]
    ensures forall k :: |s| - |t| + |r| <= k < |s| ==> IsJsWhitespace(s[k])
  {
    var i := |s| - |t|;
    if r != [] {
      assert r[0] == t[0];
    }
    forall k | 0 <= k < |r|
      ensures r[k] == s[i + k]
    {
      assert r[k] == t[k];
    }
    forall k | i + |r| <= k < |s|
      ensures IsJsWhitespace(s[k])
    {
      assert s[k] == t[k - i];
    }
  }

  /** A string trims to nothing exactly when every character of it is white space. */
  lemma TrimEmpty(s: string)
    ensures Trim(s) == [] <==> forall i :: 0 <= i < |s| ==> IsJsWhitespace(s[i])
  {
    var t := TrimStart(s);
    if Trim(s) == [] {
      assert t == [];
    } else {
      assert t != [] && t[0] == s[|s| - |t|];
      assert !IsJsWhitespace(s[|s| - |t|]);
    }
  }

  /** Trimming twice is trimming once. */
  lemma TrimIdempotent(s: string)
    ensures Trim(Trim(s)) == Trim(s)
  {
    var r := Trim(s);
    var t := TrimStart(s);
    if r != [] {
      assert r[0] == t[0];
    }
  }

  // ---------------------------------------------------------------------------
  // AddTopicModal
  // ---------------------------------------------------------------------------

  /** The form of the "Add New Topic" dialog. */
  class AddTopicModal {
    var name: string
    var unit: string
    var isCreating: bool

    constructor()
      ensures name == "" && unit == "" && !isCreating
    {
      name := "";
      unit := "";
      isCreating := false;
    }

    /** The inputs' `onChange`. */
    method Edit(newName: string, newUnit: string)
      modifies this
      ensures name == newName && unit == newUnit && isCreating == old(isCreating)
    {
      name := newName;
      unit := newUnit;
    }

    /**
     * The synchronous part of `handleSubmit`: with a non-blank name and unit
     * and no creation under way, creation starts and the trimmed fields go
     * to `onCreateTopic`; otherwise nothing happens.
     */
    method Submit() returns (request: Option<(string, string)>)
      modifies this
      ensures request.Some? <==> Trim(old(name)) != "" && Trim(old(unit)) != "" && !old(isCreating)
      ensures request.Some? ==> request.value == (Trim(old(name)), Trim(old(unit))) && isCreating
      ensures request.None? ==> isCreating == old(isCreating)
      ensures name == old(name) && unit == old(unit)
    {
      if Trim(name) != "" && Trim(unit) != "" && !isCreating {
        isCreating := true;
        request := Some((Trim(name), Trim(unit)));
      } else {
        request := None;
      }
    }

    /**
     * The rest of `handleSubmit` once `onCreateTopic` settles: on success the
     * new topic's id goes to `onSuccess` and the fields are cleared, on
     * failure they are kept; either way creation is over.
     */
    method Settle(created: Option<Topic>) returns (selected: Option<string>)
      modifies this
      ensures !isCreating
      ensures created.Some? ==> name == "" && unit == "" && selected == Some(created.value.id)
      ensures created.None? ==> name == old(name) && unit == old(unit) && selected.None?
    {
      if created.Some? {
        selected := Some(created.value.id);
        name := "";
        unit := "";
      } else {
        selected := None;
      }
      isCreating := false;
    }

    /** `handleClose`: the fields are cleared before `onClose`. */
    method Close()
      modifies this
      ensures name == "" && unit == "" && isCreating == old(isCreating)
    {
      name := "";
      unit := "";
    }
  }

  // ---------------------------------------------------------------------------
  // EditEntryModal
  // ---------------------------------------------------------------------------

  /** The form of the "Edit Entry" dialog. */
  class EditEntryModal {
    /** `value`: the input's text. */
    var value: string

    constructor()
      ensures value == ""
    {
      value := "";
    }

    /** The effect on a new `entry`: the input shows its value; no entry leaves it as it is. */
    method EntryChanged(entry: Option<Entry>, format: real -> string)
      modifies this
      ensures entry.Some? ==> value == format(entry.value.value)
      ensures entry.None? ==> value == old(value)
    {
      if entry.Some? {
        value := format(entry.value.value);
      }
    }

    /** The input's `onChange`. */
    method Edit(text: string)
      modifies this
      ensures value == text
    {
      value := text;
    }

    /**
     * `handleSubmit`: with an entry and a value that parses to a number of
     * at least 0, that number goes to `onSave` under the entry's own date;
     * otherwise nothing is saved.
     */
    method Submit(entry: Option<Entry>, parse: string -> Option<real>) returns (saved: Option<Entry>)
      ensures saved.Some? <==> entry.Some? && parse(value).Some? && parse(value).value >= 0.0
      ensures saved.Some? ==> saved.value == Entry(entry.value.date, parse(value).value)
      ensures saved.Some? ==> saved.value.value >= 0.0
    {
      if entry.Some? {
        var number := parse(value);
        if number.Some? && number.value >= 0.0 {
          return Some(Entry(entry.value.date, number.value));
        }
      }
      return None;
    }

    /** `handleClose`: the input is cleared before `onClose`. */
    method Close()
      modifies this
      ensures value == ""
    {
      value := "";
    }
  }
}
