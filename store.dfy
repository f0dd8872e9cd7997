/** The allergen list kept in the XML file (app.py:38-62, 78-103), seen as the sequence of the
    `allergen` elements' texts in document order. Parsing and writing the file are not
    modelled: each operation takes the list as read and returns the list as written. */
module Store {
  import opened Text

  /** The list with the first entry equal to `name` taken out; unchanged when there is none. */
  function RemoveFirst(entries: seq<string>, name: string): seq<string> {
    if entries == [] then []
    else if entries[0] == name then entries[1..]
    else [entries[0]] + RemoveFirst(entries[1..], name)
  }

  /** `save_allergen`: a new element holding the lower-cased name is appended after the
      existing ones, which stay as they were. */
  function SaveAllergen(entries: seq<string>, name: string): (updated: seq<string>)
    ensures |updated| == |entries| + 1
    ensures updated[..|entries|] == entries && updated[|entries|] == Lower(name)
  {
    entries + [Lower(name)]
  }

  /** `remove_allergen`: the loop over the elements removes the first one whose text equals the
      lower-cased name and stops; when none does, the list is left as it is. */
  method RemoveAllergen(entries: seq<string>, name: string) returns (updated: seq<string>)
    ensures updated == RemoveFirst(entries, Lower(name))
  {
    var target := Lower(name);
    updated := entries;
    var i := 0;
    while i < |entries|
      invariant 0 <= i <= |entries|
      invariant forall j :: 0 <= j < i ==> entries[j] != target
      invariant updated == entries
    {
      if entries[i] == target {
        RemoveFirstAt(entries, target, i);
        updated := entries[..i] + entries[i + 1..];
        break;
      }
      i := i + 1;
    }
    if i == |entries| {
      RemoveFirstAbsent(entries, target);
    }
  }

  /** When `name` first occurs at position `i`, exactly that entry goes. */
  lemma {:induction false} RemoveFirstAt(entries: seq<string>, name: string, i: int)
    requires 0 <= i < |entries| && entries[i] == name
    requires forall j :: 0 <= j < i ==> entries[j] != name
    ensures RemoveFirst(entries, name) == entries[..i] + entries[i + 1..]
    decreases i
  {
    if i > 0 {
      var tail := entries[1..];
      assert forall j :: 0 <= j < i - 1 ==> tail[j] == entries[j + 1];
      RemoveFirstAt(tail, name, i - 1);
      assert entries[..i] == [entries[0]] + tail[..i - 1];
      assert entries[i + 1..] == tail[i..];
    }
  }

  /** A name that is not in the list removes nothing. */
  lemma {:induction false} RemoveFirstAbsent(entries: seq<string>, name: string)
    requires name !in entries
    ensures RemoveFirst(entries, name) == entries
    decreases |entries|
  {
    if entries != [] {
      assert entries[1..] + [] == entries[1..];
      assert forall x :: x in entries[1..] ==> x in entries;
      RemoveFirstAbsent(entries[1..], name);
      assert entries == [entries[0]] + entries[1..];
    }
  }

  /** Removing takes out one copy of the name when the list has one, and nothing else. */
  lemma {:induction false} RemoveFirstMultiset(entries: seq<string>, name: string)
    ensures multiset(RemoveFirst(entries, name)) == multiset(entries) - multiset{name}
    decreases |entries|
  {
    if entries != [] {
      assert entries == [entries[0]] + entries[1..];
      RemoveFirstMultiset(entries[1..], name);
    }
  }

  /** The form actions of the allergen-management page. */
  datatype Action = Add | Remove | Other

  /** The submitted name as the handler uses it: stripped, then lower-cased. */
  function Submitted(raw: string): string {
    Lower(Strip(raw))
  }

  /** The "add" branch: a name already in the list is reported and nothing is saved; any other
      name is saved. */
  function AddAllergen(entries: seq<string>, raw: string): seq<string> {
    var name := Submitted(raw);
    if name in entries then entries else SaveAllergen(entries, name)
  }

  /** A POST to the allergen-management page: add, remove, or, for any other action, leave the
      list alone. */
  method ManageAllergens(entries: seq<string>, action: Action, raw: string)
    returns (updated: seq<string>)
    ensures action == Add ==> updated == AddAllergen(entries, raw)
    ensures action == Remove ==> updated == RemoveFirst(entries, Submitted(raw))
    ensures action == Other ==> updated == entries
  {
    var name := Submitted(raw);
    if action == Add {
      updated := AddAllergen(entries, raw);
    } else if action == Remove {
      updated := RemoveAllergen(entries, name);
      LowerIdempotent(Strip(raw));
    } else {
      updated := entries;
    }
  }

  /** After adding, the submitted name is in the list, every old entry is still there, and at
      most one entry was added, at the end. */
  lemma AddedIsPresent(entries: seq<string>, raw: string)
    ensures Submitted(raw) in AddAllergen(entries, raw)
    ensures var updated := AddAllergen(entries, raw);
      updated == entries || updated == entries + [Submitted(raw)]
  {
    LowerIdempotent(Strip(raw));
  }

  /** Adding the same name twice is the same as adding it once. */
  lemma AddIdempotent(entries: seq<string>, raw: string)
    ensures AddAllergen(AddAllergen(entries, raw), raw) == AddAllergen(entries, raw)
  {
    AddedIsPresent(entries, raw);
  }

  /** No entries listed twice. */
  ghost predicate Distinct(entries: seq<string>) {
    forall i, j :: 0 <= i < j < |entries| ==> entries[i] != entries[j]
  }

  /** Adding never creates a duplicate. */
  lemma AddKeepsDistinct(entries: seq<string>, raw: string)
    requires Distinct(entries)
    ensures Distinct(AddAllergen(entries, raw))
  {
    var name := Submitted(raw);
    if name !in entries {
      LowerIdempotent(Strip(raw));
      var updated := AddAllergen(entries, raw);
      assert updated == entries + [name];
      forall i, j | 0 <= i < j < |updated|
        ensures updated[i] != updated[j]
      {
        if j == |entries| {
          assert updated[i] == entries[i];
        }
      }
    }
  }

  /** Removing a name that was just added, and had not been there, restores the list. */
  lemma RemoveUndoesAdd(entries: seq<string>, raw: string)
    requires Submitted(raw) !in entries
    ensures RemoveFirst(AddAllergen(entries, raw), Submitted(raw)) == entries
  {
    var name := Submitted(raw);
    LowerIdempotent(Strip(raw));
    assert AddAllergen(entries, raw) == entries + [name];
    RemoveFirstAt(entries + [name], name, |entries|);
    assert (entries + [name])[..|entries|] == entries;
  }

  /** In a list without duplicates, a removed name is gone afterwards. */
  lemma RemovedIsGone(entries: seq<string>, name: string)
    requires Distinct(entries)
    ensures name !in RemoveFirst(entries, name)
  {
    RemoveFirstMultiset(entries, name);
    assert multiset(entries)[name] <= 1 by {
      if name in entries {
        var i :| 0 <= i < |entries| && entries[i] == name;
        DistinctCount(entries, i);
      }
    }
    assert multiset(RemoveFirst(entries, name))[name] == 0;
  }

  /** In a list without duplicates, the entry at `i` occurs once. */
  lemma {:induction false} DistinctCount(entries: seq<string>, i: int)
    requires Distinct(entries) && 0 <= i < |entries|
    ensures multiset(entries)[entries[i]] == 1
    decreases |entries|
  {
    var last := |entries| - 1;
    var init := entries[..last];
    assert entries == init + [entries[last]];
    assert Distinct(init);
    if i == last {
      assert entries[i] !in init;
    } else {
      DistinctCount(init, i);
      assert init[i] == entries[i];
    }
  }
}
