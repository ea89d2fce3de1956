/**
 * The in-memory command map and the operations that change it: `add`
 * appends, `remove` deletes by position, `edit` replaces a category, and the
 * `add` command of `main` combines them with filehash allocation. File
 * creation, script deletion, the editor and `save_map` are outside the model;
 * the one file effect that decides an outcome, whether `add` could create
 * the script file, is the parameter `created`.
 */
module Store {
  import opened Wrappers
  import opened Entries
  import opened Identifiers

  /** The category given to an entry added without one. */
  const DefaultCategory: string := "default"

  /** The category argument of `edit` that means "keep the category". */
  const NoNewCategory: string := "no-new-category"

  /** The category `add` stores: an empty one becomes `DefaultCategory`. */
  function StoredCategory(category: string): (r: string)
    ensures r != ""
    ensures category != "" ==> r == category
    ensures category == "" ==> r == DefaultCategory
  {
    if category == "" then DefaultCategory else category
  }

  /** The entry list after `add(e)`, where `created` says whether the script file could be created. */
  function AddEntry(es: seq<MapEntry>, e: MapEntry, created: bool): (r: seq<MapEntry>)
    ensures |r| == if HasName(es, e.name) || !created then |es| else |es| + 1
    ensures r[..|es|] == es
    ensures |r| > |es| ==> r[|es|].name == e.name && r[|es|].category != ""
  {
    if CheckEntryExists(e.name, es) || !created then es
    else es + [e.(category := StoredCategory(e.category))]
  }

  /** The entry list after `remove(name)`: the first entry with that name is gone. */
  function RemoveEntry(es: seq<MapEntry>, name: string): (r: seq<MapEntry>)
    ensures |r| == if HasName(es, name) then |es| - 1 else |es|
    ensures forall x :: x in r ==> x in es
  {
    if es == [] then []
    else if es[0].name == name then es[1..]
    else [es[0]] + RemoveEntry(es[1..], name)
  }

  /** The entry list after `edit(name, category)`: the first entry with that name gets the category. */
  function EditEntry(es: seq<MapEntry>, name: string, category: string): (r: seq<MapEntry>)
    ensures |r| == |es|
    ensures forall i :: 0 <= i < |es| ==> r[i].name == es[i].name && r[i].filehash == es[i].filehash
  {
    if es == [] then []
    else if es[0].name == name then
      (if category != NoNewCategory then [es[0].(category := category)] + es[1..] else es)
    else [es[0]] + EditEntry(es[1..], name, category)
  }

  lemma {:induction false} LookupAppended(es: seq<MapEntry>, x: MapEntry)
    requires !HasName(es, x.name)
    ensures GetEntryByName(x.name, es + [x]) == Some(x)
  {
    if es != [] {
      assert (es + [x])[1..] == es[1..] + [x];
      assert forall i :: 0 <= i < |es[1..]| ==> es[1..][i] == es[i + 1];
      LookupAppended(es[1..], x);
    }
  }

  /**
   * `add` refuses a name already present and does nothing when the script
   * file cannot be created; otherwise it appends one entry at the end, with
   * an empty category turned into "default", leaving every earlier entry
   * where it was, and a lookup of the name then finds that entry.
   */
  lemma AddSpec(es: seq<MapEntry>, e: MapEntry, created: bool)
    ensures HasName(es, e.name) || !created ==> AddEntry(es, e, created) == es
    ensures !HasName(es, e.name) && created ==>
      var r := AddEntry(es, e, created);
      && |r| == |es| + 1
      && r[..|es|] == es
      && r[|es|] == MapEntry(e.name, StoredCategory(e.category), e.filehash)
      && GetEntryByName(e.name, r) == Some(r[|es|])
  {
    if !HasName(es, e.name) && created {
      var x := e.(category := StoredCategory(e.category));
      LookupAppended(es, x);
      assert (es + [x])[..|es|] == es;
    }
  }

  /** With a fresh filehash, `add` keeps names and filehashes unique. */
  lemma AddKeepsWellFormed(es: seq<MapEntry>, e: MapEntry, created: bool)
    requires WellFormed(es)
    requires !InUse(e.filehash, es)
    ensures WellFormed(AddEntry(es, e, created))
  {
    if !HasName(es, e.name) && created {
      var x := e.(category := StoredCategory(e.category));
      FreshKeepsFilehashesUnique(es, x);
      var r := es + [x];
      forall i, j | 0 <= i < j < |r| ensures r[i].name != r[j].name {
        if j == |es| {
          assert r[i] == es[i];
        }
      }
    }
  }

  /** `remove` deletes the entry at the first position holding the name, and nothing else. */
  lemma {:induction false} RemoveAt(es: seq<MapEntry>, name: string)
    ensures Position(es, name).None? ==> RemoveEntry(es, name) == es
    ensures Position(es, name).Some? ==>
      var p := Position(es, name).value;
      RemoveEntry(es, name) == es[..p] + es[p + 1..]
  {
    if es != [] && es[0].name != name {
      RemoveAt(es[1..], name);
      match Position(es[1..], name)
      case None => RemoveStepAbsent(es, name);
      case Some(p) => RemoveStepPresent(es, name, p);
    }
  }

  /** The step of `RemoveAt` when the tail does not hold the name. */
  lemma RemoveStepAbsent(es: seq<MapEntry>, name: string)
    requires es != [] && es[0].name != name
    requires Position(es[1..], name).None? && RemoveEntry(es[1..], name) == es[1..]
    ensures Position(es, name).None? && RemoveEntry(es, name) == es
  {
    assert [es[0]] + es[1..] == es;
  }

  /** The step of `RemoveAt` when the tail holds the name at `p`. */
  lemma RemoveStepPresent(es: seq<MapEntry>, name: string, p: nat)
    requires es != [] && es[0].name != name
    requires Position(es[1..], name) == Some(p)
    requires RemoveEntry(es[1..], name) == es[1..][..p] + es[1..][p + 1..]
    ensures Position(es, name) == Some(p + 1) && RemoveEntry(es, name) == es[..p + 1] + es[p + 2..]
  {
    DeleteAfterHead(es, p);
  }

  /** Deleting position `p` of the tail, then putting the head back, deletes position `p + 1`. */
  lemma DeleteAfterHead(es: seq<MapEntry>, p: nat)
    requires p + 1 < |es|
    ensures [es[0]] + (es[1..][..p] + es[1..][p + 1..]) == es[..p + 1] + es[p + 2..]
  {
    assert es[..p + 1] == [es[0]] + es[1..][..p];
    assert es[p + 2..] == es[1..][p + 1..];
  }

  /** After removing a name from a store with unique names, the name is absent and the lookup fails. */
  lemma RemoveThenAbsent(es: seq<MapEntry>, name: string)
    requires UniqueNames(es)
    ensures !HasName(RemoveEntry(es, name), name)
    ensures GetEntryByName(name, RemoveEntry(es, name)).None?
  {
    RemoveAt(es, name);
    var r := RemoveEntry(es, name);
    match Position(es, name)
    case None =>
    case Some(p) =>
      forall i | 0 <= i < |r| ensures r[i].name != name {
        if i < p {
          assert r[i] == es[i];
        } else {
          assert r[i] == es[i + 1];
        }
      }
  }

  /** Removing keeps names and filehashes unique. */
  lemma RemoveKeepsWellFormed(es: seq<MapEntry>, name: string)
    requires WellFormed(es)
    ensures WellFormed(RemoveEntry(es, name))
  {
    RemoveAt(es, name);
    match Position(es, name)
    case None =>
    case Some(p) => DeleteKeepsWellFormed(es, p);
  }

  /** Deleting one entry keeps names and filehashes distinct. */
  lemma DeleteKeepsWellFormed(es: seq<MapEntry>, p: nat)
    requires WellFormed(es) && p < |es|
    ensures WellFormed(es[..p] + es[p + 1..])
  {
    var r := es[..p] + es[p + 1..];
    forall i | 0 <= i < |r| ensures r[i] == es[if i < p then i else i + 1] {
    }
  }

  /** `edit` with the sentinel "no-new-category", or with a name not in the store, changes nothing. */
  lemma {:induction false} EditUnchanged(es: seq<MapEntry>, name: string, category: string)
    requires Position(es, name).None? || category == NoNewCategory
    ensures EditEntry(es, name, category) == es
  {
    if es != [] && es[0].name != name {
      EditUnchanged(es[1..], name, category);
      assert es == [es[0]] + es[1..];
    }
  }

  /**
   * Otherwise `edit` replaces the category of the first entry with that name
   * and leaves everything else as it was.
   */
  lemma {:induction false} EditAt(es: seq<MapEntry>, name: string, category: string)
    requires Position(es, name).Some? && category != NoNewCategory
    ensures
      var p := Position(es, name).value;
      EditEntry(es, name, category) == es[p := es[p].(category := category)]
  {
    var p := Position(es, name).value;
    var e := es[p].(category := category);
    if es[0].name == name {
      assert [e] + es[1..] == es[0 := e];
    } else {
      var t := es[1..];
      assert Position(t, name) == Some(p - 1);
      EditAt(t, name, category);
      assert EditEntry(es, name, category) == [es[0]] + EditEntry(t, name, category);
      UpdateAfterHead(es, p, e);
    }
  }

  /** Updating position `p - 1` of the tail, then putting the head back, updates position `p`. */
  lemma UpdateAfterHead(es: seq<MapEntry>, p: nat, e: MapEntry)
    requires 1 <= p < |es|
    ensures [es[0]] + es[1..][p - 1 := e] == es[p := e]
  {
    var r := [es[0]] + es[1..][p - 1 := e];
    assert forall i :: 0 <= i < |es| ==> r[i] == es[p := e][i];
  }

  /** Either way, the entry list after `edit`. */
  lemma EditResult(es: seq<MapEntry>, name: string, category: string)
    ensures Position(es, name).None? || category == NoNewCategory ==> EditEntry(es, name, category) == es
    ensures Position(es, name).Some? && category != NoNewCategory ==>
      var p := Position(es, name).value;
      EditEntry(es, name, category) == es[p := es[p].(category := category)]
  {
    if Position(es, name).None? || category == NoNewCategory {
      EditUnchanged(es, name, category);
    } else {
      EditAt(es, name, category);
    }
  }

  /** `edit` leaves every name and filehash in place, so it keeps the store well formed. */
  lemma EditKeepsWellFormed(es: seq<MapEntry>, name: string, category: string)
    requires WellFormed(es)
    ensures |EditEntry(es, name, category)| == |es|
    ensures forall i :: 0 <= i < |es| ==>
      EditEntry(es, name, category)[i].name == es[i].name &&
      EditEntry(es, name, category)[i].filehash == es[i].filehash
    ensures WellFormed(EditEntry(es, name, category))
  {
    EditResult(es, name, category);
  }

  /** After an `edit` that sets a category, looking the name up shows the new category. */
  lemma EditThenLookup(es: seq<MapEntry>, name: string, category: string)
    requires HasName(es, name) && category != NoNewCategory
    ensures GetEntryByName(name, EditEntry(es, name, category)).Some?
    ensures GetEntryByName(name, EditEntry(es, name, category)).value.category == category
  {
    EditResult(es, name, category);
    var p := Position(es, name).value;
    var r := EditEntry(es, name, category);
    assert Position(r, name) == Some(p) by {
      assert forall j :: 0 <= j < p ==> r[j] == es[j];
      assert r[p].name == name;
      var q := Position(r, name);
      assert q.Some?;
      assert !(q.value < p) && !(p < q.value);
    }
    GetEntryByNameIsFirst(name, r);
  }

  /** `get_categories`: every category in use, each once (the source returns them in hash order). */
  method GetCategories(entries: seq<MapEntry>) returns (categories: set<string>)
    ensures forall c :: c in categories <==> exists i :: 0 <= i < |entries| && entries[i].category == c
  {
    categories := {};
    for i := 0 to |entries|
      invariant forall c :: c in categories <==> exists j :: 0 <= j < i && entries[j].category == c
    {
      categories := categories + {entries[i].category};
    }
  }

  /**
   * What the `add` command of `main` leaves in memory AS WRITTEN: `add`
   * stores the entry, then `edit` is called with the raw category argument,
   * which undoes the "default" that `add` put in place of an empty one.
   */
  function AddFlowAsWritten(es: seq<MapEntry>, name: string, category: string, filehash: string, created: bool): (r: seq<MapEntry>)
    ensures |r| == if HasName(es, name) || !created then |es| else |es| + 1
    ensures forall i :: 0 <= i < |es| ==> r[i].name == es[i].name && r[i].filehash == es[i].filehash
  {
    EditEntry(AddEntry(es, MapEntry(name, category, filehash), created), name, category)
  }

  /** As written, `pxc add <name> ""` for a new name leaves the entry with an empty category. */
  lemma AddFlowAsWrittenKeepsEmptyCategory(es: seq<MapEntry>, name: string, filehash: string)
    requires !HasName(es, name)
    ensures GetEntryByName(name, AddFlowAsWritten(es, name, "", filehash, true)) == Some(MapEntry(name, "", filehash))
  {
    var e := MapEntry(name, "", filehash);
    var x := MapEntry(name, DefaultCategory, filehash);
    AddSpec(es, e, true);
    var added := AddEntry(es, e, true);
    assert added == es + [x];
    assert forall j :: 0 <= j < |es| ==> added[j].name != name;
    assert Position(added, name) == Some(|es|);
    EditAt(added, name, "");
    assert added[|es|].(category := "") == e;
    ReplaceLast(es, x, e);
    LookupAppended(es, e);
  }

  /** Overwriting the appended entry is appending the new one. */
  lemma ReplaceLast(es: seq<MapEntry>, x: MapEntry, e: MapEntry)
    ensures (es + [x])[|es| := e] == es + [e]
  {
    assert forall i :: 0 <= i < |es| ==> (es + [x])[|es| := e][i] == es[i];
  }

  /** The `add` command as evidently intended: `edit` is given the category `add` stored. */
  function AddFlow(es: seq<MapEntry>, name: string, category: string, filehash: string, created: bool): (r: seq<MapEntry>)
    ensures |r| == if HasName(es, name) || !created then |es| else |es| + 1
    ensures forall i :: 0 <= i < |es| ==> r[i].name == es[i].name && r[i].filehash == es[i].filehash
  {
    EditEntry(AddEntry(es, MapEntry(name, category, filehash), created), name, StoredCategory(category))
  }

  /** The corrected `add` command: the new entry is found with its category, "default" when empty. */
  lemma AddFlowFindsCategory(es: seq<MapEntry>, name: string, category: string, filehash: string)
    requires !HasName(es, name)
    ensures GetEntryByName(name, AddFlow(es, name, category, filehash, true))
      == Some(MapEntry(name, StoredCategory(category), filehash))
  {
    var e := MapEntry(name, category, filehash);
    AddSpec(es, e, true);
    var added := AddEntry(es, e, true);
    EditResult(added, name, StoredCategory(category));
    LookupUnchanged(added, name, StoredCategory(category));
  }

  lemma LookupUnchanged(es: seq<MapEntry>, name: string, category: string)
    requires GetEntryByName(name, es).Some? && GetEntryByName(name, es).value.category == category
    ensures EditEntry(es, name, category) == es
  {
    EditResult(es, name, category);
    if category != NoNewCategory {
      var p := Position(es, name).value;
      GetEntryByNameIsFirst(name, es);
      assert es[p := es[p].(category := category)] == es;
    }
  }

  /** The command map of a run of pxc, changed in place by the subcommands. */
  class CommandMap {
    var entries: seq<MapEntry>

    /** Names and filehashes identify entries. */
    ghost predicate Valid()
      reads this
    {
      WellFormed(entries)
    }

    /** The map as `read_map_file` loaded it. */
    constructor (loaded: seq<MapEntry>)
      ensures entries == loaded
    {
      entries := loaded;
    }

    /** `add`: refuse a duplicate name, default an empty category, push at the end. */
    method Add(e: MapEntry, created: bool)
      modifies this
      ensures entries == AddEntry(old(entries), e, created)
      ensures old(Valid()) && !InUse(e.filehash, old(entries)) ==> Valid()
    {
      if CheckEntryExists(e.name, entries) {
        return;
      }
      var entry := e;
      if entry.category == "" {
        entry := entry.(category := DefaultCategory);
      }
      if !created {
        return;
      }
      if Valid() && !InUse(e.filehash, entries) {
        AddKeepsWellFormed(entries, e, created);
      }
      entries := entries + [entry];
    }

    /**
     * The list part of `remove`: find the position of the name and delete
     * it; `removed` is the filehash of the script file to delete.
     */
    method Remove(name: string) returns (removed: Option<string>)
      modifies this
      ensures entries == RemoveEntry(old(entries), name)
      ensures removed.None? <==> !HasName(old(entries), name)
      ensures removed.Some? ==> removed == Some(GetEntryByName(name, old(entries)).value.filehash)
      ensures old(Valid()) ==> Valid() && !HasName(entries, name)
    {
      ghost var before := entries;
      ghost var wasValid := Valid();
      if wasValid {
        RemoveKeepsWellFormed(before, name);
        RemoveThenAbsent(before, name);
      }
      RemoveAt(before, name);
      match Position(entries, name)
      case None =>
        removed := None;
      case Some(pos) =>
        GetEntryByNameIsFirst(name, before);
        removed := Some(entries[pos].filehash);
        entries := entries[..pos] + entries[pos + 1..];
    }

    /** The category part of `edit`; `found` is false where the source reports the name missing. */
    method Edit(name: string, category: string) returns (found: bool)
      modifies this
      ensures found <==> HasName(old(entries), name)
      ensures entries == EditEntry(old(entries), name, category)
      ensures old(Valid()) ==> Valid()
    {
      EditResult(entries, name, category);
      if old(Valid()) {
        EditKeepsWellFormed(entries, name, category);
      }
      match Position(entries, name)
      case None =>
        found := false;
      case Some(pos) =>
        found := true;
        if category != NoNewCategory {
          entries := entries[pos := entries[pos].(category := category)];
        }
    }

    /**
     * The `add` command of `main` (its in-memory effect): an existing name
     * is handed to `edit` with "no-new-category"; otherwise a filehash is
     * allocated from `draws`, the entry is added and then edited to the
     * stored category. `filehash` is the allocated one, `None` when the name
     * existed or the draws ran out; `used` counts the candidates drawn.
     */
    method AddCommand(name: string, category: Option<string>, draws: seq<seq<nat>>, created: bool)
      returns (filehash: Option<string>, used: nat)
      requires forall k :: 0 <= k < |draws| ==> ValidDraws(draws[k])
      modifies this
      ensures used <= |draws|
      ensures HasName(old(entries), name) ==> entries == old(entries) && filehash.None? && used == 0
      ensures filehash.None? ==> entries == old(entries)
      ensures !HasName(old(entries), name) && filehash.None? ==>
        used == |draws| && AllInUse(old(entries), draws, |draws|)
      ensures filehash.Some? ==>
        && FirstFree(old(entries), draws, used, filehash.value)
        && IsIdentifier(filehash.value)
        && entries == AddFlow(old(entries), name, category.GetOr(DefaultCategory), filehash.value, created)
      ensures old(Valid()) ==> Valid()
    {
      if CheckEntryExists(name, entries) {
        EditUnchanged(entries, name, NoNewCategory);
        var _ := Edit(name, NoNewCategory);
        return None, 0;
      }
      filehash, used := AllocateFilehash(entries, draws);
      if filehash.Some? {
        AddNew(name, category.GetOr(DefaultCategory), filehash.value, created);
      }
    }

    /** The new-name branch of `add`: push the entry, then `edit` it to its stored category. */
    method AddNew(name: string, category: string, filehash: string, created: bool)
      modifies this
      ensures entries == AddFlow(old(entries), name, category, filehash, created)
      ensures old(Valid()) && !InUse(filehash, old(entries)) ==> Valid()
    {
      ghost var before := entries;
      Add(MapEntry(name, category, filehash), created);
      assert entries == AddEntry(before, MapEntry(name, category, filehash), created);
      var _ := Edit(name, StoredCategory(category));
    }
  }
}
