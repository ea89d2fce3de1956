/**
 * The command map of pxc: an ordered list of `MapEntry` records, and the
 * lookups the rest of the program uses on it (`check_entry_exists`,
 * `get_entry_by_name`, and the `position` searches of `remove` and `edit`).
 */
module Entries {
  import opened Wrappers

  /** A named, categorised reference to the script file `cmd/<filehash>`. */
  datatype MapEntry = MapEntry(name: string, category: string, filehash: string)

  /** No two entries share a name. */
  ghost predicate UniqueNames(es: seq<MapEntry>)
  {
    forall i, j :: 0 <= i < j < |es| ==> es[i].name != es[j].name
  }

  /** No two entries share a filehash (the script file name). */
  ghost predicate UniqueFilehashes(es: seq<MapEntry>)
  {
    forall i, j :: 0 <= i < j < |es| ==> es[i].filehash != es[j].filehash
  }

  /** The invariant the store is meant to keep: names and filehashes are identifiers. */
  ghost predicate WellFormed(es: seq<MapEntry>)
  {
    UniqueNames(es) && UniqueFilehashes(es)
  }

  /** Some entry of `es` is called `name`. */
  ghost predicate HasName(es: seq<MapEntry>, name: string)
  {
    exists i :: 0 <= i < |es| && es[i].name == name
  }

  /** `check_entry_exists`: `entries.iter().any(|e| e.name == name)`. */
  function CheckEntryExists(name: string, es: seq<MapEntry>): (b: bool)
    ensures b <==> HasName(es, name)
  {
    if es == [] then false
    else if es[0].name == name then true
    else
      var rest := CheckEntryExists(name, es[1..]);
      assert HasName(es[1..], name) ==> HasName(es, name) by {
        if HasName(es[1..], name) {
          var i :| 0 <= i < |es[1..]| && es[1..][i].name == name;
          assert es[i + 1].name == name;
        }
      }
      rest
  }

  /** `entries.iter().position(|e| e.name == name)`: the first index holding `name`. */
  function Position(es: seq<MapEntry>, name: string): (r: Option<nat>)
    ensures r.None? <==> !HasName(es, name)
    ensures r.Some? ==> r.value < |es| && es[r.value].name == name
    ensures r.Some? ==> forall j :: 0 <= j < r.value ==> es[j].name != name
  {
    if es == [] then None
    else if es[0].name == name then Some(0)
    else
      match Position(es[1..], name)
      case None => None
      case Some(p) => Some(p + 1)
  }

  /** `get_entry_by_name`: `entries.iter().find(|e| e.name == name)`. */
  function GetEntryByName(name: string, es: seq<MapEntry>): (r: Option<MapEntry>)
    ensures r.Some? <==> HasName(es, name)
    ensures r.Some? ==> r.value.name == name && r.value in es
  {
    if es == [] then None
    else if es[0].name == name then Some(es[0])
    else GetEntryByName(name, es[1..])
  }

  /** `find` returns the entry at the first position holding the name. */
  lemma {:induction false} GetEntryByNameIsFirst(name: string, es: seq<MapEntry>)
    ensures Position(es, name).Some? ==> GetEntryByName(name, es) == Some(es[Position(es, name).value])
  {
    if es != [] && es[0].name != name {
      GetEntryByNameIsFirst(name, es[1..]);
    }
  }

  /** With unique names, looking up the name of entry `i` yields entry `i` itself. */
  lemma LookupUnique(es: seq<MapEntry>, i: nat)
    requires UniqueNames(es)
    requires i < |es|
    ensures Position(es, es[i].name) == Some(i)
    ensures GetEntryByName(es[i].name, es) == Some(es[i])
  {
    var p := Position(es, es[i].name);
    assert p.Some?;
    GetEntryByNameIsFirst(es[i].name, es);
  }
}
