# pxc command map, modelled in Dafny

pxc keeps named shell snippets. Each snippet is an entry of the command map
(`name;category;filehash`, one per line of the map file). Its script lives in
`cmd/<filehash>`, and the filehash is eight random symbols from
`ABCDEF0123456789`. The commands add, remove and edit entries, list
categories and find entries by substring. They also resolve a typed fragment
to one entry, either directly on the command line or through an interactive
key loop that keeps a live search word.

This project models that core of `pxc/src/main.rs`. The modules are:

- `Entries`: the `MapEntry` record and the lookups `check_entry_exists`,
  `get_entry_by_name` and `position`.
- `Search`: `find_entries_containing`, a substring filter in store order, and
  the stable sort by UTF-8 byte length that the interactive loop applies.
- `Identifiers`: `gen_char_sequence` as a function of its random draws,
  `check_sequence_exists`, and the retry loop that allocates a fresh filehash.
- `Codec`: the line format written by `save_map` and split by
  `read_map_file`, plus the whole-file reading of `BufRead::lines`.
- `Store`: `add`, `remove`, `edit` and `get_categories` as specification
  functions and lemmas, and the class `CommandMap` whose methods change the
  loaded map in place, including the `add` command of `main`.
- `Dispatch`: the interactive key loop as a state machine (`Step`, `Run`,
  and the `Interactive` method), and the non-interactive resolution of a
  fragment with its numbered choice (`Resolve`).
- `Wrappers`: `Option`.

Panics of the source are explicit outcomes:

- In the key loop, `Panicked` is the enter key's `get(0).unwrap()` on an
  empty match list, and a key that `from_u32` rejects.
- In the numbered choice, `Panic` is `get(i - 1).unwrap()` on an answer of
  0 or a number past the end of the list.
- A map line with fewer than three fields makes `ParseLine` and `LoadMap`
  return `None`.

## Model

| member | source | states |
|---|---|---|
| Entries.CheckEntryExists | pxc/src/main.rs:585-587 | true exactly when some entry has the name |
| Entries.Position | pxc/src/main.rs:564 | `None` exactly when the name is absent; otherwise the first index whose entry has the name |
| Entries.GetEntryByName | pxc/src/main.rs:409-411 | `Some` exactly when the name is present; the value has that name and is an entry of the list |
| Entries.GetEntryByNameIsFirst | pxc/src/main.rs:409-411 | `find` returns the entry at the first position holding the name |
| Entries.LookupUnique | pxc/src/main.rs:409-411 | with unique names, looking up entry i's name yields index i and entry i |
| Search.Contains | pxc/src/main.rs:359 | `str::contains`: true exactly when the pattern occurs at some position |
| Search.FindEntriesContaining | pxc/src/main.rs:355-362 | no longer than the store; every result contains the query and names an entry |
| Search.FindIndices | pxc/src/main.rs:355-362 | the result is the names at a strictly increasing list of store positions, and a position is on that list exactly when its name contains the query |
| Search.FindEmptyQuery | pxc/src/main.rs:355-362 | the empty query returns every name, in store order |
| Search.ByteLen | pxc/src/main.rs:249 | `String::len` counts UTF-8 bytes: between one and four per character |
| Search.ByteLenAscii | pxc/src/main.rs:249 | an ASCII string has one byte per character |
| Search.Insert | pxc/src/main.rs:249 | the insertion step adds exactly one occurrence of the element |
| Search.SortByLength | pxc/src/main.rs:249 | the sort is a permutation of its input |
| Search.SortByLengthSorted | pxc/src/main.rs:249 | the sorted list is ordered by byte length |
| Search.SortByLengthStable | pxc/src/main.rs:249 | `sort_by` is stable: strings of equal length keep their relative order |
| Search.FirstShortest | pxc/src/main.rs:249-251 | a position of least byte length, with every earlier string strictly longer |
| Search.SortByLengthHead | pxc/src/main.rs:249-251 | the head of the sorted list is the first shortest string of the input |
| Identifiers.GenCharSequence | pxc/src/main.rs:44-52 | eight draws yield eight symbols of the charset |
| Identifiers.DrawsOf | pxc/src/main.rs:44-52 | every identifier has a valid draw vector |
| Identifiers.CharsetDistinct | pxc/src/main.rs:45 | the sixteen symbols are pairwise distinct |
| Identifiers.GenerationBijective | pxc/src/main.rs:44-52 | generation and `DrawsOf` are inverse, so each identifier comes from exactly one draw vector |
| Identifiers.CheckSequenceExists | pxc/src/main.rs:54-61 | true exactly when some entry already has the filehash |
| Identifiers.AllocateFilehash | pxc/src/main.rs:109-116 | the result is the first generated candidate not in use; every earlier candidate was in use; `None` only when every supplied draw collided |
| Identifiers.FreshKeepsFilehashesUnique | pxc/src/main.rs:109-125 | appending an entry with a filehash not in use keeps filehashes unique |
| Codec.Split | pxc/src/main.rs:464 | `split(';')` yields one more part than there are separators, and no part holds a separator |
| Codec.JoinSplit | pxc/src/main.rs:464 | joining the parts of a split gives the string back |
| Codec.SplitAtFirst | pxc/src/main.rs:464 | a string cut at its first separator splits into the head, then the parts of the rest |
| Codec.SplitNone | pxc/src/main.rs:464 | a string without the separator splits into itself alone |
| Codec.SplitJoin | pxc/src/main.rs:464 | splitting a join of separator-free parts gives the parts back |
| Codec.ParseLine | pxc/src/main.rs:464-469 | a line parses exactly when it has at least two separators (three fields), and the parsed fields hold no separator |
| Codec.LineRoundTrip | pxc/src/main.rs:665 | a line written for an entry whose fields hold no `;` parses back to that entry |
| Codec.LineFormatParse | pxc/src/main.rs:464-469 | a line with exactly two separators parses, and writing the result gives the line back |
| Codec.FormatLine | pxc/src/main.rs:665 | the written line is the three fields with a `;` after the name and after the category |
| Codec.Lines | pxc/src/main.rs:463 | at most one line per newline plus one, and no line holds a newline |
| Codec.LinesOfSegments | pxc/src/main.rs:463 | no more lines than segments, and each line is a prefix of its segment (a trailing `\r` removed) |
| Codec.LinesOfTerminated | pxc/src/main.rs:463 | newline-terminated lines without `\r` read back as exactly those lines |
| Codec.SerializeMap | pxc/src/main.rs:664-667 | the file is empty exactly when the map is, and otherwise ends with a newline |
| Codec.ParseMap | pxc/src/main.rs:456-479 | the file loads exactly when every line parses, with one entry per line |
| Codec.ParseLines | pxc/src/main.rs:463-470 | succeeds exactly when every line has three fields; the i-th entry is the parse of the i-th line |
| Codec.LoadMap | pxc/src/main.rs:456-479 | an unreadable file gives the empty map; a readable one loads exactly when every line parses |
| Codec.SerializeAsJoin | pxc/src/main.rs:664-667 | the file is the formatted lines joined by newlines, with a final newline |
| Codec.FormatLineAvoids | pxc/src/main.rs:665 | a character other than `;` that no field holds does not occur in the written line |
| Codec.SavedLines | pxc/src/main.rs:664-667 | the lines of a saved file are the formatted entries |
| Codec.ParseFormatted | pxc/src/main.rs:463-470 | the formatted lines of storable entries parse back to the entries |
| Codec.SaveLoadRoundTrip | pxc/src/main.rs:648-670 | loading what `save_map` wrote yields the same entries in the same order |
| Store.AddEntry | pxc/src/main.rs:589-622 | a duplicate name, or a script file that cannot be created, leaves the list as it was; otherwise one entry with that name and a non-empty category is appended after the unchanged old entries |
| Store.RemoveEntry | pxc/src/main.rs:563-568 | the list shrinks by one exactly when the name is present, and holds no entry that was not there before |
| Store.EditEntry | pxc/src/main.rs:686-690 | the length, every name and every filehash stay as they were |
| Store.AddFlowAsWritten | pxc/src/main.rs:118-129 | the add flow as written grows the list by one exactly for a new name with a created script, and keeps the names and filehashes of the old entries |
| Store.AddFlow | pxc/src/main.rs:118-129 | the corrected add flow grows the list by one exactly for a new name with a created script, and keeps the names and filehashes of the old entries |
| Store.StoredCategory | pxc/src/main.rs:595-597 | the stored category is never empty: an empty one becomes "default", any other is kept |
| Store.LookupAppended | pxc/src/main.rs:619 | after pushing an entry with a new name, looking the name up finds it |
| Store.AddSpec | pxc/src/main.rs:589-622 | a duplicate name, or a script file that cannot be created, changes nothing; otherwise one entry is appended with the stored category, earlier entries stay in place, and the lookup finds the new one |
| Store.AddKeepsWellFormed | pxc/src/main.rs:589-622 | with a fresh filehash, `add` keeps names and filehashes unique |
| Store.RemoveAt | pxc/src/main.rs:563-568 | an absent name changes nothing; otherwise exactly the entry at the first position holding the name is deleted |
| Store.RemoveThenAbsent | pxc/src/main.rs:563-568 | with unique names, the name is absent afterwards and its lookup fails |
| Store.RemoveKeepsWellFormed | pxc/src/main.rs:563-568 | removal keeps names and filehashes unique |
| Store.EditUnchanged | pxc/src/main.rs:686-690 | "no-new-category", or an absent name, changes nothing |
| Store.EditAt | pxc/src/main.rs:686-690 | otherwise only the category of the first entry with the name is replaced |
| Store.EditResult | pxc/src/main.rs:686-690 | both cases of `edit` together |
| Store.EditKeepsWellFormed | pxc/src/main.rs:686-690 | `edit` keeps the length, every name and every filehash, so it keeps the store well formed |
| Store.EditThenLookup | pxc/src/main.rs:686-690 | after setting a category, the lookup shows that category |
| Store.LookupUnchanged | pxc/src/main.rs:686-690 | re-setting the category an entry already has changes nothing |
| Store.GetCategories | pxc/src/main.rs:709-717 | a category is returned exactly when some entry has it |
| Store.AddFlowAsWrittenKeepsEmptyCategory | pxc/src/main.rs:118-129 | as written, `pxc add <name> ""` on any map without the name leaves the new entry with an empty category |
| Store.AddFlowFindsCategory | pxc/src/main.rs:118-129 | as intended, a new entry is found with its stored category |
| Store.CommandMap.constructor | pxc/src/main.rs:64 | the map starts as the loaded entry list |
| Store.CommandMap.Add | pxc/src/main.rs:589-622 | the new list is that of `add`; validity is kept when the filehash is fresh |
| Store.CommandMap.Remove | pxc/src/main.rs:539-568 | the new list is that of `remove`; the returned filehash is `None` exactly when the name is absent, and otherwise the removed entry's; validity is kept and the name is gone |
| Store.CommandMap.Edit | pxc/src/main.rs:686-707 | found exactly when the name is present; the new list is that of `edit`; validity is kept |
| Store.CommandMap.AddCommand | pxc/src/main.rs:86-130 | an existing name changes nothing and allocates nothing; for a new name the filehash is the first drawn candidate not in use, every earlier candidate was in use, and the list is that of the corrected add flow; `None` for a new name only when every draw collided, and then nothing changes; validity is kept |
| Dispatch.Matches | pxc/src/main.rs:247-249 | the sorted matches are a permutation of the filtered names, ordered by byte length |
| Dispatch.Step | pxc/src/main.rs:206-288 | escape and only escape cancels; a selection follows enter and names a match; a panic happens exactly on enter with no match or on a key that is not a Unicode scalar value; while searching, `last_max_y` is the first result row plus the number of matches |
| Dispatch.Run | pxc/src/main.rs:203-290 | a loop that has ended, or has no keys left, stays as it is; a cancel needs an escape key and a selection an enter key |
| Dispatch.Interactive | pxc/src/main.rs:203-290 | the loop ends in the state that `Run` gives for the keys read |
| Dispatch.BackspaceUndoesKey | pxc/src/main.rs:211-258 | a character key appends itself and keeps the loop searching; backspace then restores the previous search word |
| Dispatch.BackspaceOnEmpty | pxc/src/main.rs:211-215 | backspace on an empty search word leaves it empty |
| Dispatch.MatchesEmpty | pxc/src/main.rs:247-249 | the sorted matches are empty exactly when no name contains the search word |
| Dispatch.MatchesHead | pxc/src/main.rs:247-251 | the first sorted match names the first shortest matching entry |
| Dispatch.EnterSelectsShortest | pxc/src/main.rs:241-254 | enter panics exactly when nothing matches; otherwise it selects the first shortest match |
| Dispatch.RunSelectsShortest | pxc/src/main.rs:203-290 | for any keys, `last_max_y` tracks the rows drawn for the search word, and a selection is always the first shortest match |
| Dispatch.RunStopsAtEnd | pxc/src/main.rs:203-209 | once the loop has ended, further keys change nothing |
| Dispatch.EnterRunsFirst | pxc/src/main.rs:241-254 | enter with matches ends on the first sorted match |
| Dispatch.TypeOneKey | pxc/src/main.rs:255-258 | from the start, a character key makes the search word that one character |
| Dispatch.TypeThenEnter | pxc/src/main.rs:203-290 | one character and enter select the first sorted match for that character |
| Dispatch.SortTwo | pxc/src/main.rs:249 | two names of different lengths sort shortest first |
| Dispatch.SortThree | pxc/src/main.rs:249 | three names of distinct lengths sort shortest first |
| Dispatch.MatchesScenario | pxc/src/main.rs:273-275 | the matches for `b` over build, buildall and b are b, build, buildall |
| Dispatch.InteractiveScenario | pxc/src/main.rs:203-290 | typing `b` and enter over build, buildall and b selects b |
| Dispatch.ParseU32 | pxc/src/main.rs:334 | a parsed choice fits in 32 bits |
| Dispatch.ToDecimal | pxc/src/main.rs:318 | the printed counter is a non-empty string of digits |
| Dispatch.DecimalValueOfNumeral | pxc/src/main.rs:318 | the printed counter reads back as its value |
| Dispatch.ParseU32Numeral | pxc/src/main.rs:334 | typing a printed counter parses back to that number |
| Dispatch.Resolve | pxc/src/main.rs:298-347 | an exact run names an existing entry; a chosen run names a match; an invalid option echoes the answer; a panic needs a parsed number |
| Dispatch.ResolveAnswer | pxc/src/main.rs:333-347 | for a fragment that is not a name but matches: an empty answer confirms a single match; the answer is invalid exactly when it is not a number and not that confirmation; it panics exactly on 0 or a number past the list; otherwise it runs the chosen match |
| Dispatch.ResolveSound | pxc/src/main.rs:298-347 | an exact run happens exactly when the name exists; a chosen run names an entry containing the fragment; "Command not found" exactly when nothing equals or contains the fragment |
| Dispatch.ResolveNumbered | pxc/src/main.rs:334-339 | answering the k-th printed number runs the k-th match; 0 or a number past the list panics |
| Dispatch.ResolutionScenario | pxc/src/main.rs:298-347 | over deploy-dev and deploy-prod, fragment `deploy` with answer `2` runs deploy-prod, and `abc` is an invalid option |

## Left out

- File and terminal I/O are parameters or not modelled. This covers the map and config files, script files, ncurses drawing, `println!`, the editor, `ext`, `print_cmd`, `run_cmd`, `execute_command` and `read_config`. The one file effect that changes the map, whether `add` could create the script file, is the parameter `created`.
- `save_map` does nothing when the map file does not exist; the model only states what a save writes.
- Randomness is an input: `gen_char_sequence` takes its eight draws as a parameter.
- Identifiers.AllocateFilehash: the source retries without bound; the model takes a finite supply of draws and returns `None` when every supplied candidate collides.
- Store.GetCategories: returns a set; the source returns a `Vec` in `HashSet` iteration order, which the model leaves unspecified.
- Dispatch.Interactive: keys arrive as a sequence; the loop also ends when the sequence runs out. The running of the selected command is not modelled; the final phase names it.
- Dispatch.Resolve: `input` is the line read from stdin after `trim`, which is not modelled. Printing the numbered list is not modelled.
- Codec.LoadMap: lines of the map file that are not valid UTF-8 are skipped by `flatten` in the source; the model reads text that is already characters.
- The launcher that `ext` writes is named `<name>.!`, while `remove` deletes `<name>.pxc`. This is a file-system effect and is not modelled.
- Store.CommandMap.Remove: models the list part of `remove` only. The fallback filehash for an entry found by `check_entry_exists` but not by `find` cannot be reached, so it is not modelled. Deleting the script and launcher files is not modelled.
- A map line with fewer than three fields panics in the source (index out of range); the model's `None` stands for that panic.

## Findings

| source | as written | input that shows it | evidently intended | confidence | as-written member | corrected member |
|---|---|---|---|---|---|---|
| pxc/src/main.rs:118-129 | `add` turns an empty category into "default", then `main` calls `edit` with the raw category argument, which puts the empty category back | `pxc add x ""` on a map without `x` | the entry keeps the category `add` stored, "default" | not executed | Store.AddFlowAsWrittenKeepsEmptyCategory | Store.AddFlowFindsCategory |
