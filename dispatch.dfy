/**
 * Choosing the command to run. The `interactive` subcommand reads keys and
 * keeps a live search word: escape leaves, backspace drops the last
 * character, enter runs the shortest match, any other key is appended. A
 * bare fragment on the command line runs an exact match directly, and
 * otherwise lists the matches and reads a 1-based choice. Running the
 * command is outside the model; the result says which entry would run, and
 * `Panicked` stands for the source's `unwrap` of `None`.
 */
module Dispatch {
  import opened Wrappers
  import opened Entries
  import opened Search

  /** Key codes returned by `getch`. */
  const KeyEscape: int := 27
  const KeyBackspace: int := 263
  const KeyEnter: int := 10

  /** The row after which matches are drawn (`print_y` starts here). */
  const FirstResultRow: int := 3

  /** Whether the loop still reads keys, and how it ended. */
  datatype Phase = Searching | Cancelled | Selected(name: string) | Panicked

  /** `search_word`, `last_max_y` and `in_loop` (as the phase). */
  datatype LoopState = LoopState(searchWord: string, lastMaxY: int, phase: Phase)

  const Initial: LoopState := LoopState("", 0, Searching)

  /** `std::char::from_u32(ch as u32)` succeeds: the code is a Unicode scalar value. */
  predicate IsScalarValue(code: int)
  {
    0 <= code < 0xD800 || 0xE000 <= code < 0x11_0000
  }

  /** The matches the loop shows and picks from: sorted by byte length, shortest first. */
  function Matches(es: seq<MapEntry>, q: string): (r: seq<string>)
    ensures multiset(r) == multiset(FindEntriesContaining(es, q))
    ensures SortedByLength(r)
  {
    SortByLengthSorted(FindEntriesContaining(es, q));
    SortByLength(FindEntriesContaining(es, q))
  }

  /** The search word without its last character, if it has one. */
  function DropLast(q: string): string
  {
    if q == [] then [] else q[..|q| - 1]
  }

  /** One pass of `while in_loop`: the effect of key `key`. */
  function Step(es: seq<MapEntry>, st: LoopState, key: int): (r: LoopState)
    requires st.phase == Searching
    ensures r.phase == Cancelled <==> key == KeyEscape
    ensures r.phase.Selected? ==> key == KeyEnter && r.phase.name in FindEntriesContaining(es, st.searchWord)
    ensures r.phase == Panicked <==>
      || (key == KeyEnter && FindEntriesContaining(es, st.searchWord) == [])
      || (key != KeyEscape && key != KeyBackspace && key != KeyEnter && !IsScalarValue(key))
    ensures r.phase == Searching ==> r.lastMaxY == FirstResultRow + |FindEntriesContaining(es, r.searchWord)|
  {
    if key == KeyEscape then st.(phase := Cancelled)
    else if key == KeyBackspace then
      var q := DropLast(st.searchWord);
      LoopState(q, FirstResultRow + |FindEntriesContaining(es, q)|, Searching)
    else if key == KeyEnter then
      var found := Matches(es, st.searchWord);
      if found == [] then st.(phase := Panicked)
      else
        assert found[0] in multiset(found);
        st.(phase := Selected(found[0]))
    else if IsScalarValue(key) then
      var q := st.searchWord + [key as char];
      LoopState(q, FirstResultRow + |FindEntriesContaining(es, q)|, Searching)
    else st.(phase := Panicked)
  }

  /** The loop fed with the keys `keys`, until it ends or the keys run out. */
  function Run(es: seq<MapEntry>, st: LoopState, keys: seq<int>): (r: LoopState)
    ensures st.phase != Searching || keys == [] ==> r == st
    ensures r.phase == Cancelled ==> st.phase == Cancelled || KeyEscape in keys
    ensures r.phase.Selected? ==> st.phase.Selected? || KeyEnter in keys
    decreases |keys|
  {
    if st.phase != Searching || keys == [] then st
    else Run(es, Step(es, st, keys[0]), keys[1..])
  }

  /** The `interactive` loop with its display stripped: reads keys until escape or enter. */
  method Interactive(entries: seq<MapEntry>, keys: seq<int>) returns (st: LoopState)
    ensures st == Run(entries, Initial, keys)
  {
    var searchWord := "";
    var lastMaxY := 0;
    var inLoop := true;
    var phase := Searching;
    var i := 0;
    while inLoop && i < |keys|
      invariant 0 <= i <= |keys|
      invariant inLoop <==> phase == Searching
      invariant Run(entries, Initial, keys) == Run(entries, LoopState(searchWord, lastMaxY, phase), keys[i..])
    {
      var ch := keys[i];
      ghost var before := LoopState(searchWord, lastMaxY, phase);
      assert keys[i..][1..] == keys[i + 1..];
      i := i + 1;
      if ch == KeyEscape {
        inLoop := false;
        phase := Cancelled;
      } else if ch == KeyBackspace {
        if |searchWord| > 0 {
          searchWord := searchWord[..|searchWord| - 1];
        }
        lastMaxY := FirstResultRow + |FindEntriesContaining(entries, searchWord)|;
      } else if ch == KeyEnter {
        var foundEntries := Matches(entries, searchWord);
        if |foundEntries| == 0 {
          phase := Panicked;
        } else {
          phase := Selected(foundEntries[0]);
        }
        inLoop := false;
      } else if IsScalarValue(ch) {
        searchWord := searchWord + [ch as char];
        lastMaxY := FirstResultRow + |FindEntriesContaining(entries, searchWord)|;
      } else {
        phase := Panicked;
        inLoop := false;
      }
      assert LoopState(searchWord, lastMaxY, phase) == Step(entries, before, ch);
    }
    st := LoopState(searchWord, lastMaxY, phase);
  }

  /**
   * Any key other than escape, backspace and enter that is a character
   * appends it to the search word, and backspace afterwards restores it.
   */
  lemma BackspaceUndoesKey(es: seq<MapEntry>, st: LoopState, key: int)
    requires st.phase == Searching
    requires IsScalarValue(key) && key != KeyEscape && key != KeyBackspace && key != KeyEnter
    ensures Step(es, st, key).searchWord == st.searchWord + [key as char]
    ensures Step(es, st, key).phase == Searching
    ensures Step(es, Step(es, st, key), KeyBackspace).searchWord == st.searchWord
  {
    var q := st.searchWord + [key as char];
    assert q[..|q| - 1] == st.searchWord;
  }

  /** Backspace on an empty search word leaves it empty. */
  lemma BackspaceOnEmpty(es: seq<MapEntry>, st: LoopState)
    requires st.phase == Searching && st.searchWord == ""
    ensures Step(es, st, KeyBackspace).searchWord == ""
    ensures Step(es, st, KeyBackspace).phase == Searching
  {
  }

  /**
   * Entry `i` is the one enter picks for `q`: its name contains `q`, no
   * matching name is shorter in bytes, and every matching entry before it
   * is strictly longer.
   */
  ghost predicate ShortestFirstAt(es: seq<MapEntry>, q: string, i: int)
  {
    && 0 <= i < |es|
    && Contains(es[i].name, q)
    && (forall j :: 0 <= j < |es| && Contains(es[j].name, q) ==> ByteLen(es[i].name) <= ByteLen(es[j].name))
    && (forall j :: 0 <= j < i && Contains(es[j].name, q) ==> ByteLen(es[j].name) > ByteLen(es[i].name))
  }

  /** No entry's name contains `q`. */
  ghost predicate NoMatch(es: seq<MapEntry>, q: string)
  {
    forall j :: 0 <= j < |es| ==> !Contains(es[j].name, q)
  }

  /** The loop finds no matches exactly when no entry's name contains the search word. */
  lemma MatchesEmpty(es: seq<MapEntry>, q: string)
    ensures Matches(es, q) == [] <==> NoMatch(es, q)
  {
    var idx := FindIndices(es, q);
    forall k | 0 <= k < |idx| ensures Contains(es[idx[k]].name, q) {
      assert idx[k] in idx;
    }
    if idx != [] {
      assert Contains(es[idx[0]].name, q);
    } else {
      assert forall j :: 0 <= j < |es| ==> j !in idx;
    }
  }

  /** The first of the sorted matches is the name of the first shortest matching entry. */
  lemma MatchesHead(es: seq<MapEntry>, q: string)
    requires Matches(es, q) != []
    ensures exists i :: ShortestFirstAt(es, q, i) && es[i].name == Matches(es, q)[0]
  {
    var found := FindEntriesContaining(es, q);
    var idx := FindIndices(es, q);
    SortByLengthHead(found);
    var p := FirstShortest(found);
    var i := idx[p];
    assert i in idx;
    forall j | 0 <= j < |es| && Contains(es[j].name, q)
      ensures ByteLen(es[i].name) <= ByteLen(es[j].name)
      ensures j < i ==> ByteLen(es[j].name) > ByteLen(es[i].name)
    {
      ShortestAmongMatches(es, q, found, idx, p, j);
    }
    assert ShortestFirstAt(es, q, i);
  }

  lemma ShortestAmongMatches(es: seq<MapEntry>, q: string, found: seq<string>, idx: seq<nat>, p: nat, j: nat)
    requires found != [] && NamesAt(es, idx, found) && Enumerates(es, q, idx)
    requires p == FirstShortest(found)
    requires j < |es| && Contains(es[j].name, q)
    ensures ByteLen(es[idx[p]].name) <= ByteLen(es[j].name)
    ensures j < idx[p] ==> ByteLen(es[j].name) > ByteLen(es[idx[p]].name)
  {
    assert j in idx;
    var k :| 0 <= k < |idx| && idx[k] == j;
    assert found[k] == es[j].name;
    assert found[p] == es[idx[p]].name;
    assert ByteLen(found[p]) <= ByteLen(found[k]);
    if j < idx[p] {
      IncreasingBefore(idx, k, p);
      assert ByteLen(found[k]) > ByteLen(found[p]);
    }
  }

  /** In a strictly increasing index list, a smaller value sits at an earlier position. */
  lemma IncreasingBefore(idx: seq<nat>, k: nat, p: nat)
    requires forall a, b :: 0 <= a < b < |idx| ==> idx[a] < idx[b]
    requires k < |idx| && p < |idx| && idx[k] < idx[p]
    ensures k < p
  {
  }

  /**
   * Enter runs the first shortest match of the search word, and panics
   * exactly when nothing matches; the search word is left as it was.
   */
  lemma EnterSelectsShortest(es: seq<MapEntry>, st: LoopState)
    requires st.phase == Searching
    ensures Step(es, st, KeyEnter).searchWord == st.searchWord
    ensures Step(es, st, KeyEnter).phase.Panicked? <==> NoMatch(es, st.searchWord)
    ensures Step(es, st, KeyEnter).phase.Selected? ==>
      exists i :: ShortestFirstAt(es, st.searchWord, i) && es[i].name == Step(es, st, KeyEnter).phase.name
  {
    MatchesEmpty(es, st.searchWord);
    if Matches(es, st.searchWord) != [] {
      MatchesHead(es, st.searchWord);
    }
  }

  /** Between keys, `last_max_y` is the last result row drawn for the current search word. */
  ghost predicate RowsShown(es: seq<MapEntry>, st: LoopState)
  {
    || (st.searchWord == "" && st.lastMaxY == 0)
    || st.lastMaxY == FirstResultRow + |FindEntriesContaining(es, st.searchWord)|
  }

  /**
   * Whatever keys are read: the rows drawn match the search word, and a
   * loop that ends by selecting a name selects the first shortest match of
   * the final search word.
   */
  lemma {:induction false} RunSelectsShortest(es: seq<MapEntry>, st: LoopState, keys: seq<int>)
    requires st.phase == Searching && RowsShown(es, st)
    ensures RowsShown(es, Run(es, st, keys))
    ensures Run(es, st, keys).phase.Selected? ==>
      var r := Run(es, st, keys);
      exists i :: ShortestFirstAt(es, r.searchWord, i) && es[i].name == r.phase.name
    decreases |keys|
  {
    if keys != [] {
      var next := Step(es, st, keys[0]);
      if next.phase == Searching {
        RunSelectsShortest(es, next, keys[1..]);
      } else if keys[0] == KeyEnter {
        EnterSelectsShortest(es, st);
      }
    }
  }

  /** Once the loop has ended, further keys change nothing. */
  lemma {:induction false} RunStopsAtEnd(es: seq<MapEntry>, st: LoopState, keys: seq<int>, more: seq<int>)
    ensures Run(es, st, keys).phase != Searching ==> Run(es, st, keys + more) == Run(es, st, keys)
    decreases |keys|
  {
    if st.phase == Searching && keys != [] {
      assert (keys + more)[1..] == keys[1..] + more;
      RunStopsAtEnd(es, Step(es, st, keys[0]), keys[1..], more);
    }
  }

  // ---- Non-interactive resolution of a command fragment ----

  /** The decimal digits `'0'`..`'9'`. */
  predicate IsDigit(c: char)
  {
    '0' <= c <= '9'
  }

  /** Every character of `d` is a decimal digit. */
  predicate AllDigits(d: string)
  {
    forall k :: 0 <= k < |d| ==> IsDigit(d[k])
  }

  /** The value of a string of decimal digits, most significant first. */
  function DecimalValue(d: string): nat
    requires forall k :: 0 <= k < |d| ==> IsDigit(d[k])
  {
    if d == [] then 0
    else
      var c := d[|d| - 1];
      assert IsDigit(c);
      10 * DecimalValue(d[..|d| - 1]) + (c as int - '0' as int)
  }

  /** The largest `u32`. */
  const U32Max: nat := 0xFFFF_FFFF

  /**
   * `str::parse::<u32>`: an optional `+`, then one or more decimal digits
   * whose value fits in 32 bits.
   */
  function ParseU32(s: string): (r: Option<nat>)
    ensures r.Some? ==> r.value <= U32Max
  {
    var digits := if |s| > 0 && s[0] == '+' then s[1..] else s;
    if digits == [] || !AllDigits(digits) then None
    else
      var v := DecimalValue(digits);
      if v <= U32Max then Some(v) else None
  }

  /** The decimal numeral of `n`, as `println!("{}. ->{}", counter, cmd)` prints the counter. */
  function ToDecimal(n: nat): (d: string)
    ensures |d| >= 1
    ensures forall k :: 0 <= k < |d| ==> IsDigit(d[k])
    decreases n
  {
    var last := ['0' + (n % 10) as char];
    if n < 10 then last else ToDecimal(n / 10) + last
  }

  lemma {:induction false} DecimalValueOfNumeral(n: nat)
    ensures DecimalValue(ToDecimal(n)) == n
    decreases n
  {
    var d := ToDecimal(n);
    if n >= 10 {
      DecimalValueOfNumeral(n / 10);
      assert d[..|d| - 1] == ToDecimal(n / 10);
    }
  }

  /** Typing the number printed for a choice parses back to that number. */
  lemma ParseU32Numeral(n: nat)
    requires n <= U32Max
    ensures ParseU32(ToDecimal(n)) == Some(n)
  {
    DecimalValueOfNumeral(n);
  }

  /** Which entry the bare `pxc <fragment>` form runs. */
  datatype Resolution =
    | RunExact(name: string)       // the fragment is an entry name
    | NotFound                     // "Command not found"
    | RunChoice(name: string)      // the chosen (or confirmed) match
    | InvalidOption(text: string)  // "invalid option: ..."
    | Panic                        // `choice_entries.get(i - 1).unwrap()` on None

  /**
   * The `_` arm of `main`: `input` is the trimmed line read from stdin, which
   * is only consulted when the fragment is not an exact name and matches.
   */
  function Resolve(es: seq<MapEntry>, cmd: string, input: string): (r: Resolution)
    ensures r.RunExact? ==> r.name == cmd && HasName(es, cmd)
    ensures r.RunChoice? ==> r.name in FindEntriesContaining(es, cmd)
    ensures r.InvalidOption? ==> r.text == input
    ensures r.Panic? ==> ParseU32(input).Some?
  {
    if CheckEntryExists(cmd, es) then RunExact(cmd)
    else
      var choices := FindEntriesContaining(es, cmd);
      if |choices| == 0 then NotFound
      else
        match ParseU32(input)
        case Some(i) => if 1 <= i <= |choices| then RunChoice(choices[i - 1]) else Panic
        case None => if input == "" && |choices| == 1 then RunChoice(choices[0]) else InvalidOption(input)
  }

  /**
   * Resolution runs only entries of the store: the exact name, or a name
   * that contains the fragment; it reports "not found" exactly when no name
   * contains the fragment and none equals it.
   */
  lemma ResolveSound(es: seq<MapEntry>, cmd: string, input: string)
    ensures Resolve(es, cmd, input).RunExact? <==> HasName(es, cmd)
    ensures Resolve(es, cmd, input).RunChoice? ==>
      HasName(es, Resolve(es, cmd, input).name) && Contains(Resolve(es, cmd, input).name, cmd)
    ensures Resolve(es, cmd, input).NotFound? <==> !HasName(es, cmd) && NoMatch(es, cmd)
  {
    var idx := FindIndices(es, cmd);
    if !HasName(es, cmd) && FindEntriesContaining(es, cmd) == [] {
      assert forall j :: 0 <= j < |es| ==> j !in idx;
    }
    forall k | 0 <= k < |idx| ensures Contains(es[idx[k]].name, cmd) {
      assert idx[k] in idx;
    }
    assert NoMatch(es, cmd) <==> idx == [] by {
      if idx != [] {
        assert Contains(es[idx[0]].name, cmd);
      }
    }
  }

  /**
   * Answering with the number printed in front of the `k`-th listed match
   * (1-based) runs that match; a number outside the list panics.
   */
  lemma ResolveNumbered(es: seq<MapEntry>, cmd: string, k: nat)
    requires !HasName(es, cmd)
    requires FindEntriesContaining(es, cmd) != []
    requires k <= U32Max
    ensures 1 <= k <= |FindEntriesContaining(es, cmd)| ==>
      Resolve(es, cmd, ToDecimal(k)) == RunChoice(FindEntriesContaining(es, cmd)[k - 1])
    ensures (k == 0 || k > |FindEntriesContaining(es, cmd)|) ==> Resolve(es, cmd, ToDecimal(k)) == Panic
  {
    ParseU32Numeral(k);
  }

  /**
   * The answer to the choice prompt, for a fragment that is not an entry
   * name but matches: an empty answer confirms a single match, a number in
   * range runs that match, a number out of range panics, and anything else
   * is an invalid option.
   */
  lemma ResolveAnswer(es: seq<MapEntry>, cmd: string, input: string)
    requires !HasName(es, cmd)
    requires FindEntriesContaining(es, cmd) != []
    ensures
      var m := FindEntriesContaining(es, cmd);
      |m| == 1 ==> Resolve(es, cmd, "") == RunChoice(m[0])
    ensures
      var m := FindEntriesContaining(es, cmd);
      var r := Resolve(es, cmd, input);
      && (r.InvalidOption? <==> ParseU32(input).None? && !(input == "" && |m| == 1))
      && (r.Panic? <==> ParseU32(input).Some? && (ParseU32(input).value == 0 || ParseU32(input).value > |m|))
      && (r.RunChoice? <==> !r.InvalidOption? && !r.Panic?)
      && (ParseU32(input).Some? && 1 <= ParseU32(input).value <= |m| ==> r == RunChoice(m[ParseU32(input).value - 1]))
  {
  }

  // ---- Two worked scenarios: the interactive pick and the numbered choice ----

  /** The matches for `b` over `build`, `buildall`, `b`, shortest first. */
  lemma MatchesScenario()
    ensures
      var es := [MapEntry("build", "default", "0"), MapEntry("buildall", "default", "1"), MapEntry("b", "default", "2")];
      Matches(es, "b") == ["b", "build", "buildall"]
  {
    var es := [MapEntry("build", "default", "0"), MapEntry("buildall", "default", "1"), MapEntry("b", "default", "2")];
    assert "b" <= "build" && "b" <= "buildall" && "b" <= "b";
    assert FindEntriesContaining(es[2..], "b") == ["b"];
    assert FindEntriesContaining(es[1..], "b") == ["buildall", "b"] by {
      assert es[1..][1..] == es[2..];
    }
    assert FindEntriesContaining(es, "b") == ["build", "buildall", "b"];
    ByteLenAscii("b");
    ByteLenAscii("build");
    ByteLenAscii("buildall");
    SortThree("build", "buildall", "b");
  }

  /** Three names of distinct byte lengths come out of the sort shortest first. */
  lemma SortThree(a: string, b: string, c: string)
    requires ByteLen(c) < ByteLen(a) < ByteLen(b)
    ensures SortByLength([a, b, c]) == [c, a, b]
  {
    var bc := SortTwo(b, c);
    assert [a, b, c][1..] == [b, c];
    var ab := Insert(a, [b]);
    assert ab == [a, b];
    assert [c, b][1..] == [b];
    assert Insert(a, [c, b]) == [c] + ab;
  }

  lemma SortTwo(b: string, c: string) returns (r: seq<string>)
    requires ByteLen(c) < ByteLen(b)
    ensures r == SortByLength([b, c]) && r == [c, b]
  {
    assert SortByLength([c]) == [c];
    assert [b, c][1..] == [c];
    r := Insert(b, [c]);
  }

  /** Enter with at least one match ends the loop on the first of the sorted matches. */
  lemma EnterRunsFirst(es: seq<MapEntry>, st: LoopState)
    requires st.phase == Searching
    requires Matches(es, st.searchWord) != []
    ensures Run(es, st, [KeyEnter]).phase == Selected(Matches(es, st.searchWord)[0])
  {
    var done := Step(es, st, KeyEnter);
    assert done.phase == Selected(Matches(es, st.searchWord)[0]);
    assert [KeyEnter][1..] == [];
    assert Run(es, st, [KeyEnter]) == Run(es, done, [KeyEnter][1..]);
  }

  /** One character key appends to the search word and leaves the loop searching. */
  lemma TypeOneKey(es: seq<MapEntry>, key: int)
    requires IsScalarValue(key) && key != KeyEscape && key != KeyBackspace && key != KeyEnter
    ensures Step(es, Initial, key).searchWord == [key as char]
    ensures Step(es, Initial, key).phase == Searching
    ensures Run(es, Initial, [key, KeyEnter]) == Run(es, Step(es, Initial, key), [KeyEnter])
  {
    BackspaceUndoesKey(es, Initial, key);
    var st := Step(es, Initial, key);
    assert Run(es, Initial, [key, KeyEnter]) == Run(es, st, [key, KeyEnter][1..]);
    assert [key, KeyEnter][1..] == [KeyEnter];
  }

  /** Typing one character and pressing enter runs the first of the sorted matches for that character. */
  lemma TypeThenEnter(es: seq<MapEntry>, key: int)
    requires IsScalarValue(key) && key != KeyEscape && key != KeyBackspace && key != KeyEnter
    requires Matches(es, [key as char]) != []
    ensures Run(es, Initial, [key, KeyEnter]).phase == Selected(Matches(es, [key as char])[0])
  {
    TypeOneKey(es, key);
    EnterRunsFirst(es, Step(es, Initial, key));
  }

  /** Typing `b` (key code 98) over `build`, `buildall`, `b` and pressing enter runs `b`. */
  lemma InteractiveScenario()
    ensures
      var es := [MapEntry("build", "default", "0"), MapEntry("buildall", "default", "1"), MapEntry("b", "default", "2")];
      Run(es, Initial, [98, KeyEnter]).phase == Selected("b")
  {
    var es := [MapEntry("build", "default", "0"), MapEntry("buildall", "default", "1"), MapEntry("b", "default", "2")];
    MatchesScenario();
    assert [98 as char] == "b";
    TypeThenEnter(es, 98);
  }

  /** `pxc deploy` over `deploy-dev`, `deploy-prod`: answer `2` runs `deploy-prod`, `abc` is refused. */
  lemma ResolutionScenario()
    ensures
      var es := [MapEntry("deploy-dev", "default", "0"), MapEntry("deploy-prod", "default", "1")];
      && Resolve(es, "deploy", "2") == RunChoice("deploy-prod")
      && Resolve(es, "deploy", "abc") == InvalidOption("abc")
  {
    var es := [MapEntry("deploy-dev", "default", "0"), MapEntry("deploy-prod", "default", "1")];
    assert !CheckEntryExists("deploy", es);
    assert "deploy" <= "deploy-dev" && "deploy" <= "deploy-prod";
    assert FindEntriesContaining(es, "deploy") == ["deploy-dev", "deploy-prod"] by {
      assert FindEntriesContaining(es[1..], "deploy") == ["deploy-prod"];
    }
    assert "2"[..0] == "";
    assert DecimalValue("2") == 2;
    assert ParseU32("2") == Some(2);
    assert !AllDigits("abc") by {
      assert !IsDigit("abc"[0]);
    }
    assert ParseU32("abc") == None;
  }
}
