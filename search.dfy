/**
 * The search index: `find_entries_containing` (a case-sensitive substring
 * filter over entry names, in store order) and the stable sort by length
 * that the interactive loop applies to its results.
 */
module Search {
  import opened Entries

  /** `q` occurs in `s` starting at position `i`. */
  ghost predicate OccursAt(s: string, q: string, i: int)
  {
    0 <= i && i + |q| <= |s| && s[i..i + |q|] == q
  }

  lemma SliceOfTail(s: string, i: nat, n: nat)
    requires 1 <= |s| && i + n <= |s| - 1
    ensures s[1..][i..i + n] == s[i + 1..i + 1 + n]
  {
    var t := s[1..][i..i + n];
    assert forall k :: 0 <= k < n ==> t[k] == s[i + 1 + k];
  }

  /** Rust's `str::contains` with a string pattern, decided by trying every start position. */
  function Contains(s: string, q: string): (b: bool)
    ensures b <==> exists i :: OccursAt(s, q, i)
  {
    if q <= s then
      assert OccursAt(s, q, 0);
      true
    else if |s| == 0 then
      assert forall i :: !OccursAt(s, q, i);
      false
    else
      var rest := Contains(s[1..], q);
      forall i ensures OccursAt(s, q, i + 1) <==> OccursAt(s[1..], q, i) {
        if 0 <= i && i + |q| <= |s[1..]| {
          SliceOfTail(s, i, |q|);
        }
      }
      assert !OccursAt(s, q, 0);
      assert (exists i :: OccursAt(s, q, i)) ==> exists i :: OccursAt(s[1..], q, i) by {
        if exists i :: OccursAt(s, q, i) {
          var i :| OccursAt(s, q, i);
          assert OccursAt(s[1..], q, i - 1);
        }
      }
      rest
  }

  /** The names of the entries, in store order. */
  function Names(es: seq<MapEntry>): (r: seq<string>)
    ensures |r| == |es|
    ensures forall i :: 0 <= i < |es| ==> r[i] == es[i].name
  {
    seq(|es|, i requires 0 <= i < |es| => es[i].name)
  }

  /** `find_entries_containing`: the names that contain `q`, in store order. */
  function FindEntriesContaining(es: seq<MapEntry>, q: string): (r: seq<string>)
    ensures |r| <= |es|
    ensures forall k :: 0 <= k < |r| ==> Contains(r[k], q) && HasName(es, r[k])
  {
    if es == [] then []
    else
      var rest := FindEntriesContaining(es[1..], q);
      assert forall k :: 0 <= k < |rest| ==> HasName(es, rest[k]) by {
        forall k | 0 <= k < |rest| ensures HasName(es, rest[k]) {
          var i :| 0 <= i < |es[1..]| && es[1..][i].name == rest[k];
          assert es[i + 1].name == rest[k];
        }
      }
      if Contains(es[0].name, q) then
        assert HasName(es, es[0].name) by { assert es[0].name == es[0].name; }
        [es[0].name] + rest
      else rest
  }

  /** `idx` lists, in increasing order, exactly the positions of `es` whose name contains `q`. */
  ghost predicate Enumerates(es: seq<MapEntry>, q: string, idx: seq<nat>)
  {
    && (forall k :: 0 <= k < |idx| ==> idx[k] < |es|)
    && (forall k, l :: 0 <= k < l < |idx| ==> idx[k] < idx[l])
    && (forall i :: 0 <= i < |es| ==> (i in idx <==> Contains(es[i].name, q)))
  }

  /** `r` holds the names at the positions `idx`, in that order. */
  ghost predicate NamesAt(es: seq<MapEntry>, idx: seq<nat>, r: seq<string>)
  {
    |idx| == |r| && forall k :: 0 <= k < |idx| ==> idx[k] < |es| && r[k] == es[idx[k]].name
  }

  /** The positions matching in `es`, given those matching in `es[1..]`. */
  function ConsPositions(es: seq<MapEntry>, q: string, tail: seq<nat>): seq<nat>
    requires es != []
  {
    if Contains(es[0].name, q) then [0] + Shift(tail) else Shift(tail)
  }

  lemma ConsEnumerates(es: seq<MapEntry>, q: string, tail: seq<nat>)
    requires es != [] && Enumerates(es[1..], q, tail)
    ensures Enumerates(es, q, ConsPositions(es, q, tail))
  {
    var shifted := Shift(tail);
    var idx := ConsPositions(es, q, tail);
    forall i | 1 <= i < |es| ensures i in shifted <==> Contains(es[i].name, q) {
      ShiftMember(tail, i);
      assert es[1..][i - 1] == es[i];
    }
    ShiftMember(tail, 1);
    forall i | 0 <= i < |es| ensures i in idx <==> Contains(es[i].name, q) {
      if i == 0 {
        assert 0 !in shifted;
      } else {
        assert i in idx <==> i in shifted;
      }
    }
  }

  lemma ConsNamesAt(es: seq<MapEntry>, q: string, tail: seq<nat>)
    requires es != [] && NamesAt(es[1..], tail, FindEntriesContaining(es[1..], q))
    ensures NamesAt(es, ConsPositions(es, q, tail), FindEntriesContaining(es, q))
  {
    var rest := FindEntriesContaining(es[1..], q);
    ShiftNamesAt(es, tail, rest);
    if Contains(es[0].name, q) {
      assert FindEntriesContaining(es, q) == [es[0].name] + rest;
      PrependNamesAt(es, Shift(tail), rest);
    } else {
      assert FindEntriesContaining(es, q) == rest;
    }
  }

  /** Positions in the tail, shifted by one, are positions in the whole store. */
  lemma ShiftNamesAt(es: seq<MapEntry>, tail: seq<nat>, r: seq<string>)
    requires es != [] && NamesAt(es[1..], tail, r)
    ensures NamesAt(es, Shift(tail), r)
  {
    forall k | 0 <= k < |tail| ensures Shift(tail)[k] < |es| && r[k] == es[Shift(tail)[k]].name {
      assert es[1..][tail[k]] == es[tail[k] + 1];
    }
  }

  /** Position 0 names the head entry. */
  lemma PrependNamesAt(es: seq<MapEntry>, idx: seq<nat>, r: seq<string>)
    requires es != [] && NamesAt(es, idx, r)
    ensures NamesAt(es, [0] + idx, [es[0].name] + r)
  {
    forall k | 0 < k <= |idx| ensures ([0] + idx)[k] == idx[k - 1] && ([es[0].name] + r)[k] == r[k - 1] {
    }
  }

  /**
   * The filter keeps exactly the entries whose name contains `q`, in store
   * order: there is a strictly increasing list of store positions whose
   * names are the result, and a position is on it iff its name matches.
   */
  lemma {:induction false} FindIndices(es: seq<MapEntry>, q: string) returns (idx: seq<nat>)
    ensures NamesAt(es, idx, FindEntriesContaining(es, q))
    ensures Enumerates(es, q, idx)
  {
    if es == [] {
      idx := [];
    } else {
      var tail := FindIndices(es[1..], q);
      ConsEnumerates(es, q, tail);
      ConsNamesAt(es, q, tail);
      idx := ConsPositions(es, q, tail);
    }
  }

  /** Every index moved one place to the right. */
  function Shift(idx: seq<nat>): (r: seq<nat>)
    ensures |r| == |idx|
    ensures forall k :: 0 <= k < |idx| ==> r[k] == idx[k] + 1
  {
    seq(|idx|, k requires 0 <= k < |idx| => idx[k] + 1)
  }

  lemma ShiftMember(idx: seq<nat>, i: nat)
    requires i >= 1
    ensures i in Shift(idx) <==> i - 1 in idx
    ensures 0 !in Shift(idx)
  {
    var r := Shift(idx);
    if i in r {
      var k :| 0 <= k < |r| && r[k] == i;
      assert idx[k] == i - 1;
    }
    if i - 1 in idx {
      var k :| 0 <= k < |idx| && idx[k] == i - 1;
      assert r[k] == i;
    }
  }

  /** The empty query matches every entry: the result is the list of all names. */
  lemma {:induction false} FindEmptyQuery(es: seq<MapEntry>)
    ensures FindEntriesContaining(es, "") == Names(es)
  {
    if es != [] {
      FindEmptyQuery(es[1..]);
      assert Names(es) == [es[0].name] + Names(es[1..]);
    }
  }

  /** Bytes taken by `c` in UTF-8. */
  function Utf8Width(c: char): (w: nat)
    ensures 1 <= w <= 4
  {
    if c as int < 0x80 then 1
    else if c as int < 0x800 then 2
    else if c as int < 0x1_0000 then 3
    else 4
  }

  /** Rust's `String::len`: the length of the string in UTF-8 bytes. */
  function ByteLen(s: string): (n: nat)
    ensures |s| <= n <= 4 * |s|
  {
    if s == [] then 0 else Utf8Width(s[0]) + ByteLen(s[1..])
  }

  /** An ASCII string is as long in bytes as in characters. */
  lemma {:induction false} ByteLenAscii(s: string)
    requires forall i :: 0 <= i < |s| ==> s[i] as int < 0x80
    ensures ByteLen(s) == |s|
  {
    if s != [] {
      ByteLenAscii(s[1..]);
    }
  }

  /** Inserts `x` before the first element that is at least as long: the step of a stable insertion sort. */
  function Insert(x: string, t: seq<string>): (r: seq<string>)
    ensures |r| == |t| + 1
    ensures multiset(r) == multiset(t) + multiset{x}
    ensures forall y :: y in r ==> y == x || y in t
  {
    if t == [] || ByteLen(x) <= ByteLen(t[0]) then [x] + t
    else
      assert t == [t[0]] + t[1..];
      [t[0]] + Insert(x, t[1..])
  }

  /** `v.sort_by(|a, b| a.len().cmp(&b.len()))`: a stable sort by byte length. */
  function SortByLength(s: seq<string>): (r: seq<string>)
    ensures |r| == |s|
    ensures multiset(r) == multiset(s)
  {
    if s == [] then []
    else
      assert s == [s[0]] + s[1..];
      Insert(s[0], SortByLength(s[1..]))
  }

  ghost predicate SortedByLength(s: seq<string>)
  {
    forall i, j :: 0 <= i < j < |s| ==> ByteLen(s[i]) <= ByteLen(s[j])
  }

  /** The elements of `s` that are `k` bytes long, in order. */
  function OfLength(s: seq<string>, k: nat): (r: seq<string>)
    ensures |r| <= |s|
  {
    if s == [] then []
    else if ByteLen(s[0]) == k then [s[0]] + OfLength(s[1..], k)
    else OfLength(s[1..], k)
  }

  lemma {:induction false} InsertSorted(x: string, t: seq<string>)
    requires SortedByLength(t)
    ensures SortedByLength(Insert(x, t))
  {
    if t != [] && ByteLen(x) > ByteLen(t[0]) {
      InsertSorted(x, t[1..]);
      var r := Insert(x, t[1..]);
      assert forall j :: 0 <= j < |t[1..]| ==> t[1..][j] == t[j + 1];
      InsertBound(ByteLen(t[0]), x, t[1..]);
      PrependSorted(t[0], r);
      assert Insert(x, t) == [t[0]] + r;
    }
  }

  /** A lower bound on the lengths of `x` and `u` bounds the lengths after inserting. */
  lemma InsertBound(b: nat, x: string, u: seq<string>)
    requires b <= ByteLen(x) && forall j :: 0 <= j < |u| ==> b <= ByteLen(u[j])
    ensures forall j :: 0 <= j < |Insert(x, u)| ==> b <= ByteLen(Insert(x, u)[j])
  {
    var r := Insert(x, u);
    forall j | 0 <= j < |r| ensures b <= ByteLen(r[j]) {
      assert r[j] in r;
      if r[j] != x {
        var m :| 0 <= m < |u| && u[m] == r[j];
      }
    }
  }

  /** A string no longer than any element of a sorted list can go in front of it. */
  lemma PrependSorted(y: string, r: seq<string>)
    requires SortedByLength(r)
    requires forall j :: 0 <= j < |r| ==> ByteLen(y) <= ByteLen(r[j])
    ensures SortedByLength([y] + r)
  {
    forall i, j | 0 <= i < j < |r| + 1 ensures ByteLen(([y] + r)[i]) <= ByteLen(([y] + r)[j]) {
      assert ([y] + r)[j] == r[j - 1];
      if i > 0 {
        assert ([y] + r)[i] == r[i - 1];
      }
    }
  }

  lemma {:induction false} InsertOfLength(x: string, t: seq<string>, k: nat)
    ensures OfLength(Insert(x, t), k) == if ByteLen(x) == k then [x] + OfLength(t, k) else OfLength(t, k)
  {
    if t != [] && ByteLen(x) > ByteLen(t[0]) {
      InsertOfLength(x, t[1..], k);
      assert Insert(x, t) == [t[0]] + Insert(x, t[1..]);
      assert t == [t[0]] + t[1..];
    } else if t == [] {
      assert Insert(x, t) == [x];
    } else {
      assert Insert(x, t) == [x] + t;
      assert ([x] + t)[1..] == t;
    }
  }

  /** The sort orders by byte length. */
  lemma {:induction false} SortByLengthSorted(s: seq<string>)
    ensures SortedByLength(SortByLength(s))
  {
    if s != [] {
      SortByLengthSorted(s[1..]);
      InsertSorted(s[0], SortByLength(s[1..]));
    }
  }

  /** The sort is stable: strings of any one length keep their relative order. */
  lemma {:induction false} SortByLengthStable(s: seq<string>, k: nat)
    ensures OfLength(SortByLength(s), k) == OfLength(s, k)
  {
    if s != [] {
      SortByLengthStable(s[1..], k);
      InsertOfLength(s[0], SortByLength(s[1..]), k);
    }
  }

  /** The position of the first string of least byte length. */
  function FirstShortest(s: seq<string>): (p: nat)
    requires s != []
    ensures p < |s|
    ensures forall j :: 0 <= j < |s| ==> ByteLen(s[p]) <= ByteLen(s[j])
    ensures forall j :: 0 <= j < p ==> ByteLen(s[j]) > ByteLen(s[p])
  {
    if |s| == 1 then 0
    else
      var k := FirstShortest(s[1..]) + 1;
      assert forall j :: 1 <= j < |s| ==> s[j] == s[1..][j - 1];
      if ByteLen(s[0]) <= ByteLen(s[k]) then 0 else k
  }

  /** After the stable sort, the first element is the first shortest one of the input. */
  lemma {:induction false} SortByLengthHead(s: seq<string>)
    requires s != []
    ensures SortByLength(s)[0] == s[FirstShortest(s)]
  {
    if |s| > 1 {
      SortByLengthHead(s[1..]);
      var t := SortByLength(s[1..]);
      var k := FirstShortest(s[1..]) + 1;
      assert t[0] == s[k];
      assert SortByLength(s) == Insert(s[0], t);
      assert FirstShortest(s) == if ByteLen(s[0]) <= ByteLen(s[k]) then 0 else k;
    }
  }
}
