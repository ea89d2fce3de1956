/**
 * The persisted form of the command map (`map/pxc`): `save_map` writes one
 * line `name;category;filehash` per entry, and `read_map_file` splits each
 * line read with `BufRead::lines` on `;` and takes parts 0, 1 and 2. A line
 * with fewer than three parts makes the source panic; here it makes the
 * whole load `None`.
 */
module Codec {
  import opened Wrappers
  import opened Entries

  /** The field separator of a map line. */
  const FieldSeparator: char := ';'

  /** Number of occurrences of `d` in `s`. */
  function Count(s: string, d: char): (n: nat)
    ensures n <= |s|
    ensures n == 0 <==> d !in s
  {
    if s == [] then 0
    else
      assert s[0] in s;
      assert forall c :: c in s[1..] ==> c in s;
      assert forall c :: c in s && c != s[0] ==> c in s[1..] by {
        forall c | c in s && c != s[0] ensures c in s[1..] {
          var k :| 0 <= k < |s| && s[k] == c;
          assert s[1..][k - 1] == c;
        }
      }
      (if s[0] == d then 1 else 0) + Count(s[1..], d)
  }

  /** Rust's `str::split` with a one-character pattern: `n` separators give `n + 1` parts. */
  function Split(s: string, d: char): (parts: seq<string>)
    ensures |parts| == Count(s, d) + 1
    ensures forall k :: 0 <= k < |parts| ==> d !in parts[k]
  {
    if s == [] then [""]
    else
      var rest := Split(s[1..], d);
      if s[0] == d then [""] + rest
      else
        assert forall k :: 1 <= k < |rest| ==> rest[1..][k - 1] == rest[k];
        [[s[0]] + rest[0]] + rest[1..]
  }

  /** The parts separated by `d`. */
  function Join(parts: seq<string>, d: char): (s: string)
    requires |parts| >= 1
  {
    if |parts| == 1 then parts[0] else parts[0] + [d] + Join(parts[1..], d)
  }

  /** Splitting a string and joining the parts again gives the string back. */
  lemma {:induction false} JoinSplit(s: string, d: char)
    ensures Join(Split(s, d), d) == s
  {
    if s != [] {
      JoinSplit(s[1..], d);
      var rest := Split(s[1..], d);
      if s[0] == d {
        JoinSplitSeparator(s, d, rest);
      } else {
        JoinSplitOther(s, d, rest);
      }
    }
  }

  lemma JoinSplitSeparator(s: string, d: char, rest: seq<string>)
    requires s != [] && s[0] == d
    requires rest == Split(s[1..], d) && Join(rest, d) == s[1..]
    ensures Join(Split(s, d), d) == s
  {
    var parts := [""] + rest;
    assert Split(s, d) == parts;
    assert parts[1..] == rest;
    assert s == [d] + s[1..];
  }

  lemma JoinSplitOther(s: string, d: char, rest: seq<string>)
    requires s != [] && s[0] != d
    requires rest == Split(s[1..], d) && Join(rest, d) == s[1..]
    ensures Join(Split(s, d), d) == s
  {
    assert Split(s, d) == [[s[0]] + rest[0]] + rest[1..];
    JoinConsHead(s[0], rest, d);
    assert s == [s[0]] + s[1..];
  }

  /** Putting a character in front of the first part puts it in front of the join. */
  lemma JoinConsHead(c: char, parts: seq<string>, d: char)
    requires |parts| >= 1
    ensures Join([[c] + parts[0]] + parts[1..], d) == [c] + Join(parts, d)
  {
    var moved := [[c] + parts[0]] + parts[1..];
    if |parts| > 1 {
      assert moved[1..] == parts[1..];
      var j := Join(parts[1..], d);
      calc {
        Join(moved, d);
        ([c] + parts[0]) + [d] + j;
        [c] + (parts[0] + [d] + j);
        [c] + Join(parts, d);
      }
    }
  }

  /** A string cut at its first separator splits into the part before it and the parts of the rest. */
  lemma {:induction false} SplitAtFirst(a: string, d: char, b: string)
    requires d !in a
    ensures Split(a + [d] + b, d) == [a] + Split(b, d)
  {
    if a != [] {
      var w := a + [d] + b;
      assert w[0] == a[0] && w[1..] == a[1..] + [d] + b;
      assert d !in a[1..] by { assert forall c :: c in a[1..] ==> c in a; }
      SplitAtFirst(a[1..], d, b);
      SplitOther(w, d);
      assert [a[0]] + a[1..] == a;
    } else {
      assert (a + [d] + b)[1..] == b;
    }
  }

  /** A string that does not start with the separator extends the first part of its tail. */
  lemma SplitOther(s: string, d: char)
    requires s != [] && s[0] != d
    ensures Split(s, d) == [[s[0]] + Split(s[1..], d)[0]] + Split(s[1..], d)[1..]
  {
  }

  /** A string without the separator is a single part. */
  lemma {:induction false} SplitNone(a: string, d: char)
    requires d !in a
    ensures Split(a, d) == [a]
  {
    if a != [] {
      assert d !in a[1..] by { assert forall c :: c in a[1..] ==> c in a; }
      SplitNone(a[1..], d);
      assert [a[0]] + a[1..] == a;
    }
  }

  /** Joining parts free of `d` and splitting again gives the parts back. */
  lemma {:induction false} SplitJoin(parts: seq<string>, d: char)
    requires |parts| >= 1
    requires forall k :: 0 <= k < |parts| ==> d !in parts[k]
    ensures Split(Join(parts, d), d) == parts
  {
    if |parts| == 1 {
      SplitNone(parts[0], d);
    } else {
      SplitJoin(parts[1..], d);
      SplitAtFirst(parts[0], d, Join(parts[1..], d));
      assert parts == [parts[0]] + parts[1..];
    }
  }

  /** The line `save_map` writes for an entry: `format!("{};{};{}", name, category, filehash)`. */
  function FormatLine(e: MapEntry): (line: string)
    ensures |line| == |e.name| + |e.category| + |e.filehash| + 2
    ensures line[|e.name|] == FieldSeparator && line[|e.name| + 1 + |e.category|] == FieldSeparator
  {
    e.name + ";" + e.category + ";" + e.filehash
  }

  /** The parse of one line in `read_map_file`; `None` where `parts[1]` or `parts[2]` would panic. */
  function ParseLine(line: string): (r: Option<MapEntry>)
    ensures r.Some? <==> Count(line, FieldSeparator) >= 2
    ensures r.Some? ==> FieldSeparator !in r.value.name && FieldSeparator !in r.value.category
    ensures r.Some? ==> FieldSeparator !in r.value.filehash
  {
    var parts := Split(line, FieldSeparator);
    if |parts| < 3 then None
    else Some(MapEntry(parts[0], parts[1], parts[2]))
  }

  /** No field of `e` contains `c`. */
  ghost predicate FieldsAvoid(e: MapEntry, c: char)
  {
    c !in e.name && c !in e.category && c !in e.filehash
  }

  /** A line written for an entry whose fields hold no `;` parses back to that entry. */
  lemma LineRoundTrip(e: MapEntry)
    requires FieldsAvoid(e, FieldSeparator)
    ensures ParseLine(FormatLine(e)) == Some(e)
  {
    var parts := [e.name, e.category, e.filehash];
    assert Join(parts, FieldSeparator) == FormatLine(e) by {
      assert Join(parts[1..], FieldSeparator) == e.category + ";" + e.filehash;
    }
    SplitJoin(parts, FieldSeparator);
  }

  /** A line with exactly two separators is what `save_map` writes for the entry it parses to. */
  lemma LineFormatParse(line: string)
    requires Count(line, FieldSeparator) == 2
    ensures ParseLine(line).Some? && FormatLine(ParseLine(line).value) == line
  {
    var parts := Split(line, FieldSeparator);
    JoinSplit(line, FieldSeparator);
    JoinThree(parts, FieldSeparator);
  }

  lemma JoinThree(parts: seq<string>, d: char)
    requires |parts| == 3
    ensures Join(parts, d) == parts[0] + [d] + parts[1] + [d] + parts[2]
  {
    var tail := parts[1..];
    assert tail[1..] == parts[2..];
    assert Join(tail, d) == parts[1] + [d] + parts[2];
  }

  /** `line` minus one trailing carriage return. */
  function StripCr(line: string): (r: string)
    ensures r <= line
    ensures |line| > 0 && line[|line| - 1] == '\r' ==> |r| == |line| - 1
  {
    if |line| > 0 && line[|line| - 1] == '\r' then line[..|line| - 1] else line
  }

  /**
   * `BufRead::lines`: the text is cut at each `\n`; a line ended by `\n` loses
   * a `\r` just before it; a last, unterminated piece is a line only when it
   * is not empty.
   */
  function Lines(text: string): (ls: seq<string>)
    ensures |ls| <= Count(text, '\n') + 1
    ensures forall i :: 0 <= i < |ls| ==> '\n' !in ls[i]
  {
    var segs := Split(text, '\n');
    var ls := LinesOfSegments(segs);
    forall i | 0 <= i < |ls| ensures '\n' !in ls[i] {
      assert forall c :: c in ls[i] ==> c in segs[i];
    }
    ls
  }

  /** The lines made from the pieces between `\n`s; the last piece was not ended by one. */
  function LinesOfSegments(segs: seq<string>): (ls: seq<string>)
    requires |segs| >= 1
    ensures |ls| <= |segs|
    ensures forall i :: 0 <= i < |ls| ==> ls[i] <= segs[i]
  {
    var last := segs[|segs| - 1];
    var ended := seq(|segs| - 1, i requires 0 <= i < |segs| - 1 => StripCr(segs[i]));
    if last == [] then ended else ended + [last]
  }

  /** `save_map`: every entry's line followed by a newline, in store order. */
  function SerializeMap(es: seq<MapEntry>): (s: string)
    ensures s == [] <==> es == []
    ensures es != [] ==> s[|s| - 1] == '\n'
  {
    if es == [] then "" else FormatLine(es[0]) + "\n" + SerializeMap(es[1..])
  }

  /** The lines `save_map` writes, in store order. */
  function FormatLines(es: seq<MapEntry>): (ls: seq<string>)
    ensures |ls| == |es|
    ensures forall i :: 0 <= i < |es| ==> ls[i] == FormatLine(es[i])
  {
    seq(|es|, i requires 0 <= i < |es| => FormatLine(es[i]))
  }

  /** Every line of `ls` has at least three `;`-separated parts. */
  ghost predicate AllParse(ls: seq<string>)
  {
    forall i :: 0 <= i < |ls| ==> Count(ls[i], FieldSeparator) >= 2
  }

  /** Parses every line; one malformed line fails the whole load. */
  function ParseLines(ls: seq<string>): (r: Option<seq<MapEntry>>)
    ensures r.Some? <==> AllParse(ls)
    ensures r.Some? ==> |r.value| == |ls|
    ensures r.Some? ==> forall i :: 0 <= i < |ls| ==> ParseLine(ls[i]) == Some(r.value[i])
  {
    if ls == [] then Some([])
    else
      var rest := ParseLines(ls[1..]);
      assert AllParse(ls) <==> Count(ls[0], FieldSeparator) >= 2 && AllParse(ls[1..]) by {
        assert forall i :: 1 <= i < |ls| ==> ls[1..][i - 1] == ls[i];
      }
      match ParseLine(ls[0])
      case None => None
      case Some(e) =>
        match rest
        case None => None
        case Some(es) => Some([e] + es)
  }

  /** The entries `read_map_file` builds from the file text; `None` stands for its panic. */
  function ParseMap(text: string): (r: Option<seq<MapEntry>>)
    ensures r.Some? <==> AllParse(Lines(text))
    ensures r.Some? ==> |r.value| == |Lines(text)|
  {
    ParseLines(Lines(text))
  }

  /** `read_map_file`: an unreadable file gives the empty map, a readable one is parsed. */
  function LoadMap(file: Option<string>): (r: Option<seq<MapEntry>>)
    ensures file.None? ==> r == Some([])
    ensures file.Some? ==> (r.Some? <==> AllParse(Lines(file.value)))
  {
    match file
    case None => Some([])
    case Some(text) => ParseMap(text)
  }

  lemma {:induction false} SerializeAsJoin(es: seq<MapEntry>)
    ensures SerializeMap(es) == Join(FormatLines(es) + [""], '\n')
  {
    if es != [] {
      SerializeAsJoin(es[1..]);
      var ls := FormatLines(es) + [""];
      assert ls[1..] == FormatLines(es[1..]) + [""];
    }
  }

  /** No field of any entry contains a separator or a line-ending character. */
  ghost predicate Storable(es: seq<MapEntry>)
  {
    forall i :: 0 <= i < |es| ==>
      FieldsAvoid(es[i], FieldSeparator) && FieldsAvoid(es[i], '\n') && FieldsAvoid(es[i], '\r')
  }

  /** A character other than `;` that no field holds does not occur in the written line. */
  lemma FormatLineAvoids(e: MapEntry, c: char)
    requires FieldsAvoid(e, c) && c != FieldSeparator
    ensures c !in FormatLine(e)
  {
  }

  /** Lines free of line endings, each followed by `\n`, read back as themselves. */
  lemma LinesOfTerminated(ls: seq<string>)
    requires forall i :: 0 <= i < |ls| ==> '\n' !in ls[i] && '\r' !in ls[i]
    ensures Lines(Join(ls + [""], '\n')) == ls
  {
    SplitJoin(ls + [""], '\n');
    SegmentsOfTerminated(ls);
  }

  lemma SegmentsOfTerminated(ls: seq<string>)
    requires forall i :: 0 <= i < |ls| ==> '\r' !in ls[i]
    ensures LinesOfSegments(ls + [""]) == ls
  {
    var segs := ls + [""];
    forall i | 0 <= i < |ls| ensures StripCr(segs[i]) == ls[i] {
      assert segs[i] == ls[i];
      if |ls[i]| > 0 {
        assert ls[i][|ls[i]| - 1] in ls[i];
      }
    }
    assert segs[|segs| - 1] == "";
  }

  /** The lines of a saved file are the formatted entries. */
  lemma SavedLines(es: seq<MapEntry>)
    requires Storable(es)
    ensures Lines(SerializeMap(es)) == FormatLines(es)
  {
    var ls := FormatLines(es);
    forall i | 0 <= i < |ls| ensures '\n' !in ls[i] && '\r' !in ls[i] {
      FormatLineAvoids(es[i], '\n');
      FormatLineAvoids(es[i], '\r');
    }
    SerializeAsJoin(es);
    LinesOfTerminated(ls);
  }

  /** The formatted lines of storable entries parse back to those entries. */
  lemma ParseFormatted(es: seq<MapEntry>)
    requires Storable(es)
    ensures ParseLines(FormatLines(es)) == Some(es)
  {
    var ls := FormatLines(es);
    forall i | 0 <= i < |es| ensures ParseLine(ls[i]) == Some(es[i]) {
      LineRoundTrip(es[i]);
    }
    var r := ParseLines(ls);
    assert r.Some? by {
      forall i | 0 <= i < |ls| ensures Count(ls[i], FieldSeparator) >= 2 {
        assert ParseLine(ls[i]).Some?;
      }
    }
    assert r.value == es;
  }

  /** Reading back what `save_map` wrote yields the same entries in the same order. */
  lemma SaveLoadRoundTrip(es: seq<MapEntry>)
    requires Storable(es)
    ensures LoadMap(Some(SerializeMap(es))) == Some(es)
  {
    SavedLines(es);
    ParseFormatted(es);
  }
}
