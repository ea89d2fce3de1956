/**
 * Filehash allocation: `gen_char_sequence` draws eight symbols from
 * `ABCDEF0123456789`, and the retry loop of the `add` command draws again
 * while `check_sequence_exists` reports a collision with the store.
 * The random draws are inputs of the model.
 */
module Identifiers {
  import opened Wrappers
  import opened Entries

  /** `CHARSET` of `gen_char_sequence`. */
  const Charset: string := "ABCDEF0123456789"

  /** Number of symbols in a filehash. */
  const IdLength: nat := 8

  /** A symbol of `Charset`. */
  predicate IsSymbol(c: char)
  {
    c in Charset
  }

  /** A string `gen_char_sequence` can return: eight symbols of `Charset`. */
  predicate IsIdentifier(s: string)
  {
    |s| == IdLength && forall i :: 0 <= i < |s| ==> IsSymbol(s[i])
  }

  /** Eight results of `gen_range(0, CHARSET.len())`. */
  predicate ValidDraws(d: seq<nat>)
  {
    |d| == IdLength && forall i :: 0 <= i < |d| ==> d[i] < |Charset|
  }

  /** `gen_char_sequence` for the given random draws. */
  function GenCharSequence(d: seq<nat>): (s: string)
    requires ValidDraws(d)
    ensures IsIdentifier(s)
  {
    seq(IdLength, i requires 0 <= i < IdLength => Charset[d[i]])
  }

  /** The position of `c` in `s`. */
  function IndexIn(c: char, s: string): (k: nat)
    requires c in s
    ensures k < |s| && s[k] == c
  {
    if s[0] == c then 0 else 1 + IndexIn(c, s[1..])
  }

  /** The draws that produce `s`: the inverse of `GenCharSequence`. */
  function DrawsOf(s: string): (d: seq<nat>)
    requires IsIdentifier(s)
    ensures ValidDraws(d)
  {
    seq(IdLength, i requires 0 <= i < IdLength => IndexIn(s[i], Charset))
  }

  /** The symbols of `Charset` are pairwise distinct. */
  lemma CharsetDistinct()
    ensures forall i, j :: 0 <= i < j < |Charset| ==> Charset[i] != Charset[j]
  {
  }

  /** Every identifier is produced by exactly one draw vector: generation and `DrawsOf` are inverse. */
  lemma GenerationBijective(s: string, d: seq<nat>)
    requires IsIdentifier(s) && ValidDraws(d)
    ensures GenCharSequence(DrawsOf(s)) == s
    ensures DrawsOf(GenCharSequence(d)) == d
  {
    CharsetDistinct();
    var g := GenCharSequence(d);
    forall i | 0 <= i < IdLength ensures IndexIn(g[i], Charset) == d[i] {
      var k := IndexIn(g[i], Charset);
      assert Charset[k] == Charset[d[i]];
    }
  }

  /** Some entry already uses `s` as its filehash. */
  ghost predicate InUse(s: string, es: seq<MapEntry>)
  {
    exists i :: 0 <= i < |es| && es[i].filehash == s
  }

  /** `check_sequence_exists`: scans the entries and returns at the first equal filehash. */
  method CheckSequenceExists(sequence: string, entries: seq<MapEntry>) returns (b: bool)
    ensures b <==> InUse(sequence, entries)
  {
    for i := 0 to |entries|
      invariant forall j :: 0 <= j < i ==> entries[j].filehash != sequence
    {
      if sequence == entries[i].filehash {
        return true;
      }
    }
    return false;
  }

  /** The candidates generated from the first `n` draw vectors are all in use. */
  ghost predicate AllInUse(entries: seq<MapEntry>, draws: seq<seq<nat>>, n: int)
    requires forall k :: 0 <= k < |draws| ==> ValidDraws(draws[k])
    requires n <= |draws|
  {
    forall j :: 0 <= j < n ==> InUse(GenCharSequence(draws[j]), entries)
  }

  lemma AllInUseExtend(entries: seq<MapEntry>, draws: seq<seq<nat>>, n: nat)
    requires forall k :: 0 <= k < |draws| ==> ValidDraws(draws[k])
    requires n < |draws|
    requires AllInUse(entries, draws, n) && InUse(GenCharSequence(draws[n]), entries)
    ensures AllInUse(entries, draws, n + 1)
  {
  }

  /** `s` is candidate number `used`, and every candidate drawn before it is in use. */
  ghost predicate FirstFree(entries: seq<MapEntry>, draws: seq<seq<nat>>, used: nat, s: string)
    requires forall k :: 0 <= k < |draws| ==> ValidDraws(draws[k])
  {
    && 1 <= used <= |draws|
    && s == GenCharSequence(draws[used - 1])
    && AllInUse(entries, draws, used - 1)
    && !InUse(s, entries)
  }

  /**
   * The retry loop of the `add` command: generate from `draws[0]`, and draw
   * again while the candidate is in use. `used` counts the candidates drawn.
   * The source retries without bound; here the supply of draws is finite, and
   * running out of it yields `None`.
   */
  method AllocateFilehash(entries: seq<MapEntry>, draws: seq<seq<nat>>) returns (r: Option<string>, used: nat)
    requires forall k :: 0 <= k < |draws| ==> ValidDraws(draws[k])
    ensures used <= |draws|
    ensures r.Some? ==> FirstFree(entries, draws, used, r.value) && IsIdentifier(r.value)
    ensures r.None? ==> used == |draws| && AllInUse(entries, draws, |draws|)
  {
    if |draws| == 0 {
      return None, 0;
    }
    var charSequence := GenCharSequence(draws[0]);
    used := 1;
    var taken := CheckSequenceExists(charSequence, entries);
    while taken
      invariant 1 <= used <= |draws|
      invariant charSequence == GenCharSequence(draws[used - 1])
      invariant taken <==> InUse(charSequence, entries)
      invariant AllInUse(entries, draws, used - 1)
      decreases |draws| - used
    {
      AllInUseExtend(entries, draws, used - 1);
      if used == |draws| {
        return None, used;
      }
      charSequence := GenCharSequence(draws[used]);
      used := used + 1;
      taken := CheckSequenceExists(charSequence, entries);
    }
    r := Some(charSequence);
  }

  /** Appending an entry whose filehash is not in use keeps the filehashes pairwise distinct. */
  lemma FreshKeepsFilehashesUnique(es: seq<MapEntry>, e: MapEntry)
    requires UniqueFilehashes(es)
    requires !InUse(e.filehash, es)
    ensures UniqueFilehashes(es + [e])
  {
    var r := es + [e];
    forall i, j | 0 <= i < j < |r| ensures r[i].filehash != r[j].filehash {
      if j == |es| {
        assert r[i] == es[i];
      }
    }
  }
}
