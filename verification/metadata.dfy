/**
  The PO header: the ordered `LocalizationMetadata` mapping, the defaults the
  generator fills in, and the header unit built from it.

  The mapping is an association list in insertion order. Its `Add` is
  modelled as an append; `ContainsKey` and the indexer as `HasKey` and the
  first-match `Lookup`.
 */
module Metadata {
  import opened Options
  import opened PoDocument

  type HeaderPair = (string, string)

  type HeaderMap = seq<HeaderPair>

  predicate HasKey(m: HeaderMap, k: string) {
    exists i | 0 <= i < |m| :: m[i].0 == k
  }

  /** The value stored under `k`, the first one if `k` was added twice. */
  function Lookup(m: HeaderMap, k: string): Option<string> {
    if |m| == 0 then None
    else if m[0].0 == k then Some(m[0].1)
    else Lookup(m[1..], k)
  }

  ghost predicate DistinctKeys(m: HeaderMap) {
    forall i, j :: 0 <= i < j < |m| ==> m[i].0 != m[j].0
  }

  const GeneratorKey := "X-Generator"

  const GeneratorName := "Vernacular"

  /** The well-known headers and their defaults, in the order they are
      considered. `timestamp` is the formatted current time
      (`yyyy-MM-dd HH:mmzz`, invariant culture). */
  function Defaults(timestamp: string): HeaderMap {
    [ ("Project-Id-Version", "PACKAGE VERSION"),
      ("PO-Revision-Date", timestamp),
      ("Last-Translator", ""),
      ("Language-Team", ""),
      ("MIME-Version", "1.0"),
      ("Content-Type", "text/plain; charset=UTF-8"),
      ("Content-Transfer-Encoding", "8bit"),
      ("Plural-Forms", "nplurals=2; plural=(n != 1);") ]
  }

  /** Adds a header only when its key is not present yet. */
  function AddIfAbsent(m: HeaderMap, h: HeaderPair): HeaderMap {
    if HasKey(m, h.0) then m else m + [h]
  }

  /** The sequence of guarded `Add`s, one per default, in table order. */
  function FillDefaults(m: HeaderMap, defaults: HeaderMap): HeaderMap
    decreases |defaults|
  {
    if |defaults| == 0 then m
    else FillDefaults(AddIfAbsent(m, defaults[0]), defaults[1..])
  }

  /** The defaults whose key the caller did not supply, in table order. */
  function Missing(m: HeaderMap, defaults: HeaderMap): HeaderMap {
    if |defaults| == 0 then []
    else (if HasKey(m, defaults[0].0) then [] else [defaults[0]]) + Missing(m, defaults[1..])
  }

  /** Only defaults are reported missing, and only those whose key the
      caller did not supply. */
  lemma {:induction false} MissingElements(m: HeaderMap, defaults: HeaderMap)
    ensures forall h :: h in Missing(m, defaults) ==> h in defaults && !HasKey(m, h.0)
  {
    if |defaults| > 0 {
      MissingElements(m, defaults[1..]);
    }
  }

  /** A missing mapping is treated as an empty one; each well-known header
      absent from it gets its default, then `X-Generator` is added last. */
  function GenerateMetadata(metadata: Option<HeaderMap>, timestamp: string): (r: HeaderMap)
    ensures var m, d := metadata.GetOr([]), Defaults(timestamp);
      && |r| > |m|
      && r[..|m|] == m
      && (forall k :: HasKey(m, k) ==> Lookup(r, k) == Lookup(m, k))
      && (forall i :: 0 <= i < |d| ==> HasKey(r, d[i].0))
      && (forall i :: 0 <= i < |d| && !HasKey(m, d[i].0) ==> Lookup(r, d[i].0) == Some(d[i].1))
      && r[|r| - 1] == (GeneratorKey, GeneratorName)
  {
    var m, d := metadata.GetOr([]), Defaults(timestamp);
    var tail := [(GeneratorKey, GeneratorName)];
    DefaultKeysDistinct(timestamp);
    FillDefaultsAppendsMissing(m, d);
    CallerValuesKept(m, Missing(m, d) + tail);
    DefaultsPresent(m, d, tail);
    assert FillDefaults(m, d) + tail == m + (Missing(m, d) + tail);
    FillDefaults(m, d) + tail
  }

  /** Headers appended after `m` do not change what `m` already defines. */
  lemma CallerValuesKept(m: HeaderMap, tail: HeaderMap)
    ensures forall k :: HasKey(m, k) ==> Lookup(m + tail, k) == Lookup(m, k)
  {
    forall k | HasKey(m, k) ensures Lookup(m + tail, k) == Lookup(m, k) {
      LookupAppend(m, tail, k);
    }
  }

  /** After the missing defaults are appended, every key of the table is
      present, and a key the caller lacked maps to its default. */
  lemma DefaultsPresent(m: HeaderMap, d: HeaderMap, tail: HeaderMap)
    requires DistinctKeys(d)
    ensures var r := m + (Missing(m, d) + tail);
      forall i :: 0 <= i < |d| ==>
        && HasKey(r, d[i].0)
        && (!HasKey(m, d[i].0) ==> Lookup(r, d[i].0) == Some(d[i].1))
  {
    var r := m + (Missing(m, d) + tail);
    forall i | 0 <= i < |d| ensures HasKey(r, d[i].0) && (!HasKey(m, d[i].0) ==> Lookup(r, d[i].0) == Some(d[i].1))
    {
      if !HasKey(m, d[i].0) {
        MissingLookup(m, d, i);
        LookupHasKey(Missing(m, d), d[i].0);
        LookupAppend(m, Missing(m, d) + tail, d[i].0);
        LookupAppend(Missing(m, d), tail, d[i].0);
        LookupHasKey(r, d[i].0);
      } else {
        var j :| 0 <= j < |m| && m[j].0 == d[i].0;
        assert r[j] == m[j];
      }
    }
  }

  /** The indexer returns the value of the first header added under `k`. */
  lemma {:induction false} LookupWitness(m: HeaderMap, k: string) returns (j: nat)
    requires HasKey(m, k)
    ensures j < |m| && m[j].0 == k && Lookup(m, k) == Some(m[j].1)
    ensures forall i :: 0 <= i < j ==> m[i].0 != k
  {
    if m[0].0 == k {
      j := 0;
    } else {
      var i :| 0 <= i < |m| && m[i].0 == k;
      assert m[1..][i - 1].0 == k;
      var j' := LookupWitness(m[1..], k);
      j := j' + 1;
      forall i | 0 <= i < j ensures m[i].0 != k {
        if i > 0 {
          assert m[i] == m[1..][i - 1];
        }
      }
    }
  }

  /** With distinct keys, the indexer returns each header's own value. */
  lemma {:induction false} LookupDistinct(m: HeaderMap, i: int)
    requires DistinctKeys(m) && 0 <= i < |m|
    ensures Lookup(m, m[i].0) == Some(m[i].1)
  {
    if i > 0 {
      DistinctTail(m);
      assert m[1..][i - 1] == m[i];
      LookupDistinct(m[1..], i - 1);
    }
  }

  lemma {:induction false} LookupHasKey(m: HeaderMap, k: string)
    ensures Lookup(m, k).Some? <==> HasKey(m, k)
  {
    if |m| > 0 {
      LookupHasKey(m[1..], k);
      if m[0].0 != k && HasKey(m, k) {
        var i :| 0 <= i < |m| && m[i].0 == k;
        assert m[1..][i - 1].0 == k;
      }
    }
  }

  lemma {:induction false} LookupAppend(a: HeaderMap, b: HeaderMap, k: string)
    ensures HasKey(a, k) ==> Lookup(a + b, k) == Lookup(a, k)
    ensures !HasKey(a, k) ==> Lookup(a + b, k) == Lookup(b, k)
  {
    if |a| > 0 {
      assert (a + b)[1..] == a[1..] + b;
      LookupAppend(a[1..], b, k);
      if a[0].0 != k && HasKey(a, k) {
        var i :| 0 <= i < |a| && a[i].0 == k;
        assert a[1..][i - 1].0 == k;
      }
      if HasKey(a[1..], k) {
        var i :| 0 <= i < |a[1..]| && a[1..][i].0 == k;
        assert a[i + 1].0 == k;
      }
    } else {
      assert a + b == b;
    }
  }

  /** In a table with distinct keys, a missing default is found under its key. */
  lemma {:induction false} MissingLookup(m: HeaderMap, d: HeaderMap, i: int)
    requires DistinctKeys(d)
    requires 0 <= i < |d| && !HasKey(m, d[i].0)
    ensures Lookup(Missing(m, d), d[i].0) == Some(d[i].1)
  {
    var rest := Missing(m, d[1..]);
    if i == 0 {
      LookupAppend([d[0]], rest, d[0].0);
    } else {
      MissingLookup(m, d[1..], i - 1);
      var head := if HasKey(m, d[0].0) then [] else [d[0]];
      assert d[0].0 != d[i].0;
      assert !HasKey(head, d[i].0);
      LookupAppend(head, rest, d[i].0);
    }
  }

  /** Adding a header does not change whether another key is present. */
  lemma HasKeyAfterAdd(m: HeaderMap, h: HeaderPair, k: string)
    requires k != h.0
    ensures HasKey(AddIfAbsent(m, h), k) == HasKey(m, k)
  {
    if !HasKey(m, h.0) {
      var m' := m + [h];
      if HasKey(m', k) {
        var i :| 0 <= i < |m'| && m'[i].0 == k;
        assert i < |m| && m[i].0 == k;
      }
      if HasKey(m, k) {
        var i :| 0 <= i < |m| && m[i].0 == k;
        assert m'[i].0 == k;
      }
    }
  }

  lemma {:induction false} MissingAfterAdd(m: HeaderMap, h: HeaderPair, d: HeaderMap)
    requires forall i :: 0 <= i < |d| ==> d[i].0 != h.0
    ensures Missing(AddIfAbsent(m, h), d) == Missing(m, d)
  {
    if |d| > 0 {
      HasKeyAfterAdd(m, h, d[0].0);
      MissingAfterAdd(m, h, d[1..]);
    }
  }

  /** The chain of guarded `Add`s appends exactly the missing defaults, in
      table order, after the caller's headers. */
  lemma {:induction false} FillDefaultsAppendsMissing(m: HeaderMap, d: HeaderMap)
    requires DistinctKeys(d)
    ensures FillDefaults(m, d) == m + Missing(m, d)
    decreases |d|
  {
    if |d| > 0 {
      DistinctTail(d);
      var m1 := AddIfAbsent(m, d[0]);
      FillDefaultsAppendsMissing(m1, d[1..]);
      MissingAfterAdd(m, d[0], d[1..]);
      MissingStep(m, d);
    } else {
      assert m + [] == m;
    }
  }

  /** One guarded `Add` followed by the missing rest is the missing defaults
      of the whole table. */
  lemma MissingStep(m: HeaderMap, d: HeaderMap)
    requires |d| > 0
    ensures AddIfAbsent(m, d[0]) + Missing(m, d[1..]) == m + Missing(m, d)
  {
    var rest := Missing(m, d[1..]);
    var head := if HasKey(m, d[0].0) then [] else [d[0]];
    assert Missing(m, d) == head + rest;
    assert AddIfAbsent(m, d[0]) == m + head;
    assert (m + head) + rest == m + (head + rest);
  }

  /** The rest of a table with distinct keys has distinct keys, none of them
      the first key. */
  lemma DistinctTail(d: HeaderMap)
    requires |d| > 0 && DistinctKeys(d)
    ensures DistinctKeys(d[1..])
    ensures forall i :: 0 <= i < |d[1..]| ==> d[1..][i].0 != d[0].0
  {
    var d' := d[1..];
    forall i, j | 0 <= i < j < |d'| ensures d'[i].0 != d'[j].0 {
      assert d'[i] == d[i + 1] && d'[j] == d[j + 1];
    }
    forall i | 0 <= i < |d'| ensures d'[i].0 != d[0].0 {
      assert d'[i] == d[i + 1];
    }
  }

  lemma DefaultKeysDistinct(timestamp: string)
    ensures DistinctKeys(Defaults(timestamp))
  {
  }

  /** The generated header is the caller's headers, then the missing defaults
      in table order, then `X-Generator`. */
  lemma GenerateMetadataAppendsMissing(metadata: Option<HeaderMap>, timestamp: string)
    ensures GenerateMetadata(metadata, timestamp)
         == metadata.GetOr([]) + Missing(metadata.GetOr([]), Defaults(timestamp)) + [(GeneratorKey, GeneratorName)]
  {
    DefaultKeysDistinct(timestamp);
    FillDefaultsAppendsMissing(metadata.GetOr([]), Defaults(timestamp));
  }

  lemma {:induction false} MissingDistinct(m: HeaderMap, d: HeaderMap)
    requires DistinctKeys(d)
    ensures DistinctKeys(Missing(m, d))
    decreases |d|
  {
    if |d| > 0 {
      var d' := d[1..];
      DistinctTail(d);
      MissingDistinct(m, d');
      MissingElements(m, d');
      var rest := Missing(m, d');
      var r := (if HasKey(m, d[0].0) then [] else [d[0]]) + rest;
      forall i, j | 0 <= i < j < |r| ensures r[i].0 != r[j].0 {
        if !HasKey(m, d[0].0) && i == 0 {
          assert r[j] == rest[j - 1] && rest[j - 1] in d';
          var k :| 0 <= k < |d'| && d'[k] == rest[j - 1];
          assert d'[k] == d[k + 1];
        } else if !HasKey(m, d[0].0) {
          assert r[i] == rest[i - 1] && r[j] == rest[j - 1];
        }
      }
    }
  }

  /** Keys stay unique when the caller's keys are unique and do not include
      `X-Generator`. */
  lemma GeneratedKeysDistinct(m: HeaderMap, timestamp: string)
    requires DistinctKeys(m) && !HasKey(m, GeneratorKey)
    ensures DistinctKeys(GenerateMetadata(Some(m), timestamp))
  {
    var d := Defaults(timestamp);
    var gen := (GeneratorKey, GeneratorName);
    GenerateMetadataAppendsMissing(Some(m), timestamp);
    DefaultKeysDistinct(timestamp);
    MissingDistinct(m, d);
    var miss := Missing(m, d);
    MissingElements(m, d);
    AppendDistinct(m, miss);
    GeneratorNotDefault(timestamp);
    forall i | 0 <= i < |miss| ensures miss[i].0 != GeneratorKey {
      assert miss[i] in d;
    }
    HasKeyAppend(m, miss, GeneratorKey);
    AppendDistinct(m + miss, [gen]);
  }

  /** `X-Generator` is not one of the defaults. */
  lemma GeneratorNotDefault(timestamp: string)
    ensures forall h :: h in Defaults(timestamp) ==> h.0 != GeneratorKey
  {
  }

  lemma HasKeyAppend(a: HeaderMap, b: HeaderMap, k: string)
    ensures HasKey(a + b, k) <==> HasKey(a, k) || HasKey(b, k)
  {
    if HasKey(a + b, k) {
      var i :| 0 <= i < |a + b| && (a + b)[i].0 == k;
      if i >= |a| {
        assert b[i - |a|].0 == k;
      }
    }
    if HasKey(a, k) {
      var i :| 0 <= i < |a| && a[i].0 == k;
      assert (a + b)[i].0 == k;
    }
    if HasKey(b, k) {
      var i :| 0 <= i < |b| && b[i].0 == k;
      assert (a + b)[|a| + i].0 == k;
    }
  }

  /** Two tables with distinct keys, the second adding no key of the first,
      concatenate to one with distinct keys. */
  lemma AppendDistinct(a: HeaderMap, b: HeaderMap)
    requires DistinctKeys(a) && DistinctKeys(b)
    requires forall h :: h in b ==> !HasKey(a, h.0)
    ensures DistinctKeys(a + b)
  {
    var r := a + b;
    forall i, j | 0 <= i < j < |r| ensures r[i].0 != r[j].0 {
      if j < |a| {
        assert r[i] == a[i] && r[j] == a[j];
      } else if i >= |a| {
        assert r[i] == b[i - |a|] && r[j] == b[j - |a|];
      } else {
        assert r[i] == a[i] && r[j] == b[j - |a|];
        assert r[j] in b;
      }
    }
  }

  lemma {:induction false} MissingFromNothing(d: HeaderMap)
    ensures Missing([], d) == d
  {
    if |d| > 0 {
      MissingFromNothing(d[1..]);
      assert d == [d[0]] + d[1..];
    }
  }

  lemma {:induction false} NothingMissing(m: HeaderMap, d: HeaderMap)
    requires forall i :: 0 <= i < |d| ==> HasKey(m, d[i].0)
    ensures Missing(m, d) == []
  {
    if |d| > 0 {
      assert HasKey(m, d[0].0);
      NothingMissing(m, d[1..]);
    }
  }

  /** A null or empty mapping becomes the eight defaults, in table order,
      followed by `X-Generator`. */
  lemma MetadataFromNothing(timestamp: string)
    ensures GenerateMetadata(None, timestamp) == Defaults(timestamp) + [(GeneratorKey, GeneratorName)]
    ensures GenerateMetadata(Some([]), timestamp) == Defaults(timestamp) + [(GeneratorKey, GeneratorName)]
  {
    GenerateMetadataAppendsMissing(None, timestamp);
    GenerateMetadataAppendsMissing(Some([]), timestamp);
    MissingFromNothing(Defaults(timestamp));
  }

  /** A mapping that already has every well-known key only gains
      `X-Generator`. */
  lemma CompleteMetadataOnlyGainsGenerator(m: HeaderMap, timestamp: string)
    requires forall i :: 0 <= i < |Defaults(timestamp)| ==> HasKey(m, Defaults(timestamp)[i].0)
    ensures GenerateMetadata(Some(m), timestamp) == m + [(GeneratorKey, GeneratorName)]
  {
    GenerateMetadataAppendsMissing(Some(m), timestamp);
    NothingMissing(m, Defaults(timestamp));
  }
}
