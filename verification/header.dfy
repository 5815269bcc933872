/**
  The header unit: an empty msgid whose msgstr holds one `"key: value\n"`
  line per key of the metadata, in insertion order, with the value the
  mapping's indexer returns for that key; and the reading of that msgstr
  back into a mapping.
 */
module Header {
  import opened Options
  import opened PoDocument
  import opened Metadata

  function HeaderLine(h: HeaderPair): string {
    h.0 + ": " + h.1 + "\n"
  }

  /** The lines of `p`, concatenated. */
  function Lines(p: HeaderMap): string {
    if |p| == 0 then "" else HeaderLine(p[0]) + Lines(p[1..])
  }

  /** The pairs the header loop prints: every key of `m` in insertion order,
      each with the value the indexer returns for it. */
  function Printed(m: HeaderMap): (p: HeaderMap)
    ensures |p| == |m|
    ensures forall i :: 0 <= i < |m| ==> p[i].0 == m[i].0 && Lookup(m, m[i].0) == Some(p[i].1)
  {
    assert forall i :: 0 <= i < |m| ==> Lookup(m, m[i].0).Some? by {
      forall i | 0 <= i < |m| ensures Lookup(m, m[i].0).Some? {
        LookupHasKey(m, m[i].0);
      }
    }
    seq(|m|, i requires 0 <= i < |m| => (m[i].0, Lookup(m, m[i].0).GetOr("")))
  }

  /** The `StringBuilder` text of the header. */
  function HeaderText(m: HeaderMap): string {
    Lines(Printed(m))
  }

  function HeaderUnit(m: HeaderMap): Unit {
    [ Message(SingularIdentifier, 0, Some("")),
      Message(SingularString, 0, Some(HeaderText(m))) ]
  }

  /** A header can be read back from its line when its key holds no `:` or
      line break and its value no line break. */
  ghost predicate Readable(m: HeaderMap) {
    forall i :: 0 <= i < |m| ==> ':' !in m[i].0 && '\n' !in m[i].0 && '\n' !in m[i].1
  }

  /** The first position of `c` in `s`. */
  function IndexOf(s: string, c: char): (r: Option<nat>)
    ensures r.Some? ==> r.value < |s| && s[r.value] == c && c !in s[..r.value]
    ensures r.None? ==> c !in s
  {
    if |s| == 0 then None
    else if s[0] == c then Some(0)
    else match IndexOf(s[1..], c)
      case None => None
      case Some(i) =>
        assert s[..i + 1] == [s[0]] + s[1..][..i];
        Some(i + 1)
  }

  /** Splits `key: value` at its first colon. */
  function ParseHeaderLine(line: string): Option<HeaderPair> {
    match IndexOf(line, ':')
    case None => None
    case Some(j) =>
      if j + 1 < |line| && line[j + 1] == ' ' then Some((line[..j], line[j + 2..])) else None
  }

  /** Reads a header text line by line; `None` when it is malformed. */
  function ParseHeaderText(t: string): Option<HeaderMap>
    decreases |t|
  {
    if |t| == 0 then Some([])
    else match IndexOf(t, '\n')
      case None => None
      case Some(n) =>
        match ParseHeaderLine(t[..n])
        case None => None
        case Some(h) =>
          match ParseHeaderText(t[n + 1..])
          case None => None
          case Some(rest) => Some([h] + rest)
  }

  /** The mapping held by a header unit, if `u` is one. */
  function ReadHeader(u: Unit): Option<HeaderMap> {
    if |u| == 2 && u[0] == Message(SingularIdentifier, 0, Some(""))
       && u[1].Message? && u[1].messageType == SingularString && u[1].value.Some?
    then ParseHeaderText(u[1].value.value)
    else None
  }

  lemma {:induction false} IndexOfFirst(a: string, c: char, b: string)
    requires c !in a
    ensures IndexOf(a + [c] + b, c) == Some(|a|)
  {
    if |a| > 0 {
      assert (a + [c] + b)[1..] == a[1..] + [c] + b;
      IndexOfFirst(a[1..], c, b);
    }
  }

  lemma ParseLineRoundTrip(h: HeaderPair)
    requires ':' !in h.0
    ensures ParseHeaderLine(h.0 + ": " + h.1) == Some(h)
  {
    var line := h.0 + ": " + h.1;
    assert line == h.0 + [':'] + (" " + h.1);
    IndexOfFirst(h.0, ':', " " + h.1);
    assert line[..|h.0|] == h.0;
    assert line[|h.0| + 2..] == h.1;
  }

  /** Reading concatenated lines back gives the pairs they were built from. */
  lemma {:induction false} LinesRoundTrip(p: HeaderMap)
    requires Readable(p)
    ensures ParseHeaderText(Lines(p)) == Some(p)
  {
    if |p| > 0 {
      var h, rest := p[0], p[1..];
      var line := h.0 + ": " + h.1;
      var t := Lines(p);
      assert t == line + ['\n'] + Lines(rest);
      assert '\n' !in line by {
        assert line == h.0 + [':', ' '] + h.1;
      }
      IndexOfFirst(line, '\n', Lines(rest));
      assert t[..|line|] == line;
      assert t[|line| + 1..] == Lines(rest);
      ParseLineRoundTrip(h);
      assert Readable(rest) by {
        forall i | 0 <= i < |rest| ensures ':' !in rest[i].0 && '\n' !in rest[i].0 && '\n' !in rest[i].1 {
          assert rest[i] == p[i + 1];
        }
      }
      LinesRoundTrip(rest);
      assert p == [h] + rest;
    }
  }

  /** Every printed value is the value of some header of `m`, so the
      printed pairs are readable when `m` is. */
  lemma PrintedReadable(m: HeaderMap)
    requires Readable(m)
    ensures Readable(Printed(m))
  {
    var p := Printed(m);
    forall i | 0 <= i < |p| ensures ':' !in p[i].0 && '\n' !in p[i].0 && '\n' !in p[i].1 {
      var j := LookupWitness(m, m[i].0);
    }
  }

  /** With distinct keys the indexer gives each header its own value, so
      the printed pairs are the mapping itself. */
  lemma PrintedDistinct(m: HeaderMap)
    requires DistinctKeys(m)
    ensures Printed(m) == m
  {
    forall i | 0 <= i < |m| ensures Printed(m)[i] == m[i] {
      LookupDistinct(m, i);
    }
  }

  /** Reading the header text back gives each key in insertion order with
      its indexer value; for distinct keys that is the mapping itself. */
  lemma HeaderTextRoundTrip(m: HeaderMap)
    requires Readable(m)
    ensures ParseHeaderText(HeaderText(m)) == Some(Printed(m))
    ensures DistinctKeys(m) ==> ParseHeaderText(HeaderText(m)) == Some(m)
  {
    PrintedReadable(m);
    LinesRoundTrip(Printed(m));
    if DistinctKeys(m) {
      PrintedDistinct(m);
    }
  }

  /** The header unit carries its mapping: reading it back recovers every
      key, in insertion order, with its indexer value. */
  lemma HeaderUnitRoundTrip(m: HeaderMap)
    requires Readable(m)
    ensures ReadHeader(HeaderUnit(m)) == Some(Printed(m))
    ensures DistinctKeys(m) ==> ReadHeader(HeaderUnit(m)) == Some(m)
  {
    HeaderTextRoundTrip(m);
  }

  /** Every default header, and the generator header, can be read back. */
  lemma DefaultsReadable(timestamp: string)
    requires '\n' !in timestamp
    ensures Readable(Defaults(timestamp) + [(GeneratorKey, GeneratorName)])
  {
    var dx := Defaults(timestamp) + [(GeneratorKey, GeneratorName)];
    forall i | 0 <= i < |dx| ensures ':' !in dx[i].0 && '\n' !in dx[i].0 && '\n' !in dx[i].1 {
      HeaderReadable(dx, i, timestamp);
    }
  }

  /** Entry `i` of the default table extended with the generator header. */
  lemma HeaderReadable(dx: HeaderMap, i: int, timestamp: string)
    requires dx == Defaults(timestamp) + [(GeneratorKey, GeneratorName)] && 0 <= i < |dx|
    requires '\n' !in timestamp
    ensures ':' !in dx[i].0 && '\n' !in dx[i].0 && '\n' !in dx[i].1
  {
    LiteralsReadableA();
    LiteralsReadableB();
    LiteralsReadableC();
    if i == 0 {
      assert dx[i] == ("Project-Id-Version", "PACKAGE VERSION");
    } else if i == 1 {
      assert dx[i] == ("PO-Revision-Date", timestamp);
    } else if i == 2 {
      assert dx[i] == ("Last-Translator", "");
    } else if i == 3 {
      assert dx[i] == ("Language-Team", "");
    } else if i == 4 {
      assert dx[i] == ("MIME-Version", "1.0");
    } else if i == 5 {
      assert dx[i] == ("Content-Type", "text/plain; charset=UTF-8");
    } else if i == 6 {
      assert dx[i] == ("Content-Transfer-Encoding", "8bit");
    } else if i == 7 {
      assert dx[i] == ("Plural-Forms", "nplurals=2; plural=(n != 1);");
    } else {
      assert dx[i] == (GeneratorKey, GeneratorName);
    }
  }

  /** `s` does not hold `c`, stated position by position. */
  predicate Free(s: string, c: char) {
    forall i | 0 <= i < |s| :: s[i] != c
  }

  /** The literal keys of the default table hold no `:` and neither they nor
      their values a line break; split in three to keep each proof small. */
  lemma LiteralsReadableA()
    ensures Free("Project-Id-Version", ':') && Free("Project-Id-Version", '\n') && Free("PACKAGE VERSION", '\n')
    ensures Free("PO-Revision-Date", ':') && Free("PO-Revision-Date", '\n')
    ensures Free("Last-Translator", ':') && Free("Last-Translator", '\n') && Free("", '\n')
  {
  }

  lemma LiteralsReadableB()
    ensures Free("Language-Team", ':') && Free("Language-Team", '\n')
    ensures Free("MIME-Version", ':') && Free("MIME-Version", '\n') && Free("1.0", '\n')
    ensures Free("Content-Type", ':') && Free("Content-Type", '\n') && Free("text/plain; charset=UTF-8", '\n')
  {
  }

  lemma LiteralsReadableC()
    ensures Free("Content-Transfer-Encoding", ':') && Free("Content-Transfer-Encoding", '\n') && Free("8bit", '\n')
    ensures Free("Plural-Forms", ':') && Free("Plural-Forms", '\n') && Free("nplurals=2; plural=(n != 1);", '\n')
    ensures Free(GeneratorKey, ':') && Free(GeneratorKey, '\n') && Free(GeneratorName, '\n')
  {
  }

  /** The generated mapping stays readable when the caller's is and the
      timestamp holds no line break, so its header unit reads back as the
      printed pairs; when the caller's keys are distinct and do not include
      `X-Generator`, those are the generated mapping itself. */
  lemma GeneratedMetadataReadable(metadata: Option<HeaderMap>, timestamp: string)
    requires Readable(metadata.GetOr([])) && '\n' !in timestamp
    ensures Readable(GenerateMetadata(metadata, timestamp))
    ensures var r := GenerateMetadata(metadata, timestamp);
      ReadHeader(HeaderUnit(r)) == Some(Printed(r))
    ensures var m, r := metadata.GetOr([]), GenerateMetadata(metadata, timestamp);
      DistinctKeys(m) && !HasKey(m, GeneratorKey) ==> ReadHeader(HeaderUnit(r)) == Some(r)
  {
    var m, r := metadata.GetOr([]), GenerateMetadata(metadata, timestamp);
    GeneratedReadable(metadata, timestamp);
    HeaderUnitRoundTrip(r);
    if DistinctKeys(m) && !HasKey(m, GeneratorKey) {
      GeneratedKeysDistinct(m, timestamp);
      assert r == GenerateMetadata(Some(m), timestamp);
    }
  }

  /** Every header of the generated mapping is a caller's header, a default
      or `X-Generator`, each of them readable. */
  lemma GeneratedReadable(metadata: Option<HeaderMap>, timestamp: string)
    requires Readable(metadata.GetOr([])) && '\n' !in timestamp
    ensures Readable(GenerateMetadata(metadata, timestamp))
  {
    var m, d := metadata.GetOr([]), Defaults(timestamp);
    var dx := d + [(GeneratorKey, GeneratorName)];
    GenerateMetadataAppendsMissing(metadata, timestamp);
    DefaultsReadable(timestamp);
    var miss := Missing(m, d);
    MissingElements(m, d);
    var r := m + miss + [(GeneratorKey, GeneratorName)];
    forall i | 0 <= i < |r| ensures ':' !in r[i].0 && '\n' !in r[i].0 && '\n' !in r[i].1 {
      if i < |m| {
        assert r[i] == m[i];
      } else if i < |m| + |miss| {
        assert r[i] == miss[i - |m|] && r[i] in d;
        var k :| 0 <= k < |d| && d[k] == r[i];
        assert dx[k] == d[k];
      } else {
        assert r[i] == dx[|d|];
      }
    }
  }

  /** When the caller already supplied `X-Generator`, the appended
      `X-Generator` line prints the caller's value, since the indexer
      returns the first value added under a key. */
  lemma CallerGeneratorPrinted(m: HeaderMap, timestamp: string)
    requires HasKey(m, GeneratorKey)
    ensures var r := GenerateMetadata(Some(m), timestamp);
      Printed(r)[|r| - 1] == (GeneratorKey, Lookup(m, GeneratorKey).value)
  {
    LookupHasKey(m, GeneratorKey);
  }

  /** The header's msgstr is never blank: POT mode blanks the translated
      strings of entry units only, and the generated mapping always holds
      at least `X-Generator`. */
  lemma GeneratedHeaderNotBlank(metadata: Option<HeaderMap>, timestamp: string)
    ensures var u := HeaderUnit(GenerateMetadata(metadata, timestamp));
      u[1].IsTranslation() && u[1].value.Some? && |u[1].value.value| > 0
  {
    var p := Printed(GenerateMetadata(metadata, timestamp));
    assert Lines(p) == HeaderLine(p[0]) + Lines(p[1..]);
  }
}
