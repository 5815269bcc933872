/**
  `PoGenerator.Generate`: builds the PO document for a catalog of localized
  strings — the optional header unit, then one unit per string in sorted
  order.

  What the C# code takes from its surroundings is an `Environment`: the
  formatted current time, the culture's string comparer (as "sorts no later
  than"), the culture's `ToLower`, and the gender keywords of the parser's
  gender-context table.
 */
module PoGenerator {
  import opened Options
  import opened Sorting
  import opened PoDocument
  import opened Records
  import opened GenderContext
  import opened Metadata
  import opened Header

  datatype Environment = Environment(
    timestamp: string,
    compare: (string, string) -> bool,
    lower: string -> string,
    genderKeywords: seq<string>)

  /** The default comparer on nullable strings: `null` first, then `compare`. */
  function NullsFirst(compare: (string, string) -> bool): (Option<string>, Option<string>) -> bool {
    (a: Option<string>, b: Option<string>) => a.None? || (b.Some? && compare(a.value, b.value))
  }

  /** The first sort key: the untranslated singular value. */
  function BySingular(compare: (string, string) -> bool): (LocalizedString, LocalizedString) -> bool {
    (a: LocalizedString, b: LocalizedString) => compare(a.untranslatedSingular, b.untranslatedSingular)
  }

  /** The second sort key: the untranslated plural value, null first. */
  function ByPlural(compare: (string, string) -> bool): (LocalizedString, LocalizedString) -> bool {
    (a: LocalizedString, b: LocalizedString) => NullsFirst(compare)(a.untranslatedPlural, b.untranslatedPlural)
  }

  /** The order the entries come out in: by plural, ties by singular. */
  function EntryOrder(compare: (string, string) -> bool): (LocalizedString, LocalizedString) -> bool {
    Lex(ByPlural(compare), BySingular(compare))
  }

  lemma KeyOrdersArePreorders(compare: (string, string) -> bool)
    requires TotalPreorder(compare)
    ensures TotalPreorder(NullsFirst(compare))
    ensures TotalPreorder(BySingular(compare))
    ensures TotalPreorder(ByPlural(compare))
  {
    var n := NullsFirst(compare);
    assert TotalPreorder(n) by {
      forall a, b, c | n(a, b) && n(b, c) ensures n(a, c) {
        if a.Some? {
          assert compare(a.value, b.value) && compare(b.value, c.value);
        }
      }
    }
    var s := BySingular(compare);
    assert TotalPreorder(s) by {
      forall a, b ensures s(a, b) || s(b, a) {
        assert compare(a.untranslatedSingular, b.untranslatedSingular) || compare(b.untranslatedSingular, a.untranslatedSingular);
      }
      forall a, b, c | s(a, b) && s(b, c) ensures s(a, c) {
        assert compare(a.untranslatedSingular, b.untranslatedSingular);
        assert compare(b.untranslatedSingular, c.untranslatedSingular);
      }
    }
    var p := ByPlural(compare);
    assert TotalPreorder(p) by {
      forall a, b, c | p(a, b) && p(b, c) ensures p(a, c) {
        assert n(a.untranslatedPlural, b.untranslatedPlural);
        assert n(b.untranslatedPlural, c.untranslatedPlural);
      }
      forall a, b ensures p(a, b) || p(b, a) {
        assert n(a.untranslatedPlural, b.untranslatedPlural) || n(b.untranslatedPlural, a.untranslatedPlural);
      }
    }
  }

  /** The two `orderby` clauses of the query: two successive stable sorts,
      by singular and then by plural. */
  function SortEntries(strings: seq<LocalizedString>, compare: (string, string) -> bool): (sorted: seq<LocalizedString>)
    requires TotalPreorder(compare)
    ensures |sorted| == |strings|
  {
    KeyOrdersArePreorders(compare);
    StableSort(StableSort(strings, BySingular(compare)), ByPlural(compare))
  }

  /** The sorted entries are a permutation of the input ordered by plural
      value (null first), ties ordered by singular value, and entries equal
      on both keys in their input order: one stable sort by the pair. */
  lemma SortEntriesOrder(strings: seq<LocalizedString>, compare: (string, string) -> bool)
    requires TotalPreorder(compare)
    ensures TotalPreorder(EntryOrder(compare))
    ensures var sorted := SortEntries(strings, compare);
      && sorted == StableSort(strings, EntryOrder(compare))
      && multiset(sorted) == multiset(strings)
      && (forall i, j :: 0 <= i < j < |sorted| ==>
            NullsFirst(compare)(sorted[i].untranslatedPlural, sorted[j].untranslatedPlural))
      && (forall i, j ::
            (0 <= i < j < |sorted|
             && Equivalent(NullsFirst(compare), sorted[i].untranslatedPlural, sorted[j].untranslatedPlural)) ==>
            compare(sorted[i].untranslatedSingular, sorted[j].untranslatedSingular))
      && (forall x :: Class(sorted, x, EntryOrder(compare)) == Class(strings, x, EntryOrder(compare)))
  {
    KeyOrdersArePreorders(compare);
    SortTwiceIsLexSort(strings, ByPlural(compare), BySingular(compare));
    var sorted := SortEntries(strings, compare);
    var order := EntryOrder(compare);
    forall i, j | 0 <= i < j < |sorted|
      ensures NullsFirst(compare)(sorted[i].untranslatedPlural, sorted[j].untranslatedPlural)
      ensures Equivalent(NullsFirst(compare), sorted[i].untranslatedPlural, sorted[j].untranslatedPlural) ==>
              compare(sorted[i].untranslatedSingular, sorted[j].untranslatedSingular)
    {
      assert order(sorted[i], sorted[j]);
    }
  }

  /** `TranslatedValues`, or the untranslated strings when it is null. */
  function Translations(ls: LocalizedString): seq<Option<string>> {
    match ls.translatedValues
    case Some(t) => t
    case None =>
      if ls.untranslatedPlural.None? then [Some(ls.untranslatedSingular)]
      else [Some(ls.untranslatedSingular), ls.untranslatedPlural]
  }

  function ReferenceComments(references: seq<Option<string>>): Unit {
    seq(|references|, i requires 0 <= i < |references| => Comment(Reference, references[i]))
  }

  /** The loop over the translations: one message per value, a singular
      string when there is exactly one value and plural strings otherwise,
      each numbered by its index, and blank in POT mode. */
  function TranslationMessages(translated: seq<Option<string>>, potMode: bool): Unit {
    seq(|translated|, i requires 0 <= i < |translated| =>
      Message(if |translated| == 1 then SingularString else PluralString, i,
              if potMode then Some("") else translated[i]))
  }

  /** The comments that open an entry unit: translator, extracted, one per
      reference (none when `References` is null), flag. */
  function EntryComments(ls: LocalizedString): Unit {
    [Comment(Translator, ls.translatorComments), Comment(Extracted, ls.developerComments)]
    + ReferenceComments(ls.references.GetOr([]))
    + [Comment(Flag, ls.stringFormatHint)]
  }

  /** msgctxt (with the gender merged in), msgid and msgid_plural. */
  function EntryMessages(ls: LocalizedString, env: Environment): Unit {
    [ Message(Context, 0, MergeContext(ls.context, ls.gender, env.genderKeywords, env.lower)),
      Message(SingularIdentifier, 0, Some(ls.untranslatedSingular)),
      Message(PluralIdentifier, 0, ls.untranslatedPlural) ]
  }

  /** The unit built for one localized string. */
  function EntryUnit(ls: LocalizedString, potMode: bool, env: Environment): Unit {
    EntryComments(ls) + EntryMessages(ls, env) + TranslationMessages(Translations(ls), potMode)
  }

  /** The fragments of an entry unit come in the fixed layout: translator
      comment, extracted comment, the references, flag, context, msgid,
      msgid_plural, translated strings. */
  lemma EntryUnitLayout(ls: LocalizedString, potMode: bool, env: Environment)
    ensures InEntryOrder(EntryUnit(ls, potMode, env))
  {
  }

  lemma ReadEntryComments(ls: LocalizedString)
    ensures ReadUnit(EntryComments(ls))
         == EntryView([ls.translatorComments], [ls.developerComments], ls.references.GetOr([]),
                      [ls.stringFormatHint], [], [], [], [], [])
  {
    var head := [Comment(Translator, ls.translatorComments), Comment(Extracted, ls.developerComments)];
    var rc := ReferenceComments(ls.references.GetOr([]));
    var flag := [Comment(Flag, ls.stringFormatHint)];
    ReadOne(head[0]);
    ReadOne(head[1]);
    ReadOne(flag[0]);
    ReadUnitAppend([head[0]], [head[1]]);
    assert head == [head[0]] + [head[1]];
    ReadUnitAppend(head, rc);
    ReadUnitAppend(head + rc, flag);
    assert EntryComments(ls) == head + rc + flag;
    ReadUniformComments(rc, Reference);
    assert ReadUnit(rc) == EntryView([], [], ls.references.GetOr([]), [], [], [], [], [], []);
  }

  lemma ReadEntryMessages(ls: LocalizedString, env: Environment)
    ensures ReadUnit(EntryMessages(ls, env))
         == EntryView([], [], [], [], [MergeContext(ls.context, ls.gender, env.genderKeywords, env.lower)],
                      [Some(ls.untranslatedSingular)], [ls.untranslatedPlural], [], [])
  {
    var m := EntryMessages(ls, env);
    assert m == [m[0]] + [m[1]] + [m[2]];
    ReadOne(m[0]);
    ReadOne(m[1]);
    ReadOne(m[2]);
    ReadUnitAppend([m[0]], [m[1]]);
    ReadUnitAppend([m[0]] + [m[1]], [m[2]]);
  }

  lemma ReadTranslationMessages(t: seq<Option<string>>, potMode: bool)
    ensures var v := ReadUnit(TranslationMessages(t, potMode));
      && v.translatorComments == [] && v.extractedComments == [] && v.references == [] && v.flags == []
      && v.contexts == [] && v.singularIds == [] && v.pluralIds == []
      && (|t| == 1 ==> v.singularStrings == [if potMode then Some("") else t[0]] && v.pluralStrings == [])
      && (|t| != 1 ==>
            && v.singularStrings == []
            && |v.pluralStrings| == |t|
            && forall i :: 0 <= i < |t| ==> v.pluralStrings[i] == (i, if potMode then Some("") else t[i]))
  {
    var tm := TranslationMessages(t, potMode);
    var kind := if |t| == 1 then SingularString else PluralString;
    ReadUniformMessages(tm, kind);
    if |t| == 1 {
      assert MessagesOf(tm, SingularString) == [(0, if potMode then Some("") else t[0])];
    }
  }

  /** Reading an entry unit back field by field gives one translator comment,
      one extracted comment, the references in order (none for null), one
      flag, the merged context, the msgid and msgid_plural, and the
      translations — all blank in POT mode — as one msgstr when there is
      exactly one and as msgstr[0..n-1] otherwise. */
  lemma EntryUnitReadBack(ls: LocalizedString, potMode: bool, env: Environment)
    ensures var v, t := ReadUnit(EntryUnit(ls, potMode, env)), Translations(ls);
      && v.translatorComments == [ls.translatorComments]
      && v.extractedComments == [ls.developerComments]
      && v.references == ls.references.GetOr([])
      && v.flags == [ls.stringFormatHint]
      && v.contexts == [MergeContext(ls.context, ls.gender, env.genderKeywords, env.lower)]
      && v.singularIds == [Some(ls.untranslatedSingular)]
      && v.pluralIds == [ls.untranslatedPlural]
      && (|t| == 1 ==> v.singularStrings == [if potMode then Some("") else t[0]] && v.pluralStrings == [])
      && (|t| != 1 ==>
            && v.singularStrings == []
            && |v.pluralStrings| == |t|
            && forall i :: 0 <= i < |t| ==> v.pluralStrings[i] == (i, if potMode then Some("") else t[i]))
  {
    var c, m, t := EntryComments(ls), EntryMessages(ls, env), TranslationMessages(Translations(ls), potMode);
    ReadUnitAppend(c, m);
    ReadUnitAppend(c + m, t);
    assert ReadUnit(EntryUnit(ls, potMode, env)) == Concat(Concat(ReadUnit(c), ReadUnit(m)), ReadUnit(t));
    ReadEntryComments(ls);
    ReadEntryMessages(ls, env);
    ReadTranslationMessages(Translations(ls), potMode);
  }

  /** POT mode blanks every translated string of an entry unit, and nothing
      else in the unit is a translated string. */
  lemma PotModeBlanksTranslations(ls: LocalizedString, env: Environment)
    ensures forall f :: f in EntryUnit(ls, true, env) && f.IsTranslation() ==> f.value == Some("")
  {
  }

  /** An entry without translations echoes its source strings: msgstr is
      the msgid when there is no plural, msgstr[0] and msgstr[1] are the
      msgid and msgid_plural otherwise. */
  lemma UntranslatedEntryEchoesSource(ls: LocalizedString, env: Environment)
    requires ls.translatedValues.None?
    ensures var v := ReadUnit(EntryUnit(ls, false, env));
      && |v.singularIds| == 1 && |v.pluralIds| == 1
      && (ls.untranslatedPlural.None? ==>
            v.singularStrings == v.singularIds && v.pluralStrings == [])
      && (ls.untranslatedPlural.Some? ==>
            v.singularStrings == [] && v.pluralStrings == [(0, v.singularIds[0]), (1, v.pluralIds[0])])
  {
    EntryUnitReadBack(ls, false, env);
  }

  /** One unit per localized string, in order. */
  function EntryUnits(strings: seq<LocalizedString>, potMode: bool, env: Environment): (units: Document)
    ensures |units| == |strings|
    ensures forall k :: 0 <= k < |strings| ==> units[k] == EntryUnit(strings[k], potMode, env)
  {
    if |strings| == 0 then [] else [EntryUnit(strings[0], potMode, env)] + EntryUnits(strings[1..], potMode, env)
  }

  /** `Generate`: the header unit unless `excludeHeaderMetadata`, then one
      unit per localized string, in sorted order. The caller's metadata
      mapping is returned as the generator leaves it: untouched when the
      header is excluded, completed with the defaults otherwise. */
  method Generate(strings: seq<LocalizedString>, metadata: Option<HeaderMap>, potMode: bool,
                  excludeHeaderMetadata: bool, env: Environment)
    returns (document: Document, finalMetadata: Option<HeaderMap>)
    requires TotalPreorder(env.compare)
    ensures excludeHeaderMetadata ==> finalMetadata == metadata
    ensures !excludeHeaderMetadata ==> finalMetadata == Some(GenerateMetadata(metadata, env.timestamp))
    ensures |document| == |strings| + (if excludeHeaderMetadata then 0 else 1)
    ensures document == (if excludeHeaderMetadata then [] else [HeaderUnit(finalMetadata.value)])
                        + EntryUnits(SortEntries(strings, env.compare), potMode, env)
  {
    var header: Document := [];
    finalMetadata := metadata;
    if !excludeHeaderMetadata {
      finalMetadata := Some(GenerateMetadata(metadata, env.timestamp));
      header := [HeaderUnit(finalMetadata.value)];
    }
    document := AppendEntries(header, SortEntries(strings, env.compare), potMode, env);
  }

  /** The `foreach` over the sorted strings: one unit per string, in order,
      after the units already in the document. */
  method AppendEntries(header: Document, sorted: seq<LocalizedString>, potMode: bool, env: Environment)
    returns (document: Document)
    ensures document == header + EntryUnits(sorted, potMode, env)
  {
    document := header;
    var i := 0;
    while i < |sorted|
      invariant 0 <= i <= |sorted|
      invariant |document| == |header| + i
      invariant document[..|header|] == header
      invariant forall k :: 0 <= k < i ==> document[|header| + k] == EntryUnit(sorted[k], potMode, env)
    {
      document := document + [EntryUnit(sorted[i], potMode, env)];
      i := i + 1;
    }
    assert document == header + EntryUnits(sorted, potMode, env);
  }
}
