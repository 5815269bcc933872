# Vernacular PO generator — a Dafny model

This project models `PoGenerator`, the part of the Vernacular tool that
turns a catalog of localized strings into a gettext PO (or POT) document.
It covers the two members of that class:

- `GenerateMetadata` completes the caller's header mapping. It adds a
  default for each of the eight well-known header keys the caller left
  out, in a fixed order, and then adds `X-Generator: Vernacular`.
- `Generate` builds the document. It emits an optional header unit, whose
  msgstr holds one `key: value` line per key of the mapping, with the value
  the mapping's indexer returns. It then sorts the strings by singular
  value, then stably by plural value, so the result is ordered by plural
  value with ties broken by singular value. Finally it emits one unit per
  string. Each unit holds comments, the context with the gender merged in,
  msgid, msgid_plural and the translated strings. A null `TranslatedValues`
  falls back to the source strings, and POT mode blanks the translations.

The output is the in-memory document tree: a `Document` is a sequence of
`Unit`s, and a `Unit` is a sequence of comment and message fragments.
Nullable C# values are `Option`s.

Modules:

- `Options`: the `Option` type.
- `Sorting`: stable sorting by a total preorder. It includes the
  uniqueness of a stable sort and the fact that two stable passes equal
  one lexicographic pass.
- `PoDocument`: fragments, units and documents. It also has `ReadUnit`,
  which reads a unit back field by field, by fragment type, keeping null
  values. PO text rendering is not modelled.
- `Records`: the `LocalizedString` input record and the gender enum.
- `GenderContext`: the gender and context merge.
- `Metadata`: the header mapping (`HeaderMap`, a sequence of `HeaderPair`s)
  as an insertion-ordered association list, the default table, and
  `GenerateMetadata`.
- `Header`: the header unit, plus a reader that parses its text back into
  a mapping.
- `PoGenerator`: the sort keys, the entry unit and `Generate`.

The lemmas relate each operation to an independent characterisation:

- `Sorting.StableSortUnique` shows that any two stable sorts of the same
  input are equal.
- `Sorting.SortTwiceIsLexSort` relates the two sorting passes to one sort
  by the lexicographic order.
- `Header.HeaderTextRoundTrip` relates the header text to the parser
  `ParseHeaderText`.
- `PoGenerator.EntryUnitReadBack` and `PoGenerator.EntryUnitLayout` relate
  an entry unit to the reader `ReadUnit` and to the `Rank` layout order.
- `Metadata.GenerateMetadataAppendsMissing` relates `GenerateMetadata` to
  its closed form: caller headers, then missing defaults, then
  `X-Generator`. `Metadata.GenerateMetadata` states the same result
  through `Lookup`.

## Model

| member | source | states |
|---|---|---|
| Metadata.GenerateMetadata | Vernacular.Tool/Vernacular.Generators/PoGenerator.cs:43-83 | A null mapping counts as empty. The result keeps the caller's headers as its prefix, so every value they define is looked up unchanged. Every well-known key is present. Each key the caller lacked is found with its default value. The last header is `X-Generator: Vernacular`. |
| Metadata.GenerateMetadataAppendsMissing | Vernacular.Tool/Vernacular.Generators/PoGenerator.cs:49-82 | The result is exactly the caller's headers, then the missing defaults in table order, then `X-Generator`. |
| Metadata.FillDefaultsAppendsMissing | Vernacular.Tool/Vernacular.Generators/PoGenerator.cs:49-80 | The chain of `if (!ContainsKey) Add` steps appends exactly the defaults whose key is absent, in table order. |
| Metadata.MissingElements | Vernacular.Tool/Vernacular.Generators/PoGenerator.cs:49-80 | Only defaults are ever appended, and only those whose key the caller did not supply. |
| Metadata.MissingLookup | Vernacular.Tool/Vernacular.Generators/PoGenerator.cs:49-80 | A default whose key the caller lacked is found under its key with its documented value. |
| Metadata.MetadataFromNothing | Vernacular.Tool/Vernacular.Generators/PoGenerator.cs:45-82 | A null mapping and an empty mapping both become the eight defaults in table order, followed by `X-Generator`. |
| Metadata.CompleteMetadataOnlyGainsGenerator | Vernacular.Tool/Vernacular.Generators/PoGenerator.cs:49-82 | A mapping that already has all eight keys gains only `X-Generator`. |
| Metadata.GeneratedKeysDistinct | Vernacular.Tool/Vernacular.Generators/PoGenerator.cs:43-83 | If the caller's keys are distinct and do not include `X-Generator`, every key of the result is distinct. |
| Header.HeaderTextRoundTrip | Vernacular.Tool/Vernacular.Generators/PoGenerator.cs:92-95 | The text has one `"key: value\n"` line per key, in insertion order, with the indexer's (first-added) value. Parsing it gives back those pairs, and for distinct keys the mapping itself. This holds whenever no key contains `:` or a line break and no value contains a line break. |
| Header.PrintedDistinct | Vernacular.Tool/Vernacular.Generators/PoGenerator.cs:93-94 | With distinct keys, the indexer gives each header its own value, so the loop prints exactly the mapping. |
| Header.HeaderUnitRoundTrip | Vernacular.Tool/Vernacular.Generators/PoGenerator.cs:97-107 | The header unit is an empty msgid followed by a msgstr. Reading it back recovers every key with its indexer value, and for distinct keys the whole mapping. |
| Header.GeneratedMetadataReadable | Vernacular.Tool/Vernacular.Generators/PoGenerator.cs:89-107 | Assume the caller's headers can be read back and the timestamp has no line break. Then the completed mapping can also be read back, and its header unit reads back as the printed pairs. If the caller's keys are distinct and exclude `X-Generator`, that is the completed mapping itself. |
| Header.CallerGeneratorPrinted | Vernacular.Tool/Vernacular.Generators/PoGenerator.cs:82-94 | In this model, with `Add` as an append and a first-match indexer: if the caller already supplied `X-Generator`, the line for the appended `X-Generator` prints the caller's value. |
| Header.GeneratedHeaderNotBlank | Vernacular.Tool/Vernacular.Generators/PoGenerator.cs:97-107 | The header msgstr is never empty, even in POT mode. It always holds at least the `X-Generator` line. |
| Sorting.StableSort | Vernacular.Tool/Vernacular.Generators/PoGenerator.cs:110-113 | The result is sorted and is a permutation of the input. Elements that compare equal keep their input order. |
| Sorting.StableSortUnique | Vernacular.Tool/Vernacular.Generators/PoGenerator.cs:110-113 | Two sorted sequences with the same elements in the same within-class order are equal. So any stable sort, including LINQ's, gives the same result as this one. |
| Sorting.SortTwiceIsLexSort | Vernacular.Tool/Vernacular.Generators/PoGenerator.cs:110-113 | A stable sort by `q` followed by a stable sort by `p` equals one stable sort by `p`, with ties broken by `q`. |
| PoGenerator.KeyOrdersArePreorders | Vernacular.Tool/Vernacular.Generators/PoGenerator.cs:110-113 | Ordering null first is a total preorder whenever the string comparer is one. So are the orders by singular value and by plural value. |
| PoGenerator.SortEntriesOrder | Vernacular.Tool/Vernacular.Generators/PoGenerator.cs:110-113 | The two `orderby` clauses give a permutation of the input. It is ordered by plural value with null first, ties are ordered by singular value, and entries equal on both keys keep their input order. |
| GenderContext.MentionsAny | Vernacular.Tool/Vernacular.Generators/PoGenerator.cs:148-156 | The keyword loop stops with "found" exactly when some keyword occurs in the lower-cased context. |
| GenderContext.MergeContextSpec | Vernacular.Tool/Vernacular.Generators/PoGenerator.cs:142-166 | The context is unchanged exactly when the entry is neutral or its lower-cased context contains a gender keyword. Otherwise it ends with `"<Gender> form"`. What comes before the marker is nothing for a null or empty context, and otherwise the context followed by `", "`. |
| GenderContext.MergedContextIsGendered | Vernacular.Tool/Vernacular.Generators/PoGenerator.cs:146-166 | A gendered entry always gets a non-null context. It either mentions some gender keyword (not necessarily one for its own gender) or ends with its own marker. |
| PoGenerator.EntryUnitLayout | Vernacular.Tool/Vernacular.Generators/PoGenerator.cs:116-200 | Fragments come in the fixed order: translator comment, extracted comment, references, flag, context, msgid, msgid_plural, translated strings. |
| PoGenerator.ReadEntryComments | Vernacular.Tool/Vernacular.Generators/PoGenerator.cs:116-140 | The comment part reads back as one translator comment and one extracted comment. It then has the references in order, or none when `References` is null, and one flag. |
| PoGenerator.ReadEntryMessages | Vernacular.Tool/Vernacular.Generators/PoGenerator.cs:142-183 | The message part reads back as the merged context, the msgid and the msgid_plural (null when there is no plural). |
| PoGenerator.ReadTranslationMessages | Vernacular.Tool/Vernacular.Generators/PoGenerator.cs:194-200 | One value becomes a single msgstr. Any other count becomes msgstr[0..n-1], where msgstr[i] has plural order i and holds value i, or `""` in POT mode. |
| PoGenerator.EntryUnitReadBack | Vernacular.Tool/Vernacular.Generators/PoGenerator.cs:116-200 | Reading a whole entry unit back field by field, by fragment type and keeping null values, gives each field from its source property, and the translations as single or plural forms, blank in POT mode. |
| PoGenerator.UntranslatedEntryEchoesSource | Vernacular.Tool/Vernacular.Generators/PoGenerator.cs:185-192 | With no translations, the msgstr repeats the msgid when there is no plural. Otherwise msgstr[0] and msgstr[1] repeat the msgid and the msgid_plural. |
| PoGenerator.PotModeBlanksTranslations | Vernacular.Tool/Vernacular.Generators/PoGenerator.cs:194-200 | In POT mode every translated-string fragment of an entry unit is `""`. |
| PoGenerator.EntryUnits | Vernacular.Tool/Vernacular.Generators/PoGenerator.cs:115-203 | There is one unit per string, in order. |
| PoGenerator.AppendEntries | Vernacular.Tool/Vernacular.Generators/PoGenerator.cs:115-203 | The `foreach` loop appends the entry units of the sorted strings after the units already in the document. |
| PoGenerator.Generate | Vernacular.Tool/Vernacular.Generators/PoGenerator.cs:85-203 | When the header is excluded, the metadata is untouched and no header unit is emitted. Otherwise the mapping is completed by `GenerateMetadata` and its header unit comes first. Either way, one entry unit per string follows, in sorted order. |

## Left out

- `document.Generate ()` and `Writer.Write` (PoGenerator.cs line 205): PO text rendering and the output sink live in code this model does not include. The model stops at the document tree.
- The `Vernacular.PO` types (`Document`, `Unit`, `Comment`, `Message`) are not part of this model. They are modelled as datatypes holding the properties the generator sets. `PluralOrder` is 0 unless it is set.
- Vernacular.Catalog/Vernacular.Xaml/Catalog.cs is not part of this model. It is UI binding glue that `PoGenerator` does not use.
- `DateTime.Now`: the formatted `PO-Revision-Date` default is a parameter (`Environment.timestamp`).
- The culture-sensitive comparer and `ToLower` are parameters. The comparer is any total preorder on strings, and null sorts first as with .NET's default comparer.
- `PoParser.GenderContexts`: its keys are not part of this model, so the gender keywords are a parameter.
- `LocalizationMetadata.Add` is not part of this model. Every `Add` is modelled as an append, including the unconditional `X-Generator` one. What the real map does with an existing `X-Generator` key is not modelled, so GeneratedKeysDistinct requires the key absent.
- Header.GeneratedMetadataReadable: when the caller already supplied `X-Generator`, the completed mapping holds the key twice. The real map's `Add` may reject that, which is not modelled. The model lets both headers stand and prints the caller's value on both lines (Header.CallerGeneratorPrinted), so the header then reads back as the printed pairs and not as the mapping.
- Header.CallerGeneratorPrinted: what the real `LocalizationMetadata` does when `X-Generator` is added a second time is not modelled. Its `Add` may throw, or it may overwrite the caller's value; overwriting would leave a single `X-Generator: Vernacular` line. The lemma describes only this model's append with a first-match indexer.
- `LanguageGender`: only `Neutral` matters to the code. The other members are modelled as `Masculine` and `Feminine`, named as `ToString ()` renders them.
- `UntranslatedSingularValue` is modelled as a non-null string.
- Sorting.StableSort is an insertion sort rather than LINQ's algorithm. A stable sort's output is unique (Sorting.StableSortUnique), so any stable implementation gives the same result.
- POT mode: one might expect it to blank every msgstr of the document. The code blanks only the msgstr fragments of entry units, so the header msgstr keeps the metadata text. The model follows the code (Header.GeneratedHeaderNotBlank).
