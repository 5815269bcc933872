/**
  The input records of the generator: one `LocalizedString` per translatable
  entry, as produced by the parsers. Nullable properties are `Option`s.
 */
module Records {
  import opened Options

  /** `LanguageGender`: `Neutral` entries carry no gender. */
  datatype Gender = Neutral | Masculine | Feminine

  /** The enum member's name, as `Gender.ToString ()` renders it. */
  function GenderName(g: Gender): string {
    match g
    case Neutral => "Neutral"
    case Masculine => "Masculine"
    case Feminine => "Feminine"
  }

  datatype LocalizedString = LocalizedString(
    untranslatedSingular: string,
    untranslatedPlural: Option<string>,
    translatedValues: Option<seq<Option<string>>>,
    context: Option<string>,
    gender: Gender,
    translatorComments: Option<string>,
    developerComments: Option<string>,
    references: Option<seq<Option<string>>>,
    stringFormatHint: Option<string>)
}
