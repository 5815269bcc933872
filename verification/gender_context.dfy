/**
  Merging an entry's gender into its message context: a gendered entry whose
  context does not already name a gender gets `"<Gender> form"` added, so
  that the masculine and feminine variants of one msgid stay distinct.

  The recognised gender keywords (the keys of the parser's gender-context
  table) and the culture-sensitive `ToLower` are parameters.
 */
module GenderContext {
  import opened Options
  import opened Records

  /** Ordinal `string.Contains`: `sub` occurs in `s` at some offset. */
  predicate Contains(s: string, sub: string) {
    exists i | 0 <= i <= |s| - |sub| :: OccursAt(s, sub, i)
  }

  predicate OccursAt(s: string, sub: string, i: int) {
    0 <= i <= |s| - |sub| && s[i..i + |sub|] == sub
  }

  /** The keyword scan, stopping at the first keyword found in `text`. */
  function MentionsAny(text: string, keywords: seq<string>): (r: bool)
    ensures r <==> exists k :: k in keywords && Contains(text, k)
  {
    if |keywords| == 0 then false
    else if Contains(text, keywords[0]) then true
    else MentionsAny(text, keywords[1..])
  }

  /** The marker added for a gendered entry. */
  function GenderMarker(g: Gender): string {
    GenderName(g) + " form"
  }

  /** The gender is already expressed by the context, so nothing is added. */
  predicate AlreadyGendered(context: Option<string>, keywords: seq<string>, lower: string -> string) {
    context.Some? && MentionsAny(lower(context.value), keywords)
  }

  /** The context emitted for an entry with context `context` and gender `g`. */
  function MergeContext(context: Option<string>, g: Gender, keywords: seq<string>, lower: string -> string): Option<string>
  {
    if g == Neutral || AlreadyGendered(context, keywords, lower) then context
    else if context == None || context == Some("") then Some(GenderMarker(g))
    else Some(context.value + ", " + GenderMarker(g))
  }

  /** The context is left alone exactly when the entry is neutral or its
      context already names a gender; otherwise the marker is added at the
      end, after the original context and a comma when there was one. */
  lemma MergeContextSpec(context: Option<string>, g: Gender, keywords: seq<string>, lower: string -> string)
    ensures var r := MergeContext(context, g, keywords, lower);
      && (r == context <==> g == Neutral || exists k :: k in keywords && context.Some? && Contains(lower(context.value), k))
      && (r != context ==>
            && r.Some?
            && |r.value| >= |GenderMarker(g)|
            && r.value[|r.value| - |GenderMarker(g)|..] == GenderMarker(g)
            && r.value[..|r.value| - |GenderMarker(g)|] == (if context.GetOr("") == "" then "" else context.value + ", "))
  {
  }

  /** Whatever the input, a gendered entry's emitted context is non-null and
      either mentions some gender keyword (not necessarily one for its own
      gender) or ends with its own marker. */
  lemma MergedContextIsGendered(context: Option<string>, g: Gender, keywords: seq<string>, lower: string -> string)
    requires g != Neutral
    ensures var r := MergeContext(context, g, keywords, lower);
      r.Some? && (AlreadyGendered(r, keywords, lower) || (|r.value| >= |GenderMarker(g)| && r.value[|r.value| - |GenderMarker(g)|..] == GenderMarker(g)))
  {
  }
}
