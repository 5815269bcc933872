/**
  The in-memory gettext PO document: a `Document` is a sequence of `Unit`s,
  a `Unit` an ordered sequence of comment and message fragments. Values are
  nullable, as in the C# object model; rendering to PO text is not modelled.
 */
module PoDocument {
  import opened Options

  datatype CommentType = Translator | Extracted | Reference | Flag

  datatype MessageType = Context | SingularIdentifier | PluralIdentifier | SingularString | PluralString

  /** One `Comment` or `Message` object of a unit. `pluralOrder` is the
      `PluralOrder` property, which is 0 unless the generator sets it. */
  datatype Fragment =
    | Comment(commentType: CommentType, value: Option<string>)
    | Message(messageType: MessageType, pluralOrder: int, value: Option<string>)
  {
    /** A translated-string message (`msgstr` or `msgstr[n]`). */
    predicate IsTranslation() {
      Message? && (messageType == SingularString || messageType == PluralString)
    }
  }

  type Unit = seq<Fragment>

  type Document = seq<Unit>

  /** Values of the comments of type `t` in `u`, in order. */
  function CommentsOf(u: Unit, t: CommentType): seq<Option<string>> {
    if |u| == 0 then []
    else (if u[0].Comment? && u[0].commentType == t then [u[0].value] else []) + CommentsOf(u[1..], t)
  }

  /** `(PluralOrder, Value)` of the messages of type `t` in `u`, in order. */
  function MessagesOf(u: Unit, t: MessageType): seq<(int, Option<string>)> {
    if |u| == 0 then []
    else (if u[0].Message? && u[0].messageType == t then [(u[0].pluralOrder, u[0].value)] else [])
         + MessagesOf(u[1..], t)
  }

  /** Values only of a sequence of `(PluralOrder, Value)` pairs. */
  function Values(ms: seq<(int, Option<string>)>): (r: seq<Option<string>>)
    ensures |r| == |ms|
    ensures forall i :: 0 <= i < |ms| ==> r[i] == ms[i].1
  {
    if |ms| == 0 then [] else [ms[0].1] + Values(ms[1..])
  }

  lemma {:induction false} CommentsOfAppend(a: Unit, b: Unit, t: CommentType)
    ensures CommentsOf(a + b, t) == CommentsOf(a, t) + CommentsOf(b, t)
  {
    if |a| > 0 {
      assert (a + b)[1..] == a[1..] + b;
      CommentsOfAppend(a[1..], b, t);
    } else {
      assert a + b == b;
    }
  }

  lemma {:induction false} MessagesOfAppend(a: Unit, b: Unit, t: MessageType)
    ensures MessagesOf(a + b, t) == MessagesOf(a, t) + MessagesOf(b, t)
  {
    if |a| > 0 {
      assert (a + b)[1..] == a[1..] + b;
      MessagesOfAppend(a[1..], b, t);
    } else {
      assert a + b == b;
    }
  }

  /** One unit's fragments read back field by field, grouped by fragment
      type in unit order, irrespective of where each fragment stands. Null
      values are kept as `None`; how a PO renderer would drop them is not
      part of this view. */
  datatype EntryView = EntryView(
    translatorComments: seq<Option<string>>,
    extractedComments: seq<Option<string>>,
    references: seq<Option<string>>,
    flags: seq<Option<string>>,
    contexts: seq<Option<string>>,
    singularIds: seq<Option<string>>,
    pluralIds: seq<Option<string>>,
    singularStrings: seq<Option<string>>,
    pluralStrings: seq<(int, Option<string>)>)

  function ReadUnit(u: Unit): EntryView {
    EntryView(
      CommentsOf(u, Translator),
      CommentsOf(u, Extracted),
      CommentsOf(u, Reference),
      CommentsOf(u, Flag),
      Values(MessagesOf(u, Context)),
      Values(MessagesOf(u, SingularIdentifier)),
      Values(MessagesOf(u, PluralIdentifier)),
      Values(MessagesOf(u, SingularString)),
      MessagesOf(u, PluralString))
  }

  /** The fields of two views, each concatenated. */
  function Concat(a: EntryView, b: EntryView): EntryView {
    EntryView(
      a.translatorComments + b.translatorComments,
      a.extractedComments + b.extractedComments,
      a.references + b.references,
      a.flags + b.flags,
      a.contexts + b.contexts,
      a.singularIds + b.singularIds,
      a.pluralIds + b.pluralIds,
      a.singularStrings + b.singularStrings,
      a.pluralStrings + b.pluralStrings)
  }

  lemma ValuesAppend(a: seq<(int, Option<string>)>, b: seq<(int, Option<string>)>)
    ensures Values(a + b) == Values(a) + Values(b)
  {
    var l, r := Values(a + b), Values(a) + Values(b);
    forall i | 0 <= i < |l| ensures l[i] == r[i] {
      if i < |a| {
        assert (a + b)[i] == a[i];
      } else {
        assert (a + b)[i] == b[i - |a|];
      }
    }
  }

  lemma ReadUnitAppend(a: Unit, b: Unit)
    ensures ReadUnit(a + b) == Concat(ReadUnit(a), ReadUnit(b))
  {
    CommentsOfAppend(a, b, Translator);
    CommentsOfAppend(a, b, Extracted);
    CommentsOfAppend(a, b, Reference);
    CommentsOfAppend(a, b, Flag);
    MessagesOfAppend(a, b, Context);
    MessagesOfAppend(a, b, SingularIdentifier);
    MessagesOfAppend(a, b, PluralIdentifier);
    MessagesOfAppend(a, b, SingularString);
    MessagesOfAppend(a, b, PluralString);
    ValuesAppend(MessagesOf(a, Context), MessagesOf(b, Context));
    ValuesAppend(MessagesOf(a, SingularIdentifier), MessagesOf(b, SingularIdentifier));
    ValuesAppend(MessagesOf(a, PluralIdentifier), MessagesOf(b, PluralIdentifier));
    ValuesAppend(MessagesOf(a, SingularString), MessagesOf(b, SingularString));
  }

  /** The view of a one-fragment unit. */
  lemma ReadOne(f: Fragment)
    ensures ReadUnit([f]) == EntryView(
      if f == Comment(Translator, f.value) then [f.value] else [],
      if f == Comment(Extracted, f.value) then [f.value] else [],
      if f == Comment(Reference, f.value) then [f.value] else [],
      if f == Comment(Flag, f.value) then [f.value] else [],
      if f.Message? && f.messageType == Context then [f.value] else [],
      if f.Message? && f.messageType == SingularIdentifier then [f.value] else [],
      if f.Message? && f.messageType == PluralIdentifier then [f.value] else [],
      if f.Message? && f.messageType == SingularString then [f.value] else [],
      if f.Message? && f.messageType == PluralString then [(f.pluralOrder, f.value)] else [])
  {
    assert [f][1..] == [];
    forall t ensures CommentsOf([f], t) == if f.Comment? && f.commentType == t then [f.value] else [] {
      assert CommentsOf([], t) == [];
    }
    forall t ensures MessagesOf([f], t) == if f.Message? && f.messageType == t then [(f.pluralOrder, f.value)] else [] {
      assert MessagesOf([], t) == [];
    }
  }

  /** A unit made of messages of one type `t` reads back as those messages. */
  lemma {:induction false} ReadUniformMessages(u: Unit, t: MessageType)
    requires forall i :: 0 <= i < |u| ==> u[i].Message? && u[i].messageType == t
    ensures MessagesOf(u, t) == seq(|u|, i requires 0 <= i < |u| => (u[i].pluralOrder, u[i].value))
    ensures forall t' :: t' != t ==> MessagesOf(u, t') == []
    ensures forall c :: CommentsOf(u, c) == []
  {
    if |u| > 0 {
      ReadUniformMessages(u[1..], t);
      var rest := seq(|u| - 1, i requires 0 <= i < |u| - 1 => (u[1..][i].pluralOrder, u[1..][i].value));
      assert [(u[0].pluralOrder, u[0].value)] + rest
          == seq(|u|, i requires 0 <= i < |u| => (u[i].pluralOrder, u[i].value));
    }
  }

  /** A unit made of comments of one type `t` reads back as their values. */
  lemma {:induction false} ReadUniformComments(u: Unit, t: CommentType)
    requires forall i :: 0 <= i < |u| ==> u[i].Comment? && u[i].commentType == t
    ensures CommentsOf(u, t) == seq(|u|, i requires 0 <= i < |u| => u[i].value)
    ensures forall t' :: t' != t ==> CommentsOf(u, t') == []
    ensures forall m :: MessagesOf(u, m) == []
  {
    if |u| > 0 {
      ReadUniformComments(u[1..], t);
      var rest := seq(|u| - 1, i requires 0 <= i < |u| - 1 => u[1..][i].value);
      assert [u[0].value] + rest == seq(|u|, i requires 0 <= i < |u| => u[i].value);
    }
  }

  /** Position of a fragment in the layout of an entry unit: translator
      comment, extracted comment, references, flag, context, msgid,
      msgid_plural, then the translated strings. */
  function Rank(f: Fragment): nat {
    match f
    case Comment(t, _) =>
      (match t
       case Translator => 0
       case Extracted => 1
       case Reference => 2
       case Flag => 3)
    case Message(t, _, _) =>
      (match t
       case Context => 4
       case SingularIdentifier => 5
       case PluralIdentifier => 6
       case SingularString => 7
       case PluralString => 7)
  }

  /** The fragments of `u` follow the entry layout. */
  ghost predicate InEntryOrder(u: Unit) {
    forall i, j :: 0 <= i < j < |u| ==> Rank(u[i]) <= Rank(u[j])
  }
}
