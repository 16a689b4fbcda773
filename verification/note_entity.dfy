/** The `Note` class of the note store: one record, its validators and its
    record mapping. */
module NoteEntity {
  import opened Outcomes
  import opened Documents
  import Text
  import Dates
  import Validation

  /** The defaults `add_note` and `Note(...)` use. */
  const DefaultTopic := "Nameless."
  const DefaultNote := ""

  /** A note. Nothing is checked when one is built. */
  datatype Note = Note(id: Val, category: string, date: string, topic: string, note: string)

  const EntryHeader := "Invalid note entry: "
  const Separator := " | "
  /** Unlike the task store's, this message has no final period. */
  const IdMessage := "ID must be a number"
  /** The category check reports itself as a topic check. */
  const CategoryMessage := "Topic must be a non-empty string."
  const DateMessage := "Date must be in YYYY-MM-DD format."

  /** `validate_id`: the id must be an integer. */
  function ValidateId(id: Val): (r: Option<string>)
    ensures r.None? <==> id.IntV?
    ensures r.Some? ==> r.value == IdMessage
  {
    if !id.IntV? then Some(IdMessage) else None
  }

  /** `validate_category`: the category must not be empty once whitespace
      is stripped. */
  function ValidateCategory(category: string): (r: Option<string>)
    ensures r.None? <==> !Text.IsBlank(category)
    ensures r.Some? ==> r.value == CategoryMessage
  {
    Text.StripEmptyIffBlank(category);
    if Text.Strip(category) == [] then Some(CategoryMessage) else None
  }

  /** `validate_date`: the date must be a `YYYY-MM-DD` date. */
  function ValidateDate(date: string): (r: Option<string>)
    ensures r.None? <==> Dates.ParseDate(date).Some?
    ensures r.Some? ==> r.value == DateMessage
  {
    if !Dates.IsDate(date) then Some(DateMessage) else None
  }

  /** `validate_all`: the three validators run in the order category, date,
      id, and every failure is reported, joined by " | " after the header
      "Invalid note entry: ". */
  function ValidateAll(n: Note): (r: Verdict)
    ensures r.Valid? <==> !Text.IsBlank(n.category) && Dates.IsDate(n.date) && n.id.IntV?
  {
    var x, y, z := ValidateCategory(n.category), ValidateDate(n.date), ValidateId(n.id);
    Validation.ReportThreeValid(EntryHeader, Separator, x, y, z);
    Validation.Report(EntryHeader, Separator, [x, y, z])
  }

  /** The message of every failing combination: each failing validator's
      message appears, in the order category, date, id. */
  lemma ValidateAllMessages(n: Note)
    ensures Text.IsBlank(n.category) && Dates.IsDate(n.date) && n.id.IntV? ==>
              ValidateAll(n) == Invalid(EntryHeader + CategoryMessage)
    ensures !Text.IsBlank(n.category) && !Dates.IsDate(n.date) && n.id.IntV? ==>
              ValidateAll(n) == Invalid(EntryHeader + DateMessage)
    ensures !Text.IsBlank(n.category) && Dates.IsDate(n.date) && !n.id.IntV? ==>
              ValidateAll(n) == Invalid(EntryHeader + IdMessage)
    ensures Text.IsBlank(n.category) && !Dates.IsDate(n.date) && n.id.IntV? ==>
              ValidateAll(n) == Invalid(EntryHeader + CategoryMessage + Separator + DateMessage)
    ensures Text.IsBlank(n.category) && Dates.IsDate(n.date) && !n.id.IntV? ==>
              ValidateAll(n) == Invalid(EntryHeader + CategoryMessage + Separator + IdMessage)
    ensures !Text.IsBlank(n.category) && !Dates.IsDate(n.date) && !n.id.IntV? ==>
              ValidateAll(n) == Invalid(EntryHeader + DateMessage + Separator + IdMessage)
    ensures Text.IsBlank(n.category) && !Dates.IsDate(n.date) && !n.id.IntV? ==>
              ValidateAll(n) == Invalid(EntryHeader + CategoryMessage + Separator + DateMessage + Separator + IdMessage)
  {
    Validation.ReportThree(EntryHeader, Separator, ValidateCategory(n.category), ValidateDate(n.date), ValidateId(n.id));
  }

  const IdKey := "id"
  const CategoryKey := "category"
  const DateKey := "date"
  const TopicKey := "topic"
  const NoteKey := "note"

  /** `to_dict`. */
  function ToDict(n: Note): (e: Entry)
    ensures e.Keys == {IdKey, CategoryKey, DateKey, TopicKey, NoteKey}
    ensures e[IdKey] == n.id
    ensures e[CategoryKey] == StrV(n.category) && e[DateKey] == StrV(n.date)
    ensures e[TopicKey] == StrV(n.topic) && e[NoteKey] == StrV(n.note)
  {
    map[IdKey := n.id, CategoryKey := StrV(n.category), DateKey := StrV(n.date),
        TopicKey := StrV(n.topic), NoteKey := StrV(n.note)]
  }

  /** `from_dict`: `None` where a key is missing (the `KeyError` case). Extra
      keys are ignored. */
  function FromDict(e: Entry): (r: Option<Note>)
    ensures r.Some? <==>
              IdKey in e && HasText(e, CategoryKey) && HasText(e, DateKey)
              && HasText(e, TopicKey) && HasText(e, NoteKey)
    ensures r.Some? ==> forall k :: k in ToDict(r.value) ==> k in e && e[k] == ToDict(r.value)[k]
  {
    if IdKey in e && HasText(e, CategoryKey) && HasText(e, DateKey)
       && HasText(e, TopicKey) && HasText(e, NoteKey)
    then Some(Note(e[IdKey], e[CategoryKey].s, e[DateKey].s, e[TopicKey].s, e[NoteKey].s))
    else None
  }

  /** `from_dict(to_dict(n))` is `n`, field for field. */
  lemma FromToDict(n: Note)
    ensures FromDict(ToDict(n)) == Some(n)
  {
  }

  /** The attribute names `search_by_attribute` can be given. */
  datatype Attr = IdAttr | CategoryAttr | DateAttr | TopicAttr | NoteAttr {
    function Name(): (name: string) {
      match this
      case IdAttr => IdKey
      case CategoryAttr => CategoryKey
      case DateAttr => DateKey
      case TopicAttr => TopicKey
      case NoteAttr => NoteKey
    }
  }

  /** `getattr(n, a.Name())`, as the value it is compared with. */
  function Get(n: Note, a: Attr): (v: Val)
    ensures v == ToDict(n)[a.Name()]
  {
    match a
    case IdAttr => n.id
    case CategoryAttr => StrV(n.category)
    case DateAttr => StrV(n.date)
    case TopicAttr => StrV(n.topic)
    case NoteAttr => StrV(n.note)
  }
}
