/** What both managers' `save_to_file` and `load_from_file` do with their
    file: the whole list is written under one key of a JSON object, and a
    load replaces the list with the file's, all or nothing. The two stores
    differ only in the key and in the record mapping of their entity. */
module Persistence {
  import opened Outcomes
  import opened Documents

  const NoFileMessage := "No saved file found."
  const CorruptMessage := "Json file is corrupted."
  const StructureMessage := "Json structure missing."

  /** `[item.to_dict() for item in items]`. */
  function ToDicts<R>(items: seq<R>, toDict: R -> Entry): (entries: seq<Entry>)
    ensures |entries| == |items|
    ensures forall i :: 0 <= i < |items| ==> entries[i] == toDict(items[i])
  {
    seq(|items|, i requires 0 <= i < |items| => toDict(items[i]))
  }

  /** `[R.from_dict(entry) for entry in entries]`: `None` when some record
      cannot be converted (the comprehension raises `KeyError` part-way). */
  function FromDicts<R>(entries: seq<Entry>, fromDict: Entry -> Option<R>): (r: Option<seq<R>>)
    ensures r.Some? <==> forall i :: 0 <= i < |entries| ==> fromDict(entries[i]).Some?
    ensures r.Some? ==> |r.value| == |entries|
    ensures r.Some? ==> forall i :: 0 <= i < |entries| ==> fromDict(entries[i]) == Some(r.value[i])
  {
    if entries == [] then Some([])
    else match (fromDict(entries[0]), FromDicts(entries[1..], fromDict))
      case (Some(x), Some(rest)) => Some([x] + rest)
      case _ => None
  }

  /** `save_to_file`: the whole list, record by record, under `key`. */
  function Save<R>(key: string, items: seq<R>, toDict: R -> Entry): (doc: Doc)
    ensures doc.Json? && doc.root.Keys == {key}
    ensures |doc.root[key]| == |items|
    ensures forall i :: 0 <= i < |items| ==> doc.root[key][i] == toDict(items[i])
  {
    Json(map[key := ToDicts(items, toDict)])
  }

  /** `load_from_file`: a file that is wrong keeps the list the manager
      had. A missing file and a corrupt file each have their own message; a
      missing list key and a record missing a key share "Json structure
      missing.", since both surface as `KeyError`. Otherwise the list
      becomes the file's records, converted. Loaded records are not
      validated. */
  function Load<R>(current: seq<R>, doc: Doc, key: string, fromDict: Entry -> Option<R>): (r: Step<R>)
    ensures doc.NoFile? ==> r == Step(current, Refused(NoFileMessage))
    ensures doc.NotJson? ==> r == Step(current, Refused(CorruptMessage))
    ensures doc.Json? && key !in doc.root ==> r == Step(current, Refused(StructureMessage))
    ensures r.outcome.Refused? ==> r.items == current
    ensures doc.Json? && key in doc.root && r.outcome.Refused? ==> r.outcome == Refused(StructureMessage)
    ensures r.outcome.Applied? ==>
              && doc.Json? && key in doc.root
              && r.outcome == Applied(false)
              && |r.items| == |doc.root[key]|
              && forall i :: 0 <= i < |r.items| ==> fromDict(doc.root[key][i]) == Some(r.items[i])
    ensures doc.Json? && key in doc.root ==>
              (r.outcome.Applied? <==> forall i :: 0 <= i < |doc.root[key]| ==> fromDict(doc.root[key][i]).Some?)
  {
    match doc
    case NoFile => Step(current, Refused(NoFileMessage))
    case NotJson => Step(current, Refused(CorruptMessage))
    case Json(root) =>
      if key !in root then Step(current, Refused(StructureMessage))
      else match FromDicts(root[key], fromDict)
        case None => Step(current, Refused(StructureMessage))
        case Some(loaded) => Step(loaded, Applied(false))
  }

  /** The file after a mutating call: rewritten with the new list exactly
      when the call saved. */
  function FileAfter<R>(file: Doc, r: Step<R>, key: string, toDict: R -> Entry): (after: Doc) {
    if r.outcome == Applied(true) then Save(key, r.items, toDict) else file
  }

  /** When the record mapping round-trips, loading what was saved gives
      back the same list. */
  lemma {:induction false} LoadSaved<R>(current: seq<R>, items: seq<R>, key: string,
                                        toDict: R -> Entry, fromDict: Entry -> Option<R>)
    requires forall x :: fromDict(toDict(x)) == Some(x)
    ensures Load(current, Save(key, items, toDict), key, fromDict) == Step(items, Applied(false))
  {
    var entries := Save(key, items, toDict).root[key];
    assert forall i :: 0 <= i < |entries| ==> fromDict(entries[i]) == Some(items[i]);
    var loaded := FromDicts(entries, fromDict);
    assert loaded.Some?;
    assert loaded.value == items;
  }
}
