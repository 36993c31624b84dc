/**
 * The application state of app.js (`AppState.people`, `AppState.filterTag`,
 * `DataManager.pendingImportData` and the `localStorage` slot behind `Storage`) and
 * the operations that change it.
 */
module Repository {
  import opened Wrappers
  import opened Seqs
  import opened People
  import opened Text
  import opened TagIndex
  import opened Query
  import opened BackupCodec
  import opened ImportReconciler

  /** `AppState.gradients`: the palette a new person's fallback avatar colour is drawn from. */
  const Gradients: seq<string> :=
    ["bg-gradient-1", "bg-gradient-2", "bg-gradient-3", "bg-gradient-4", "bg-gradient-5", "bg-gradient-6"]

  /** `avatarBase64 || null`: an empty form field means no avatar. */
  function AvatarOf(input: string): (a: Option<string>)
    ensures a.None? <==> input == ""
    ensures a.Some? ==> a.value == input
  {
    if input == "" then None else Some(input)
  }

  class App {
    /** `AppState.people`: the live list, newest first. */
    var people: seq<Person>
    /** `AppState.filterTag`: the tag the home list is narrowed to, or None. */
    var filterTag: Option<string>
    /** `DataManager.pendingImportData`: validated candidates awaiting merge or overwrite. */
    var pendingImport: Option<seq<Person>>
    /** The snapshot under the storage key: None until something has been saved. */
    var stored: Option<seq<Person>>

    /** The state at page load, before `Storage.load` runs, over whatever the browser has stored. */
    constructor (stored: Option<seq<Person>>)
      ensures people == [] && filterTag == None && pendingImport == None
      ensures this.stored == stored
    {
      people := [];
      filterTag := None;
      pendingImport := None;
      this.stored := stored;
    }

    /** `Storage.save` (app.js:32-34): the whole list becomes the stored snapshot. */
    method Save()
      modifies this`stored
      ensures stored == Some(people)
    {
      stored := Some(people);
    }

    /** `Storage.load` (app.js:23-30): the stored snapshot, or an empty list when there is none. */
    method Load()
      modifies this`people
      ensures stored.Some? ==> people == stored.value
      ensures stored.None? ==> people == []
    {
      if stored.Some? {
        people := stored.value;
      } else {
        people := [];
      }
    }

    /**
     * `readImportFile` and the count part of `showImportModal` (app.js:75-114): a valid
     * document becomes the pending import and yields its preview counts against the
     * live list; a rejected one leaves the pending import as it was.
     */
    method ReadImportFile(parsed: Option<Document>) returns (outcome: Result<PreviewCounts, ImportError>)
      modifies this`pendingImport
      ensures Validate(parsed).Failure? ==>
        outcome == Failure(Validate(parsed).error) && pendingImport == old(pendingImport)
      ensures Validate(parsed).Success? ==>
        && pendingImport == Some(Validate(parsed).value)
        && outcome == Success(Preview(people, Validate(parsed).value))
    {
      var validated := Validate(parsed);
      if validated.Failure? {
        return Failure(validated.error);
      }
      pendingImport := Some(validated.value);
      outcome := Success(Preview(people, validated.value));
    }

    /** `hideImportModal` (app.js:125-130): the pending import is dropped. */
    method HideImportModal()
      modifies this`pendingImport
      ensures pendingImport == None
    {
      pendingImport := None;
    }

    /**
     * `importMerge` (app.js:133-160). With nothing pending it does nothing. Otherwise
     * each candidate in turn replaces the first live record with its id, when the id was
     * live before the merge began, and is appended when it was not; the list is saved,
     * the pending import dropped, and the two counts equal the preview's.
     */
    method ImportMerge() returns (added: nat, updated: nat)
      modifies this`people, this`stored, this`pendingImport
      ensures old(pendingImport).None? ==>
        people == old(people) && stored == old(stored) && pendingImport == None && added == 0 && updated == 0
      ensures old(pendingImport).Some? ==>
        var cands := old(pendingImport).value;
        && people == Merged(old(people), cands)
        && added == Preview(old(people), cands).newCount
        && updated == Preview(old(people), cands).updateCount
        && stored == Some(people)
        && pendingImport == None
      ensures old(pendingImport).Some? && UniqueIds(old(people)) && UniqueIds(NewOf(old(people), old(pendingImport).value))
        ==> UniqueIds(people)
    {
      added, updated := 0, 0;
      if pendingImport.None? {
        return;
      }
      ghost var live := people;
      var cands := pendingImport.value;
      added, updated := MergeEach(cands);
      if UniqueIds(live) && UniqueIds(NewOf(live, cands)) {
        MergeKeepsIdsUnique(live, cands);
      }
      Save();
      HideImportModal();
    }

    /**
     * The `forEach` of `importMerge` (app.js:136-153): the ids live before it starts
     * decide, for each candidate in turn, whether it overwrites the first live record
     * with its id or is pushed at the end.
     */
    method MergeEach(cands: seq<Person>) returns (added: nat, updated: nat)
      modifies this`people
      ensures people == Merged(old(people), cands)
      ensures added == Preview(old(people), cands).newCount
      ensures updated == Preview(old(people), cands).updateCount
    {
      added, updated := 0, 0;
      var existing := Ids(people);
      ghost var live := people;
      var i := 0;
      ghost var done: seq<Person> := [];
      while i < |cands|
        invariant 0 <= i <= |cands| && done == cands[..i]
        invariant people == Merged(live, done)
        invariant added == |NewOf(live, done)| && updated == |MatchedOf(live, done)|
      {
        var imported := cands[i];
        var isNew, isUpdate := MergeImported(imported, existing);
        assert people == Merged(live, done + [imported])
          && |NewOf(live, done + [imported])| == added + (if isNew then 1 else 0)
          && |MatchedOf(live, done + [imported])| == updated + (if isUpdate then 1 else 0) by {
          MergeTurn(live, done, imported);
        }
        if isNew {
          added := added + 1;
        }
        if isUpdate {
          updated := updated + 1;
        }
        TakeOneMore(cands, i);
        done := done + [imported];
        i := i + 1;
      }
      assert cands[..i] == cands;
    }

    /**
     * The callback of that `forEach` (app.js:140-152) for one candidate, as `MergeOne`
     * states it; the flags say which counter it bumps.
     */
    method MergeImported(imported: Person, existing: set<string>) returns (isNew: bool, isUpdate: bool)
      modifies this`people
      ensures people == MergeOne(existing, old(people), imported)
      ensures isNew <==> imported.id !in existing
      ensures isUpdate <==> imported.id in existing && FirstIndex(old(people), imported.id) != -1
    {
      isNew, isUpdate := false, false;
      if imported.id in existing {
        var idx := FirstIndex(people, imported.id);
        if idx != -1 {
          people := people[idx := imported];
          isUpdate := true;
        }
      } else {
        people := people + [imported];
        isNew := true;
      }
    }

    /**
     * `importOverwrite` (app.js:163-177). With something pending and the confirmation
     * given, the list becomes exactly the candidates, is saved, and the pending import is
     * dropped; otherwise nothing changes.
     */
    method ImportOverwrite(confirmed: bool)
      modifies this`people, this`stored, this`pendingImport
      ensures old(pendingImport).None? || !confirmed ==>
        people == old(people) && stored == old(stored) && pendingImport == old(pendingImport)
      ensures old(pendingImport).Some? && confirmed ==>
        people == old(pendingImport).value && stored == Some(people) && pendingImport == None
    {
      if pendingImport.None? {
        return;
      }
      if !confirmed {
        return;
      }
      people := pendingImport.value;
      Save();
      HideImportModal();
    }

    /**
     * `UI.savePerson` (app.js:477-509). An empty form id adds a new record, with the
     * fresh id and the drawn palette colour, at the front. A non-empty one, which must be
     * live, replaces the first record with that id in place, keeping its colour. Either
     * way the tags are parsed from the input, the list is saved, and unique ids stay
     * unique.
     */
    method SavePerson(formId: string, name: string, tagsInput: string, memo: string, avatarInput: string,
                      freshId: string, gradientPick: nat, now: string)
      requires formId != "" ==> formId in Ids(people)
      requires formId == "" ==> freshId !in Ids(people)
      requires gradientPick < |Gradients|
      modifies this`people, this`stored
      ensures formId == "" ==>
        people == [Person(freshId, name, ParseTags(tagsInput), memo, AvatarOf(avatarInput), Gradients[gradientPick], now)]
                  + old(people)
      ensures formId != "" ==>
        var k := FirstIndex(old(people), formId);
        people == old(people)[k := Person(formId, name, ParseTags(tagsInput), memo, AvatarOf(avatarInput),
                                          old(people)[k].colorVariant, now)]
      ensures |people| == |old(people)| + (if formId == "" then 1 else 0)
      ensures Ids(people) == Ids(old(people)) + (if formId == "" then {freshId} else {})
      ensures UniqueIds(old(people)) ==> UniqueIds(people)
      ensures stored == Some(people)
    {
      var id := if formId != "" then formId else freshId;
      var colorVariant := if formId != "" then people[FirstIndex(people, formId)].colorVariant else Gradients[gradientPick];
      var personData := Person(id, name, ParseTags(tagsInput), memo, AvatarOf(avatarInput), colorVariant, now);
      if formId != "" {
        var index := FirstIndex(people, formId);
        if index != -1 {
          ReplaceKeepsIds(people, index, personData);
          people := people[index := personData];
        }
      } else {
        PrependIds(personData, people);
        people := [personData] + people;
      }
      Save();
    }

    /**
     * `UI.deletePerson` (app.js:512-518): with the confirmation given, every record with
     * that id is removed, the rest keep their order, and the list is saved; declined,
     * nothing changes.
     */
    method DeletePerson(id: string, confirmed: bool)
      modifies this`people, this`stored
      ensures !confirmed ==> people == old(people) && stored == old(stored)
      ensures confirmed ==>
        && people == RemoveId(old(people), id)
        && id !in Ids(people)
        && IsSubseq(people, old(people))
        && stored == Some(people)
      ensures UniqueIds(old(people)) ==> UniqueIds(people)
    {
      if confirmed {
        RemoveIdMeaning(people, id);
        ghost var before := people;
        people := RemoveId(people, id);
        if UniqueIds(before) {
          SubseqKeepsUnique(people, before);
        }
        Save();
      }
    }

    /** A tag badge on the tags screen was tapped (app.js:552-555): the home list is narrowed to it. */
    method SelectTag(tag: string)
      modifies this`filterTag
      ensures filterTag == Some(tag)
    {
      filterTag := Some(tag);
    }

    /** `UI.clearFilter` (app.js:562-565): the tag filter is removed. */
    method ClearFilter()
      modifies this`filterTag
      ensures filterTag == None
    {
      filterTag := None;
    }

    /**
     * The records `renderPeopleList` draws (app.js:312-331): the view of the live list
     * under the current tag filter and the search box's text, the list itself untouched.
     */
    method RenderPeopleList(searchQuery: string) returns (shown: seq<Person>)
      ensures shown == View(people, filterTag, searchQuery)
      ensures IsSubseq(shown, people)
      ensures IsSubseq(shown, View(people, filterTag, ""))
    {
      SearchNarrowsTagView(people, filterTag, searchQuery);
      shown := View(people, filterTag, searchQuery);
    }

    /**
     * The badges `renderAllTags` draws (app.js:521-559): every tag in use once, in
     * ascending order, each with the number of people carrying it, which is never zero.
     */
    method RenderAllTags() returns (badges: seq<(string, nat)>)
      ensures forall t :: (exists i :: 0 <= i < |badges| && badges[i].0 == t) <==> TagUsed(people, t)
      ensures forall i, j :: 0 <= i < j < |badges| ==> Less(badges[i].0, badges[j].0)
      ensures forall i :: 0 <= i < |badges| ==> badges[i].1 == TagCount(people, badges[i].0) >= 1
    {
      var tags := UniqueTags(people);
      badges := [];
      for i := 0 to |tags|
        invariant |badges| == i
        invariant forall k :: 0 <= k < i ==> badges[k] == (tags[k], TagCount(people, tags[k]))
      {
        badges := badges + [(tags[i], TagCount(people, tags[i]))];
      }
      forall t ensures (exists i :: 0 <= i < |badges| && badges[i].0 == t) <==> t in tags {
        if t in tags {
          var i :| 0 <= i < |tags| && tags[i] == t;
          assert badges[i].0 == t;
        }
      }
      ListedTagsCounted(people, tags);
      forall i | 0 <= i < |badges| ensures TagCount(people, badges[i].0) >= 1 {
        assert tags[i] in tags;
      }
    }
  }
}
