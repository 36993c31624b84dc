/** The two-stage filter of `UI.renderPeopleList` (app.js:312-331): tag filter, then text search. */
module Query {
  import opened Wrappers
  import opened Seqs
  import opened People
  import opened Text

  /** The tag filter is active: `AppState.filterTag` is a non-empty string (truthy). */
  predicate TagFilterOn(filterTag: Option<string>)
    ensures TagFilterOn(filterTag) ==> filterTag.Some?
    ensures filterTag == None || filterTag == Some("") ==> !TagFilterOn(filterTag)
  {
    filterTag.Some? && filterTag.value != ""
  }

  /**
   * The search test for an already lower-cased query `q`: it occurs in the lower-cased
   * name, in some lower-cased tag, or in a non-empty lower-cased memo.
   */
  predicate MatchesQuery(p: Person, q: string): (m: bool)
    ensures q == [] ==> m
  {
    || Contains(Lower(p.name), q)
    || (exists t :: t in p.tags && Contains(Lower(t), q))
    || (p.memo != "" && Contains(Lower(p.memo), q))
  }

  /** Step 1: `people.filter(p => p.tags.includes(filterTag))` when the filter is on. */
  function ByTag(people: seq<Person>, filterTag: Option<string>): (r: seq<Person>)
    ensures TagFilterOn(filterTag) ==> forall p :: p in r <==> p in people && filterTag.value in p.tags
    ensures TagFilterOn(filterTag) ==> forall p {:trigger multiset(r)[p]} ::
      multiset(r)[p] == if filterTag.value in p.tags then multiset(people)[p] else 0
    ensures !TagFilterOn(filterTag) ==> r == people
  {
    if TagFilterOn(filterTag) then Filter(people, (p: Person) => filterTag.value in p.tags) else people
  }

  /**
   * The list the home screen shows: a subsequence of `people` in its original order;
   * with the tag filter on, only people carrying that exact tag; an empty query keeps
   * the tag step's result as it is; a non-empty query keeps exactly the tag step's
   * people that match the lower-cased query, every copy of them.
   */
  function View(people: seq<Person>, filterTag: Option<string>, searchQuery: string): (r: seq<Person>)
    ensures IsSubseq(r, people)
    ensures TagFilterOn(filterTag) ==> forall p :: p in r ==> filterTag.value in p.tags
    ensures searchQuery == "" ==> r == ByTag(people, filterTag)
    ensures searchQuery != "" ==>
      forall p :: p in r <==> p in ByTag(people, filterTag) && MatchesQuery(p, Lower(searchQuery))
    ensures searchQuery != "" ==> forall p {:trigger multiset(r)[p]} ::
      multiset(r)[p] == if MatchesQuery(p, Lower(searchQuery)) then multiset(ByTag(people, filterTag))[p] else 0
  {
    var byTag := ByTag(people, filterTag);
    var q := Lower(searchQuery);
    var r := if searchQuery != "" then Filter(byTag, (p: Person) => MatchesQuery(p, q)) else byTag;
    assert IsSubseq(byTag, people) by {
      if TagFilterOn(filterTag) {
        FilterIsSubseq(people, (p: Person) => filterTag.value in p.tags);
      } else {
        SubseqReflexive(people);
      }
    }
    assert IsSubseq(r, byTag) by {
      if searchQuery != "" {
        FilterIsSubseq(byTag, (p: Person) => MatchesQuery(p, q));
      } else {
        SubseqReflexive(byTag);
      }
    }
    SubseqTransitive(r, byTag, people);
    r
  }

  /** Adding a search query only narrows the tag-filtered list, keeping its order. */
  lemma SearchNarrowsTagView(people: seq<Person>, filterTag: Option<string>, searchQuery: string)
    ensures IsSubseq(View(people, filterTag, searchQuery), View(people, filterTag, ""))
  {
    var byTag := ByTag(people, filterTag);
    if searchQuery != "" {
      FilterIsSubseq(byTag, (p: Person) => MatchesQuery(p, Lower(searchQuery)));
    } else {
      SubseqReflexive(byTag);
    }
  }

  /** Searching "fri" finds a person tagged "friend". */
  lemma SearchFindsTagPrefix(p: Person)
    requires "friend" in p.tags
    ensures MatchesQuery(p, Lower("fri"))
  {
    assert Lower("fri") == "fri";
    assert Lower("friend") == "friend";
    assert IsPrefix("fri", "friend"[0..]);
  }
}
