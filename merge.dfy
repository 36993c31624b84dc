/**
 * The import reconciler: the preview counts of `showImportModal` (app.js:111-113) and
 * the result of `importMerge` (app.js:133-160), stated declaratively.
 */
module ImportReconciler {
  import opened Wrappers
  import opened Seqs
  import opened People

  /** Candidates whose id the live list does not hold: they are appended. */
  function NewOf(live: seq<Person>, cands: seq<Person>): seq<Person> {
    Filter(cands, (c: Person) => c.id !in Ids(live))
  }

  /** Candidates whose id the live list holds: they replace a live record. */
  function MatchedOf(live: seq<Person>, cands: seq<Person>): seq<Person> {
    Filter(cands, (c: Person) => c.id in Ids(live))
  }

  /** The two numbers the import dialog shows before the user decides. */
  datatype PreviewCounts = PreviewCounts(newCount: nat, updateCount: nat)

  /**
   * `newCount` counts the candidates whose id is absent from the live list and
   * `updateCount` those whose id is present; together they count every candidate.
   */
  function Preview(live: seq<Person>, cands: seq<Person>): (r: PreviewCounts)
    ensures r.newCount == |NewOf(live, cands)| && r.updateCount == |MatchedOf(live, cands)|
    ensures r.newCount + r.updateCount == |cands|
  {
    PartitionCount(live, cands);
    PreviewCounts(|NewOf(live, cands)|, |MatchedOf(live, cands)|)
  }

  lemma {:induction false} PartitionCount(live: seq<Person>, cands: seq<Person>)
    ensures |NewOf(live, cands)| + |MatchedOf(live, cands)| == |cands|
    decreases |cands|
  {
    if cands != [] {
      var init, c := cands[..|cands| - 1], cands[|cands| - 1];
      assert cands == init + [c];
      PartitionCount(live, init);
      FilterAppend(init, c, (c: Person) => c.id !in Ids(live));
      FilterAppend(init, c, (c: Person) => c.id in Ids(live));
    }
  }

  /** `c` occurs in `cands` at a position after which no candidate carries `id`. */
  predicate IsLastWith(cands: seq<Person>, id: string, c: Person) {
    exists k :: 0 <= k < |cands| && cands[k] == c && forall j :: k < j < |cands| ==> cands[j].id != id
  }

  lemma LastWithAppend(cands: seq<Person>, c: Person, id: string)
    ensures LastWith(cands + [c], id) == if c.id == id then Some(c) else LastWith(cands, id)
  {
    assert (cands + [c])[..|cands|] == cands;
  }

  /** The last candidate carrying `id`, if any: the one that wins among several. */
  function LastWith(cands: seq<Person>, id: string): (r: Option<Person>)
    ensures r.None? <==> id !in Ids(cands)
    ensures r.Some? ==> r.value.id == id && IsLastWith(cands, id, r.value)
    decreases |cands|
  {
    if cands == [] then None
    else if cands[|cands| - 1].id == id then Some(cands[|cands| - 1])
    else
      var init := cands[..|cands| - 1];
      assert cands == init + [cands[|cands| - 1]];
      var r := LastWith(init, id);
      assert r.Some? ==> IsLastWith(cands, id, r.value) by {
        if r.Some? {
          var k :| 0 <= k < |init| && init[k] == r.value && forall j :: k < j < |init| ==> init[j].id != id;
          assert cands[k] == r.value;
        }
      }
      r
  }

  /**
   * What live record `i` becomes: the last candidate with its id when `i` is the first
   * position of that id, otherwise itself.
   */
  function MergedSlot(live: seq<Person>, cands: seq<Person>, i: nat): (p: Person)
    requires i < |live|
    ensures p.id == live[i].id
  {
    if FirstIndex(live, live[i].id) == i then LastWith(cands, live[i].id).GetOr(live[i]) else live[i]
  }

  /**
   * The list `importMerge` leaves behind: each live record in its place (replaced
   * when it is the first with a matched id), then the unmatched candidates in input
   * order.
   */
  function Merged(live: seq<Person>, cands: seq<Person>): (r: seq<Person>)
    ensures |r| == |live| + |NewOf(live, cands)|
    ensures forall i :: 0 <= i < |live| ==> r[i].id == live[i].id
    ensures r[|live|..] == NewOf(live, cands)
  {
    seq(|live|, i requires 0 <= i < |live| => MergedSlot(live, cands, i)) + NewOf(live, cands)
  }

  /**
   * What the callback of `importMerge` does to the list `ps` with one candidate `c`,
   * given the ids `existing` that were live when the merge began: a known id overwrites
   * the first record with that id, when there is one; an unknown id is pushed at the end.
   */
  function MergeOne(existing: set<string>, ps: seq<Person>, c: Person): (r: seq<Person>)
    ensures |r| == |ps| + (if c.id in existing then 0 else 1)
    ensures c.id !in existing ==> r[..|ps|] == ps && r[|ps|] == c
    ensures c.id in existing && c.id !in Ids(ps) ==> r == ps
    ensures c.id in existing && c.id in Ids(ps) ==>
      var k := FirstIndex(ps, c.id);
      r[k] == c && forall j :: 0 <= j < |ps| && j != k ==> r[j] == ps[j]
  {
    if c.id in existing then
      var k := FirstIndex(ps, c.id);
      if k == -1 then ps else ps[k := c]
    else
      ps + [c]
  }

  /**
   * The callback, applied to the list merged from the candidates `done`, gives the list
   * merged from `done + [c]`: running it over the batch in order computes `Merged`. A
   * known id is always found, and `c` is counted as updated when its id was live and as
   * added when it was not.
   */
  lemma MergeTurn(live: seq<Person>, done: seq<Person>, c: Person)
    ensures c.id in Ids(live) ==> FirstIndex(Merged(live, done), c.id) != -1
    ensures MergeOne(Ids(live), Merged(live, done), c) == Merged(live, done + [c])
    ensures |NewOf(live, done + [c])| == |NewOf(live, done)| + (if c.id in Ids(live) then 0 else 1)
    ensures |MatchedOf(live, done + [c])| == |MatchedOf(live, done)| + (if c.id in Ids(live) then 1 else 0)
  {
    if c.id in Ids(live) {
      MergeStepMatched(live, done, c);
    } else {
      MergeStepNew(live, done, c);
    }
  }

  lemma MergeSlotStep(live: seq<Person>, cands: seq<Person>, c: Person, i: nat)
    requires i < |live|
    ensures MergedSlot(live, cands + [c], i) ==
      if live[i].id == c.id && FirstIndex(live, c.id) == i then c else MergedSlot(live, cands, i)
  {
    LastWithAppend(cands, c, live[i].id);
  }

  /**
   * Appending a candidate whose id the list already holds, as the loop of `importMerge`
   * meets it: the merged list is the previous one with the first record of that id
   * replaced, and the candidate joins the matched ones.
   */
  lemma MergeStepMatched(live: seq<Person>, cands: seq<Person>, c: Person)
    requires c.id in Ids(live)
    ensures 0 <= FirstIndex(live, c.id) == FirstIndex(Merged(live, cands), c.id)
    ensures Merged(live, cands + [c]) == Merged(live, cands)[FirstIndex(live, c.id) := c]
    ensures NewOf(live, cands + [c]) == NewOf(live, cands)
    ensures MatchedOf(live, cands + [c]) == MatchedOf(live, cands) + [c]
  {
    SplitAppend(live, cands, c);
    MergedFirstIndex(live, cands, c.id);
    var x := Merged(live, cands)[FirstIndex(live, c.id) := c];
    forall i | 0 <= i < |live| ensures x[i] == MergedSlot(live, cands + [c], i) {
      MergeSlotStep(live, cands, c, i);
    }
    assert x[|live|..] == Merged(live, cands)[|live|..];
    MergedByParts(live, cands + [c], x);
  }

  /**
   * Appending a candidate whose id the list does not hold: the merged list grows by that
   * candidate at its end, and the candidate joins the new ones.
   */
  lemma MergeStepNew(live: seq<Person>, cands: seq<Person>, c: Person)
    requires c.id !in Ids(live)
    ensures Merged(live, cands + [c]) == Merged(live, cands) + [c]
    ensures NewOf(live, cands + [c]) == NewOf(live, cands) + [c]
    ensures MatchedOf(live, cands + [c]) == MatchedOf(live, cands)
  {
    SplitAppend(live, cands, c);
    var x := Merged(live, cands) + [c];
    forall i | 0 <= i < |live| ensures x[i] == MergedSlot(live, cands + [c], i) {
      MergeSlotStep(live, cands, c, i);
      assert live[i].id in Ids(live);
    }
    assert x[|live|..] == Merged(live, cands)[|live|..] + [c];
    MergedByParts(live, cands + [c], x);
  }

  /** One more candidate joins either the new ones or the matched ones. */
  lemma SplitAppend(live: seq<Person>, cands: seq<Person>, c: Person)
    ensures NewOf(live, cands + [c]) == NewOf(live, cands) + (if c.id in Ids(live) then [] else [c])
    ensures MatchedOf(live, cands + [c]) == MatchedOf(live, cands) + (if c.id in Ids(live) then [c] else [])
  {
    FilterAppend(cands, c, (c: Person) => c.id !in Ids(live));
    FilterAppend(cands, c, (c: Person) => c.id in Ids(live));
  }

  /** A live id is first found in the merged list where it is first found in the live list. */
  lemma MergedFirstIndex(live: seq<Person>, cands: seq<Person>, id: string)
    requires id in Ids(live)
    ensures 0 <= FirstIndex(live, id) == FirstIndex(Merged(live, cands), id)
  {
    var merged := Merged(live, cands);
    forall i | |live| <= i < |merged| ensures merged[i].id !in Ids(live) {
      assert merged[i] in merged[|live|..];
    }
    FirstIndexOfExtension(live, merged, id);
  }

  /** A list with the slots of `Merged` followed by the new candidates is `Merged`. */
  lemma MergedByParts(live: seq<Person>, cands: seq<Person>, x: seq<Person>)
    requires |x| == |live| + |NewOf(live, cands)|
    requires forall i :: 0 <= i < |live| ==> x[i] == MergedSlot(live, cands, i)
    requires x[|live|..] == NewOf(live, cands)
    ensures x == Merged(live, cands)
  {
    var merged := Merged(live, cands);
    forall i | 0 <= i < |x| ensures x[i] == merged[i] {
      if i >= |live| {
        assert x[i] == x[|live|..][i - |live|];
        assert merged[i] == merged[|live|..][i - |live|];
      }
    }
  }

  /** Every candidate of the batch is either new or matched, and so counted once. */
  lemma MergeCounts(live: seq<Person>, cands: seq<Person>)
    ensures |Merged(live, cands)| == |live| + Preview(live, cands).newCount
    ensures Preview(live, cands).newCount + Preview(live, cands).updateCount == |cands|
  {
  }

  /** A live record whose id no candidate carries stays as it was, at its index. */
  lemma MergeKeepsUnmatched(live: seq<Person>, cands: seq<Person>, i: nat)
    requires i < |live| && live[i].id !in Ids(cands)
    ensures Merged(live, cands)[i] == live[i]
  {
  }

  /**
   * A matched id replaces the first live record with that id by the last candidate
   * with that id; a later live record sharing the id is left alone.
   */
  lemma MergeReplacesFirst(live: seq<Person>, cands: seq<Person>, id: string)
    requires id in Ids(live) && id in Ids(cands)
    ensures var k := FirstIndex(live, id);
      && Merged(live, cands)[k] == LastWith(cands, id).value
      && forall j :: k < j < |live| && live[j].id == id ==> Merged(live, cands)[j] == live[j]
  {
    var k := FirstIndex(live, id);
    assert Merged(live, cands)[k] == MergedSlot(live, cands, k);
    forall j | k < j < |live| && live[j].id == id ensures Merged(live, cands)[j] == live[j] {
      assert Merged(live, cands)[j] == MergedSlot(live, cands, j);
    }
  }

  /**
   * Ids stay unique across a merge when the live ids are unique and no two new
   * candidates share an id.
   */
  lemma MergeKeepsIdsUnique(live: seq<Person>, cands: seq<Person>)
    requires UniqueIds(live) && UniqueIds(NewOf(live, cands))
    ensures UniqueIds(Merged(live, cands))
  {
    var r := Merged(live, cands);
    forall i, j | 0 <= i < j < |r| ensures r[i].id != r[j].id {
      if j >= |live| {
        assert r[j] == NewOf(live, cands)[j - |live|];
        assert r[j] in NewOf(live, cands);
        if i < |live| {
          assert live[i] in live;
        } else {
          assert r[i] == NewOf(live, cands)[i - |live|];
        }
      }
    }
  }

  /** Two new candidates with the same id are both appended: the merged ids repeat. */
  lemma MergeAppendsDuplicateNewIds(a: Person, b: Person)
    requires a.id == b.id && a != b
    ensures Merged([], [a, b]) == [a, b]
    ensures !UniqueIds(Merged([], [a, b]))
  {
    FilterKeepsAll([a, b], (c: Person) => c.id !in Ids([]));
  }

  /** After a merge every candidate id is live. */
  lemma MergeHoldsCandidateIds(live: seq<Person>, cands: seq<Person>)
    ensures Ids(cands) <= Ids(Merged(live, cands))
  {
    var once := Merged(live, cands);
    forall c | c in cands ensures c.id in Ids(once) {
      if c.id !in Ids(live) {
        assert c in NewOf(live, cands);
        var j :| 0 <= j < |NewOf(live, cands)| && NewOf(live, cands)[j] == c;
        assert once[|live| + j] == c;
      } else {
        var p :| p in live && p.id == c.id;
        var i :| 0 <= i < |live| && live[i] == p;
        assert once[i].id == c.id;
        assert once[i] in once;
      }
    }
  }

  /** The appended records of a merge carry ids the live list did not hold. */
  lemma MergeAppendsNewIds(live: seq<Person>, cands: seq<Person>)
    ensures forall j :: |live| <= j < |Merged(live, cands)| ==> Merged(live, cands)[j].id !in Ids(live)
  {
    var once := Merged(live, cands);
    forall j | |live| <= j < |once| ensures once[j].id !in Ids(live) {
      assert once[j] in once[|live|..];
    }
  }

  lemma IdempotentLiveSlot(live: seq<Person>, cands: seq<Person>, i: nat)
    requires i < |live|
    ensures MergedSlot(Merged(live, cands), cands, i) == Merged(live, cands)[i]
  {
    var once := Merged(live, cands);
    var id := live[i].id;
    assert live[i] in live;
    MergeAppendsNewIds(live, cands);
    FirstIndexOfExtension(live, once, id);
    assert once[i] == MergedSlot(live, cands, i);
  }

  /** An appended record is the first in the merged list with its id. */
  lemma NewSlotFirst(live: seq<Person>, cands: seq<Person>, i: nat)
    requires UniqueIds(NewOf(live, cands))
    requires |live| <= i < |Merged(live, cands)|
    ensures FirstIndex(Merged(live, cands), Merged(live, cands)[i].id) == i
  {
    var once := Merged(live, cands);
    var added := NewOf(live, cands);
    var x := once[i];
    assert x == added[i - |live|];
    assert x in added;
    forall j | 0 <= j < i ensures once[j].id != x.id {
      if j < |live| {
        assert once[j].id == live[j].id;
      } else {
        assert once[j] == added[j - |live|];
      }
    }
  }

  /** An appended record is the last candidate with its id. */
  lemma NewSlotWinner(live: seq<Person>, cands: seq<Person>, i: nat)
    requires UniqueIds(NewOf(live, cands))
    requires |live| <= i < |Merged(live, cands)|
    ensures LastWith(cands, Merged(live, cands)[i].id) == Some(Merged(live, cands)[i])
  {
    var added := NewOf(live, cands);
    var x := Merged(live, cands)[i];
    assert x == added[i - |live|];
    assert x in added;
    var w := LastWith(cands, x.id).value;
    assert w in added;
    var a :| 0 <= a < |added| && added[a] == w;
  }

  lemma IdempotentNewSlot(live: seq<Person>, cands: seq<Person>, i: nat)
    requires UniqueIds(NewOf(live, cands))
    requires |live| <= i < |Merged(live, cands)|
    ensures MergedSlot(Merged(live, cands), cands, i) == Merged(live, cands)[i]
  {
    NewSlotFirst(live, cands, i);
    NewSlotWinner(live, cands, i);
  }

  /**
   * Merging the same batch a second time changes nothing, when no two new candidates
   * share an id.
   */
  lemma MergeIdempotent(live: seq<Person>, cands: seq<Person>)
    requires UniqueIds(NewOf(live, cands))
    ensures Merged(Merged(live, cands), cands) == Merged(live, cands)
  {
    var once := Merged(live, cands);
    MergeHoldsCandidateIds(live, cands);
    FilterNoneKept(cands, (c: Person) => c.id !in Ids(once));
    var twice := Merged(once, cands);
    forall i | 0 <= i < |once| ensures twice[i] == once[i] {
      assert twice[i] == MergedSlot(once, cands, i);
      if i < |live| {
        IdempotentLiveSlot(live, cands, i);
      } else {
        IdempotentNewSlot(live, cands, i);
      }
    }
  }

  /** A filter that no element passes returns nothing. */
  lemma {:induction false} FilterNoneKept(s: seq<Person>, f: Person -> bool)
    requires forall p :: p in s ==> !f(p)
    ensures Filter(s, f) == []
    decreases |s|
  {
    if s != [] {
      assert s == s[..|s| - 1] + [s[|s| - 1]];
      FilterNoneKept(s[..|s| - 1], f);
    }
  }

  /**
   * The worked example of the import dialog: one live record "a"; candidates "a"
   * (edited) and "b". The preview shows one new and one update; the merge keeps the
   * edited "a" in place and appends "b".
   */
  lemma MergeExample(alice: Person, aliceEdited: Person, bob: Person)
    requires alice.id == "a" && aliceEdited.id == "a" && bob.id == "b"
    ensures Preview([alice], [aliceEdited, bob]) == PreviewCounts(1, 1)
    ensures Merged([alice], [aliceEdited, bob]) == [aliceEdited, bob]
  {
    var live := [alice];
    assert live[0].id == "a";
    assert Ids(live) == {"a"};
    assert FirstIndex(live, "a") == 0;
    assert Merged(live, []) == live by {
      assert NewOf(live, []) == [];
      assert MergedSlot(live, [], 0) == alice;
    }
    assert NewOf(live, []) == [] && MatchedOf(live, []) == [];
    MergeStepMatched(live, [], aliceEdited);
    assert [] + [aliceEdited] == [aliceEdited];
    assert Merged(live, [aliceEdited]) == [aliceEdited];
    MergeStepNew(live, [aliceEdited], bob);
    assert [aliceEdited] + [bob] == [aliceEdited, bob];
  }
}
