/** The Person record (app.js:486-494) and the id-keyed queries the rest of the model shares. */
module People {
  import opened Wrappers
  import opened Seqs

  /**
   * One tracked individual. `avatar` is the compressed image as an opaque data-URI
   * string, or None for `null`; `updatedAt` is an opaque ISO-8601 timestamp string.
   */
  datatype Person = Person(
    id: string,
    name: string,
    tags: seq<string>,
    memo: string,
    avatar: Option<string>,
    colorVariant: string,
    updatedAt: string)

  /** The ids present in a list (`new Set(people.map(p => p.id))`). */
  function Ids(people: seq<Person>): set<string> {
    set i | 0 <= i < |people| :: people[i].id
  }

  /** No two records share an id. */
  predicate UniqueIds(people: seq<Person>) {
    forall i, j :: 0 <= i < j < |people| ==> people[i].id != people[j].id
  }

  /** `people.findIndex(p => p.id === id)`: the first index holding `id`, or -1. */
  function FirstIndex(people: seq<Person>, id: string): (r: int)
    ensures -1 <= r < |people|
    ensures r == -1 <==> id !in Ids(people)
    ensures r >= 0 ==> people[r].id == id && forall j :: 0 <= j < r ==> people[j].id != id
    decreases |people|
  {
    if people == [] then -1
    else if people[0].id == id then 0
    else
      var k := FirstIndex(people[1..], id);
      assert forall p :: p in people <==> p == people[0] || p in people[1..];
      if k == -1 then -1 else k + 1
  }

  /**
   * Two lists whose first |p| records carry the same ids, where the longer list's
   * extra records carry other ids, agree on where each id of `p` first occurs.
   */
  lemma FirstIndexOfExtension(p: seq<Person>, q: seq<Person>, id: string)
    requires |p| <= |q|
    requires forall i :: 0 <= i < |p| ==> q[i].id == p[i].id
    requires forall i :: |p| <= i < |q| ==> q[i].id !in Ids(p)
    requires id in Ids(p)
    ensures FirstIndex(q, id) == FirstIndex(p, id)
  {
    var k := FirstIndex(p, id);
    assert q[k].id == id;
    assert q[k] in q;
  }

  /** `people.filter(p => p.id !== id)`: every copy of every record with another id, and nothing else. */
  function RemoveId(people: seq<Person>, id: string): (r: seq<Person>)
    ensures forall p {:trigger multiset(r)[p]} :: multiset(r)[p] == if p.id != id then multiset(people)[p] else 0
  {
    Filter(people, (p: Person) => p.id != id)
  }

  /**
   * Deleting by id drops every record carrying that id, keeps every other record,
   * and keeps the survivors in their original order.
   */
  lemma RemoveIdMeaning(people: seq<Person>, id: string)
    ensures id !in Ids(RemoveId(people, id))
    ensures forall p :: p in people && p.id != id ==> p in RemoveId(people, id)
    ensures IsSubseq(RemoveId(people, id), people)
    ensures id !in Ids(people) ==> RemoveId(people, id) == people
  {
    FilterIsSubseq(people, (p: Person) => p.id != id);
    var r := RemoveId(people, id);
    forall i | 0 <= i < |r| ensures r[i].id != id {
      assert r[i] in r;
    }
    if id !in Ids(people) {
      FilterKeepsAll(people, (p: Person) => p.id != id);
    }
  }

  /** A filter that every element passes returns its input. */
  lemma {:induction false} FilterKeepsAll(people: seq<Person>, f: Person -> bool)
    requires forall p :: p in people ==> f(p)
    ensures Filter(people, f) == people
    decreases |people|
  {
    if people != [] {
      var init := people[..|people| - 1];
      assert people == init + [people[|people| - 1]];
      FilterKeepsAll(init, f);
    }
  }

  /** A subsequence of a list with unique ids has unique ids. */
  lemma {:induction false} SubseqKeepsUnique(a: seq<Person>, b: seq<Person>)
    requires IsSubseq(a, b) && UniqueIds(b)
    ensures UniqueIds(a)
    ensures forall p :: p in a ==> p in b
    decreases |b|
  {
    if a != [] {
      var b' := b[..|b| - 1];
      if a[|a| - 1] == b[|b| - 1] {
        var a' := a[..|a| - 1];
        SubseqKeepsUnique(a', b');
        assert a == a' + [a[|a| - 1]];
        forall i | 0 <= i < |a'| ensures a'[i].id != b[|b| - 1].id {
          assert a'[i] in b';
          var k :| 0 <= k < |b'| && b'[k] == a'[i];
        }
      } else {
        SubseqKeepsUnique(a, b');
      }
    }
  }

  /** Replacing a record by one with the same id leaves the ids, and their uniqueness, as they were. */
  lemma ReplaceKeepsIds(people: seq<Person>, k: nat, p: Person)
    requires k < |people| && p.id == people[k].id
    ensures Ids(people[k := p]) == Ids(people)
    ensures UniqueIds(people) ==> UniqueIds(people[k := p])
  {
    var after := people[k := p];
    forall x | x in Ids(after) ensures x in Ids(people) {
      var i :| 0 <= i < |after| && after[i].id == x;
      assert people[i].id == x;
    }
    forall x | x in Ids(people) ensures x in Ids(after) {
      var i :| 0 <= i < |people| && people[i].id == x;
      assert after[i].id == x;
    }
  }

  /** Putting a record in front adds its id; a fresh id keeps the ids unique. */
  lemma PrependIds(p: Person, people: seq<Person>)
    ensures Ids([p] + people) == Ids(people) + {p.id}
    ensures UniqueIds(people) && p.id !in Ids(people) ==> UniqueIds([p] + people)
  {
    var after := [p] + people;
    assert after[0] == p;
    forall x | x in Ids(after) ensures x in Ids(people) + {p.id} {
      var i :| 0 <= i < |after| && after[i].id == x;
      if i > 0 {
        assert people[i - 1].id == x;
      }
    }
    forall x | x in Ids(people) ensures x in Ids(after) {
      var i :| 0 <= i < |people| && people[i].id == x;
      assert after[i + 1].id == x;
    }
    if UniqueIds(people) && p.id !in Ids(people) {
      forall i, j | 0 <= i < j < |after| ensures after[i].id != after[j].id {
        assert after[j] == people[j - 1];
        if i > 0 {
          assert after[i] == people[i - 1];
        }
      }
    }
  }
}
