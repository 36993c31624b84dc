/** The tag index: `Utils.getAllUniqueTags` (app.js:273-279) and the per-tag count of the tags screen (app.js:543). */
module TagIndex {
  import opened Seqs
  import opened People

  /**
   * The order `Array.prototype.sort` uses without a comparator: character by
   * character, a proper prefix first.
   */
  predicate Less(a: string, b: string)
    ensures Less(a, b) ==> a != b
    ensures a < b ==> Less(a, b)
    decreases |a|
  {
    if a == [] then b != []
    else if b == [] then false
    else if a[0] != b[0] then a[0] < b[0]
    else Less(a[1..], b[1..])
  }

  lemma {:induction false} LessIrreflexive(a: string)
    ensures !Less(a, a)
    decreases |a|
  {
    if a != [] {
      LessIrreflexive(a[1..]);
    }
  }

  lemma {:induction false} LessTransitive(a: string, b: string, c: string)
    requires Less(a, b) && Less(b, c)
    ensures Less(a, c)
    decreases |a|
  {
    if a != [] && b != [] && c != [] && a[0] == b[0] && b[0] == c[0] {
      LessTransitive(a[1..], b[1..], c[1..]);
    }
  }

  lemma {:induction false} LessTotal(a: string, b: string)
    requires a != b
    ensures Less(a, b) || Less(b, a)
    decreases |a|
  {
    if a != [] && b != [] && a[0] == b[0] {
      assert a[1..] != b[1..] by {
        assert a == [a[0]] + a[1..] && b == [b[0]] + b[1..];
      }
      LessTotal(a[1..], b[1..]);
    }
  }

  /** Every element precedes every later one: sorted, and therefore free of duplicates. */
  predicate StrictlySorted(s: seq<string>) {
    forall i, j :: 0 <= i < j < |s| ==> Less(s[i], s[j])
  }

  /** No value occurs twice (what a JavaScript `Set` guarantees). */
  predicate NoDups(s: seq<string>) {
    forall i, j :: 0 <= i < j < |s| ==> s[i] != s[j]
  }

  lemma SortedHasNoDups(s: seq<string>)
    requires StrictlySorted(s)
    ensures NoDups(s)
  {
    forall i, j | 0 <= i < j < |s| ensures s[i] != s[j] {
      LessIrreflexive(s[i]);
    }
  }

  /** A value below every element of a sorted list can go in front of it. */
  lemma ConsSorted(h: string, t: seq<string>)
    requires StrictlySorted(t) && forall y :: y in t ==> Less(h, y)
    ensures StrictlySorted([h] + t)
  {
    forall i, j | 0 <= i < j < |t| + 1 ensures Less(([h] + t)[i], ([h] + t)[j]) {
      assert t[j - 1] in t;
    }
  }

  /** A value below the head of a sorted list is below all of it. */
  lemma BelowHead(x: string, r: seq<string>)
    requires StrictlySorted(r) && r != [] && Less(x, r[0])
    ensures forall y :: y in r ==> Less(x, y)
  {
    forall y | y in r ensures Less(x, y) {
      var j :| 0 <= j < |r| && r[j] == y;
      if j > 0 {
        LessTransitive(x, r[0], r[j]);
      }
    }
  }

  /** The head of a sorted list is below everything in its tail with a larger value added. */
  lemma HeadBelowRest(r: seq<string>, x: string, tail: seq<string>)
    requires StrictlySorted(r) && r != [] && Less(r[0], x)
    requires multiset(tail) == multiset(r[1..]) + multiset{x}
    ensures forall y :: y in tail ==> Less(r[0], y)
  {
    forall y | y in tail ensures Less(r[0], y) {
      assert y in multiset(tail);
      if y != x {
        assert y in multiset(r[1..]);
        var j :| 0 <= j < |r[1..]| && r[1..][j] == y;
        assert r[j + 1] == y;
      }
    }
  }

  /** `x` placed into a sorted list at its position. */
  function Insert(r: seq<string>, x: string): (res: seq<string>)
    requires StrictlySorted(r) && x !in r
    ensures StrictlySorted(res)
    ensures multiset(res) == multiset(r) + multiset{x}
    decreases |r|
  {
    if r == [] then [x]
    else if Less(x, r[0]) then
      BelowHead(x, r);
      ConsSorted(x, r);
      [x] + r
    else
      LessTotal(x, r[0]);
      assert r == [r[0]] + r[1..];
      var tail := Insert(r[1..], x);
      HeadBelowRest(r, x, tail);
      ConsSorted(r[0], tail);
      [r[0]] + tail
  }

  /** `.sort()` on a list without duplicates: the same elements, strictly ascending. */
  function SortStrings(s: seq<string>): (r: seq<string>)
    requires NoDups(s)
    ensures StrictlySorted(r)
    ensures multiset(r) == multiset(s)
    decreases |s|
  {
    if s == [] then []
    else
      var init, x := s[..|s| - 1], s[|s| - 1];
      assert s == init + [x];
      var sorted := SortStrings(init);
      assert x !in sorted by {
        assert forall k :: 0 <= k < |init| ==> init[k] != x;
        assert x !in multiset(init);
      }
      Insert(sorted, x)
  }

  /** Some person carries tag `t`. */
  predicate TagUsed(people: seq<Person>, t: string) {
    exists p :: p in people && t in p.tags
  }

  /**
   * `Utils.getAllUniqueTags`: every tag of every person added to a `Set` in
   * encounter order, then sorted. The result lists exactly the tags in use, each
   * once, in ascending order.
   */
  method UniqueTags(people: seq<Person>) returns (tags: seq<string>)
    ensures StrictlySorted(tags)
    ensures forall t :: t in tags <==> TagUsed(people, t)
  {
    var seen: seq<string> := [];
    for i := 0 to |people|
      invariant NoDups(seen)
      invariant forall t :: t in seen <==> exists k :: 0 <= k < i && t in people[k].tags
    {
      var personTags := people[i].tags;
      for j := 0 to |personTags|
        invariant NoDups(seen)
        invariant forall t :: t in seen <==> (exists k :: 0 <= k < i && t in people[k].tags) || t in personTags[..j]
      {
        assert personTags[..j + 1] == personTags[..j] + [personTags[j]];
        if personTags[j] !in seen {
          seen := seen + [personTags[j]];
        }
      }
      assert personTags[..|personTags|] == personTags;
    }
    tags := SortStrings(seen);
    forall t ensures t in tags <==> t in seen {
      assert t in tags <==> t in multiset(tags);
    }
    forall t ensures TagUsed(people, t) <==> exists k :: 0 <= k < |people| && t in people[k].tags {
      if TagUsed(people, t) {
        var p :| p in people && t in p.tags;
        var k :| 0 <= k < |people| && people[k] == p;
      }
    }
  }

  /** `people.filter(p => p.tags.includes(tag)).length`: how many people carry `tag` exactly. */
  function TagCount(people: seq<Person>, tag: string): (n: nat)
    ensures n == |set i | 0 <= i < |people| && tag in people[i].tags|
    ensures n <= |people|
    ensures n > 0 <==> TagUsed(people, tag)
  {
    var carries := (p: Person) => tag in p.tags;
    FilterCountsIndices(people, carries);
    assert PassingIndices(people, carries) == set i | 0 <= i < |people| && tag in people[i].tags;
    var carriers := Filter(people, carries);
    assert TagUsed(people, tag) ==> carriers != [] by {
      if TagUsed(people, tag) {
        var p :| p in people && tag in p.tags;
        assert p in carriers;
      }
    }
    assert carriers != [] ==> TagUsed(people, tag) by {
      if carriers != [] {
        assert carriers[0] in carriers;
      }
    }
    |carriers|
  }

  /** Every tag the tags screen lists is shown with a count of at least one. */
  lemma ListedTagsCounted(people: seq<Person>, tags: seq<string>)
    requires forall t :: t in tags <==> TagUsed(people, t)
    ensures forall t :: t in tags ==> 1 <= TagCount(people, t) <= |people|
  {
  }
}
