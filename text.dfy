/**
 * String helpers of app.js: JavaScript's `trim`, `split`, ASCII case mapping,
 * `includes`, and on top of them `Utils.parseTags` and `Utils.getInitials`.
 */
module Text {
  import opened Seqs

  /**
   * The characters JavaScript's `trim` removes and `\s` matches: the WhiteSpace
   * code points (tab, vertical tab, form feed, space, no-break space, byte-order
   * mark and the Unicode space separators) and the LineTerminator code points.
   */
  predicate IsWhitespace(c: char) {
    c == '\t' || c == '\n' || c == '\U{000B}' || c == '\U{000C}' || c == '\r' || c == ' '
    || c == '\U{00A0}' || c == '\U{1680}' || ('\U{2000}' <= c <= '\U{200A}')
    || c == '\U{2028}' || c == '\U{2029}' || c == '\U{202F}' || c == '\U{205F}'
    || c == '\U{3000}' || c == '\U{FEFF}'
  }

  /** Every character is whitespace (this includes the empty string). */
  predicate IsBlank(s: string) {
    forall i :: 0 <= i < |s| ==> IsWhitespace(s[i])
  }

  /** Neither end of `s` is whitespace. */
  predicate IsTrimmed(s: string) {
    s == [] || (!IsWhitespace(s[0]) && !IsWhitespace(s[|s| - 1]))
  }

  /** `s.trimStart()`: drops the leading whitespace and nothing else. */
  function TrimStart(s: string): (r: string)
    ensures |r| <= |s| && r == s[|s| - |r|..]
    ensures forall i :: 0 <= i < |s| - |r| ==> IsWhitespace(s[i])
    ensures r == [] || !IsWhitespace(r[0])
    decreases |s|
  {
    if s != [] && IsWhitespace(s[0]) then TrimStart(s[1..]) else s
  }

  /** `s.trimEnd()`: drops the trailing whitespace and nothing else. */
  function TrimEnd(s: string): (r: string)
    ensures |r| <= |s| && r == s[..|r|]
    ensures forall i :: |r| <= i < |s| ==> IsWhitespace(s[i])
    ensures r == [] || !IsWhitespace(r[|r| - 1])
    decreases |s|
  {
    if s != [] && IsWhitespace(s[|s| - 1]) then TrimEnd(s[..|s| - 1]) else s
  }

  /** How many leading blanks `trim` drops from `s`. */
  function LeadingBlanks(s: string): (n: nat)
    ensures n <= |s|
  {
    |s| - |TrimStart(s)|
  }

  /** `s.trim()`: the slice of `s` left after both ends' whitespace is dropped. */
  function Trim(s: string): (r: string)
    ensures IsTrimmed(r)
    ensures r == [] <==> IsBlank(s)
    ensures IsTrimmed(s) ==> r == s
  {
    var t := TrimStart(s);
    var r := TrimEnd(t);
    assert r != [] ==> r[0] == t[0];
    r
  }

  /**
   * What `trim` keeps is the middle of `s`: the slice that starts after the leading
   * blanks (and, by `TrimDropsBlanks`, is followed only by blanks).
   */
  lemma TrimMiddle(s: string)
    ensures LeadingBlanks(s) + |Trim(s)| <= |s|
    ensures Trim(s) == s[LeadingBlanks(s)..LeadingBlanks(s) + |Trim(s)|]
  {
    var t := TrimStart(s);
    var r := TrimEnd(t);
    assert r == Trim(s) && LeadingBlanks(s) == |s| - |t|;
    PrefixOfSuffix(s, t, r);
  }

  /** What `trim` drops from `s` is blank: the leading blanks and everything after the kept slice. */
  lemma TrimDropsBlanks(s: string)
    ensures LeadingBlanks(s) + |Trim(s)| <= |s|
    ensures IsBlank(s[..LeadingBlanks(s)]) && IsBlank(s[LeadingBlanks(s) + |Trim(s)|..])
  {
    var t := TrimStart(s);
    var r := TrimEnd(t);
    assert r == Trim(s) && LeadingBlanks(s) == |s| - |t|;
    TrimLeadingBlank(s);
    TrimTrailingBlank(t);
    BlankAround(s, t, r);
  }

  /**
   * A blank run, then `r`, then a blank run: `t` is the part of `s` after a blank
   * prefix, and `r` is the part of `t` before a blank suffix.
   */
  lemma BlankAround(s: string, t: string, r: string)
    requires |t| <= |s| && t == s[|s| - |t|..] && IsBlank(s[..|s| - |t|])
    requires |r| <= |t| && r == t[..|r|] && IsBlank(t[|r|..])
    ensures |s| - |t| + |r| <= |s| && r == s[|s| - |t|..|s| - |t| + |r|]
    ensures IsBlank(s[..|s| - |t|]) && IsBlank(s[|s| - |t| + |r|..])
  {
    PrefixOfSuffix(s, t, r);
  }

  /** What `trimStart` drops is blank. */
  lemma TrimLeadingBlank(s: string)
    ensures IsBlank(s[..|s| - |TrimStart(s)|])
  {
    var i := |s| - |TrimStart(s)|;
    forall k | 0 <= k < i ensures IsWhitespace(s[..i][k]) {
      assert s[..i][k] == s[k];
    }
  }

  /** What `trimEnd` drops is blank. */
  lemma TrimTrailingBlank(t: string)
    ensures IsBlank(t[|TrimEnd(t)|..])
  {
    var n := |TrimEnd(t)|;
    forall k | 0 <= k < |t| - n ensures IsWhitespace(t[n..][k]) {
      assert t[n..][k] == t[n + k];
    }
  }

  /** A single blank prefix in front of a trimmed string is removed by `trim`. */
  lemma TrimSpace(t: string)
    requires IsTrimmed(t)
    ensures Trim(" " + t) == t
  {
    assert (" " + t)[1..] == t;
  }

  /** The position of the first `c` in `s`, or |s| when there is none. */
  function IndexOf(s: string, c: char): (k: nat)
    ensures k <= |s|
    ensures forall i :: 0 <= i < k ==> s[i] != c
    ensures k < |s| ==> s[k] == c
    decreases |s|
  {
    if s == [] then 0 else if s[0] == c then 0 else IndexOf(s[1..], c) + 1
  }

  /** `parts.join(sep)`. */
  function Join(parts: seq<string>, sep: string): (r: string)
    ensures parts != [] ==> parts[0] <= r
    decreases |parts|
  {
    if parts == [] then ""
    else if |parts| == 1 then parts[0]
    else parts[0] + sep + Join(parts[1..], sep)
  }

  /** `s.split(',')`: the comma-free segments that, joined with commas, give `s` back. */
  function SplitComma(s: string): (parts: seq<string>)
    ensures |parts| >= 1
    ensures forall part :: part in parts ==> ',' !in part
    ensures Join(parts, ",") == s
    decreases |s|
  {
    var k := IndexOf(s, ',');
    if k == |s| then
      [s]
    else
      var rest := SplitComma(s[k + 1..]);
      assert s == s[..k] + "," + s[k + 1..];
      [s[..k]] + rest
  }

  /** Splitting on commas undoes joining comma-free segments with commas. */
  lemma {:induction false} SplitJoinComma(parts: seq<string>)
    requires |parts| >= 1
    requires forall part :: part in parts ==> ',' !in part
    ensures SplitComma(Join(parts, ",")) == parts
    decreases |parts|
  {
    assert parts[0] in parts;
    if |parts| > 1 {
      var s := Join(parts, ",");
      assert SplitComma(s) == [parts[0]] + parts[1..] by {
        SplitJoinComma(parts[1..]);
        assert s == parts[0] + "," + Join(parts[1..], ",");
        FirstComma(parts[0], Join(parts[1..], ","));
        assert s[|parts[0]| + 1..] == Join(parts[1..], ",");
        assert s[..|parts[0]|] == parts[0];
      }
      assert parts == [parts[0]] + parts[1..];
    } else {
      assert IndexOf(parts[0], ',') == |parts[0]|;
    }
  }

  /** The first comma of `a + "," + b`, with `a` comma-free, is the one after `a`. */
  lemma FirstComma(a: string, b: string)
    requires ',' !in a
    ensures IndexOf(a + "," + b, ',') == |a|
  {
    var s := a + "," + b;
    assert s[|a|] == ',';
    forall i | 0 <= i < |a| ensures s[i] != ',' {
      assert s[i] == a[i];
    }
  }

  /** `.map(t => t.trim())`. */
  function TrimAll(parts: seq<string>): (r: seq<string>)
    ensures |r| == |parts| && forall i :: 0 <= i < |parts| ==> r[i] == Trim(parts[i])
  {
    seq(|parts|, i requires 0 <= i < |parts| => Trim(parts[i]))
  }

  /** `t => t.length > 0`. */
  predicate NonEmpty(t: string) {
    t != []
  }

  /**
   * `.map(t => t.trim()).filter(t => t.length > 0)`, fused into one pass: the same list
   * as trimming every segment and then keeping the non-empty ones.
   */
  function TrimNonEmpty(parts: seq<string>): (r: seq<string>)
    ensures forall t :: t in r ==> t != [] && IsTrimmed(t)
    ensures (forall part :: part in parts ==> ',' !in part) ==> forall t :: t in r ==> ',' !in t
    decreases |parts|
  {
    if parts == [] then []
    else
      var t := Trim(parts[0]);
      TrimKeepsCommaFree(parts[0]);
      (if t == [] then [] else [t]) + TrimNonEmpty(parts[1..])
  }

  /** The fused pass is the two-step pipeline: map `trim` over the segments, then filter. */
  lemma {:induction false} TrimNonEmptyIsFilter(parts: seq<string>)
    ensures TrimNonEmpty(parts) == Filter(TrimAll(parts), NonEmpty)
    decreases |parts|
  {
    if parts == [] {
      assert TrimAll(parts) == [];
    } else {
      TrimNonEmptyIsFilter(parts[1..]);
      MapFilterStep(parts);
    }
  }

  /** Trimming a comma-free segment leaves it comma-free. */
  lemma TrimKeepsCommaFree(part: string)
    ensures ',' !in part ==> ',' !in Trim(part)
  {
    var t := Trim(part);
    assert t == TrimStart(part)[..|t|];
  }

  /** Trimming and filtering a list is trimming and filtering its first segment, then the rest. */
  lemma MapFilterStep(parts: seq<string>)
    requires parts != []
    ensures Filter(TrimAll(parts), NonEmpty)
      == (if Trim(parts[0]) == [] then [] else [Trim(parts[0])]) + Filter(TrimAll(parts[1..]), NonEmpty)
  {
    assert TrimAll(parts) == [Trim(parts[0])] + TrimAll(parts[1..]);
    FilterCons(Trim(parts[0]), TrimAll(parts[1..]), NonEmpty);
  }

  /** Trimming and filtering a list works on its first segment, then on the rest. */
  lemma TrimNonEmptyCons(part: string, rest: seq<string>)
    ensures TrimNonEmpty([part] + rest) == (if Trim(part) == [] then [] else [Trim(part)]) + TrimNonEmpty(rest)
  {
    assert ([part] + rest)[1..] == rest;
  }

  /** A tag as `parseTags` produces it: non-empty, trimmed, comma-free. */
  predicate IsCleanTag(t: string) {
    t != [] && IsTrimmed(t) && ',' !in t
  }

  /**
   * `Utils.parseTags` (app.js:232-237): an empty or blank input gives no tags;
   * otherwise the trimmed, non-empty comma-separated segments in input order.
   */
  function ParseTags(s: string): (tags: seq<string>)
    ensures forall t :: t in tags ==> IsCleanTag(t)
    ensures IsBlank(s) ==> tags == []
  {
    if s == [] || Trim(s) == [] then [] else TrimNonEmpty(SplitComma(s))
  }

  /** Segments that are all blank trim away to nothing. */
  lemma BlankSegmentsVanish(s: string)
    requires IsBlank(s)
    ensures TrimNonEmpty(SplitComma(s)) == []
  {
    assert IndexOf(s, ',') == |s|;
    assert SplitComma(s) == [s];
  }

  /**
   * The early return of `parseTags` for an empty or blank input is only a short cut:
   * the split-trim-filter pipeline gives the same result on every input.
   */
  lemma ParseTagsIsPipeline(s: string)
    ensures ParseTags(s) == TrimNonEmpty(SplitComma(s))
  {
    if IsBlank(s) {
      BlankSegmentsVanish(s);
    }
  }

  /**
   * `parseTags` on any input, blank ones included, is splitting at commas, trimming
   * every segment and keeping the non-empty ones.
   */
  lemma ParseTagsIsFilter(s: string)
    ensures ParseTags(s) == Filter(TrimAll(SplitComma(s)), NonEmpty)
  {
    ParseTagsIsPipeline(s);
    TrimNonEmptyIsFilter(SplitComma(s));
  }

  /** Each string behind one space: how `", "` separates the later parts of a join. */
  function Padded(parts: seq<string>): (r: seq<string>)
    ensures |r| == |parts|
    ensures forall i :: 0 <= i < |parts| ==> r[i] == " " + parts[i]
    decreases |parts|
  {
    if parts == [] then [] else [" " + parts[0]] + Padded(parts[1..])
  }

  /** Joining with `", "` is joining the first part and the space-prefixed later parts with `","`. */
  lemma {:induction false} JoinPadded(tags: seq<string>)
    requires |tags| >= 1
    ensures Join(tags, ", ") == Join([tags[0]] + Padded(tags[1..]), ",")
    decreases |tags|
  {
    if |tags| > 1 {
      JoinPadded(tags[1..]);
      var rest := [tags[1]] + Padded(tags[2..]);
      assert tags[1..][1..] == tags[2..];
      var padded := [tags[0]] + Padded(tags[1..]);
      assert padded[1..] == [" " + tags[1]] + Padded(tags[2..]);
      assert Join(padded[1..], ",") == " " + Join(rest, ",") by {
        if |tags| > 2 {
          assert padded[1..][1..] == rest[1..];
        }
      }
    }
  }

  /** The segments of a `", "`-joined list are the first tag, then each later tag behind one space. */
  lemma SplitJoined(tags: seq<string>)
    requires |tags| >= 1
    requires forall t :: t in tags ==> ',' !in t
    ensures SplitComma(Join(tags, ", ")) == [tags[0]] + Padded(tags[1..])
  {
    var padded := [tags[0]] + Padded(tags[1..]);
    JoinPadded(tags);
    forall i | 0 <= i < |padded| ensures ',' !in padded[i] {
      assert tags[i] in tags;
      if i > 0 {
        assert padded[i] == " " + tags[i];
      }
    }
    SplitJoinComma(padded);
  }

  /** Padding one clean tag and trimming it gives the tag back, ahead of the rest. */
  lemma TrimPaddedHead(first: string, rest: seq<string>)
    requires IsCleanTag(first)
    ensures TrimNonEmpty(Padded([first] + rest)) == [first] + TrimNonEmpty(Padded(rest))
  {
    assert ([first] + rest)[1..] == rest;
    assert Padded([first] + rest) == [" " + first] + Padded(rest);
    TrimSpace(first);
    TrimNonEmptyCons(" " + first, Padded(rest));
  }

  /** Trimming the space-prefixed clean tags gives the tags back. */
  lemma {:induction false} TrimPadded(tags: seq<string>)
    requires forall t :: t in tags ==> IsCleanTag(t)
    ensures TrimNonEmpty(Padded(tags)) == tags
    decreases |tags|
  {
    if tags != [] {
      var first, rest := tags[0], tags[1..];
      assert first in tags;
      assert forall t :: t in rest ==> IsCleanTag(t) by {
        forall t | t in rest ensures IsCleanTag(t) {
          assert t in tags;
        }
      }
      assert tags == [first] + rest;
      TrimPaddedHead(first, rest);
      TrimPadded(rest);
    }
  }

  /**
   * Editing a person shows the tags joined with `", "` (app.js:447) and saving parses
   * them again: clean tags survive that round trip unchanged.
   */
  lemma ParseTagsRoundTrip(tags: seq<string>)
    requires forall t :: t in tags ==> IsCleanTag(t)
    ensures ParseTags(Join(tags, ", ")) == tags
  {
    if tags != [] {
      var s := Join(tags, ", ");
      SplitJoined(tags);
      TrimSplitJoined(tags);
      ParseTagsIsPipeline(s);
    }
  }

  /** Trimming the comma-separated parts of joined clean tags gives the tags back. */
  lemma TrimSplitJoined(tags: seq<string>)
    requires |tags| >= 1
    requires forall t :: t in tags ==> IsCleanTag(t)
    ensures TrimNonEmpty([tags[0]] + Padded(tags[1..])) == tags
  {
    assert tags[0] in tags;
    TrimNonEmptyCons(tags[0], Padded(tags[1..]));
    TrimPadded(tags[1..]);
    assert tags == [tags[0]] + tags[1..];
  }

  /** Parsing the joined output of a parse changes nothing. */
  lemma ParseTagsIdempotent(s: string)
    ensures ParseTags(Join(ParseTags(s), ", ")) == ParseTags(s)
  {
    ParseTagsRoundTrip(ParseTags(s));
  }

  /** `s` contains a whitespace character somewhere. */
  predicate HasWhitespace(s: string) {
    exists i :: 0 <= i < |s| && IsWhitespace(s[i])
  }

  /** The position of the first whitespace character of `s`, or |s|. */
  function FirstWhitespace(s: string): (k: nat)
    ensures k <= |s|
    ensures forall i :: 0 <= i < k ==> !IsWhitespace(s[i])
    ensures k < |s| ==> IsWhitespace(s[k])
    decreases |s|
  {
    if s == [] || IsWhitespace(s[0]) then 0 else FirstWhitespace(s[1..]) + 1
  }

  /** The first position at or after `k` that is not whitespace, or |s|. */
  function SkipWhitespace(s: string, k: nat): (j: nat)
    requires k <= |s|
    ensures k <= j <= |s|
    ensures forall i :: k <= i < j ==> IsWhitespace(s[i])
    ensures j < |s| ==> !IsWhitespace(s[j])
    decreases |s| - k
  {
    if k < |s| && IsWhitespace(s[k]) then SkipWhitespace(s, k + 1) else k
  }

  /** Where the second piece of `s` starts: past the first piece and the whitespace run after it. */
  function SecondWordStart(s: string): (j: nat)
    ensures FirstWhitespace(s) <= j <= |s|
  {
    SkipWhitespace(s, FirstWhitespace(s))
  }

  /**
   * `s.split(/\s+/)`: the pieces between maximal runs of whitespace. A leading run
   * yields an empty first piece and a trailing run an empty last piece, as in JavaScript.
   * The first piece runs up to the first blank, and the second from the end of that
   * blank run up to the next blank.
   */
  function SplitWhitespace(s: string): (parts: seq<string>)
    ensures |parts| >= 1
    ensures parts[0] == s[..FirstWhitespace(s)]
    ensures |parts| > 1 <==> HasWhitespace(s)
    ensures |parts| > 1 ==>
      var after := s[SecondWordStart(s)..];
      parts[1] == after[..FirstWhitespace(after)]
    ensures forall part :: part in parts ==> !HasWhitespace(part)
    decreases |s|
  {
    var k := FirstWhitespace(s);
    if k == |s| then
      [s]
    else
      var rest := SplitWhitespace(s[SecondWordStart(s)..]);
      SplitWhitespaceStep(s, rest);
      [s[..k]] + rest
  }

  /** The first piece of `s`, followed by the pieces of what comes after the first blank run. */
  lemma SplitWhitespaceStep(s: string, rest: seq<string>)
    requires FirstWhitespace(s) < |s|
    requires |rest| >= 1 && forall part :: part in rest ==> !HasWhitespace(part)
    ensures HasWhitespace(s)
    ensures forall part :: part in [s[..FirstWhitespace(s)]] + rest ==> !HasWhitespace(part)
  {
    assert HasWhitespace(s) by {
      assert IsWhitespace(s[FirstWhitespace(s)]);
    }
    assert forall part :: part in [s[..FirstWhitespace(s)]] + rest ==> !HasWhitespace(part) by {
      FirstPieceBlankFree(s);
      ConsBlankFree(s[..FirstWhitespace(s)], rest);
    }
  }

  /** The text before the first blank holds no blank. */
  lemma FirstPieceBlankFree(s: string)
    ensures !HasWhitespace(s[..FirstWhitespace(s)])
  {
    var k := FirstWhitespace(s);
    forall i | 0 <= i < k ensures !IsWhitespace(s[..k][i]) {
      assert s[..k][i] == s[i];
    }
  }

  /** A blank-free piece in front of blank-free pieces. */
  lemma ConsBlankFree(first: string, rest: seq<string>)
    requires !HasWhitespace(first) && forall part :: part in rest ==> !HasWhitespace(part)
    ensures forall part :: part in [first] + rest ==> !HasWhitespace(part)
  {
    forall part | part in [first] + rest ensures !HasWhitespace(part) {
      if part != first {
        assert part in rest;
      }
    }
  }

  /** Non-empty blank-free words joined by single spaces split back into those words. */
  lemma {:induction false} SplitJoinWords(words: seq<string>)
    requires |words| >= 1
    requires forall w :: w in words ==> w != [] && !HasWhitespace(w)
    ensures SplitWhitespace(Join(words, " ")) == words
    decreases |words|
  {
    var w := words[0];
    assert w in words;
    if |words| == 1 {
      assert FirstWhitespace(w) == |w|;
    } else {
      var rest := words[1..];
      assert forall v :: v in rest ==> v in words;
      SplitJoinWords(rest);
      assert rest[0] in words;
      JoinStartsWithFirst(rest);
      SplitAfterWord(w, Join(rest, " "));
      assert words == [w] + rest;
    }
  }

  /** A space-joined list of words starts with the first character of its first word. */
  lemma JoinStartsWithFirst(words: seq<string>)
    requires |words| >= 1 && words[0] != []
    ensures Join(words, " ") != [] && Join(words, " ")[0] == words[0][0]
  {
  }

  /** Splitting a word, a space and a tail that starts visibly: the word, then the tail's pieces. */
  lemma SplitAfterWord(w: string, tail: string)
    requires w != [] && !HasWhitespace(w)
    requires tail != [] && !IsWhitespace(tail[0])
    ensures SplitWhitespace(w + " " + tail) == [w] + SplitWhitespace(tail)
  {
    var s := w + " " + tail;
    AfterFirstWord(w, tail);
    assert s[|w| + 1..] == tail;
  }

  /** In `w + " " + tail`, with `w` a word and `tail` starting with a visible character, the second piece starts the tail. */
  lemma AfterFirstWord(w: string, tail: string)
    requires w != [] && !HasWhitespace(w)
    requires tail != [] && !IsWhitespace(tail[0])
    ensures FirstWhitespace(w + " " + tail) == |w|
    ensures SkipWhitespace(w + " " + tail, |w|) == |w| + 1
    ensures (w + " " + tail)[..|w|] == w
  {
    var s := w + " " + tail;
    assert s[|w|] == ' ';
    forall i | 0 <= i < |w| ensures !IsWhitespace(s[i]) {
      assert s[i] == w[i];
    }
    assert s[|w| + 1] == tail[0];
  }

  /** `s.charAt(i)`: the one-character string at `i`, or the empty string past the end. */
  function CharAt(s: string, i: nat): (r: string)
    ensures |r| == if i < |s| then 1 else 0
    ensures i < |s| ==> r[0] == s[i]
  {
    if i < |s| then [s[i]] else ""
  }

  /** `toUpperCase` on one character, for the ASCII letters. */
  function UpperChar(c: char): char {
    if 'a' <= c <= 'z' then (c as int - 32) as char else c
  }

  /** `toLowerCase` on one character, for the ASCII letters. */
  function LowerChar(c: char): char {
    if 'A' <= c <= 'Z' then (c as int + 32) as char else c
  }

  /** `s.toUpperCase()`, ASCII letters only. */
  function Upper(s: string): (r: string)
    ensures |r| == |s| && forall i :: 0 <= i < |s| ==> r[i] == UpperChar(s[i])
  {
    seq(|s|, i requires 0 <= i < |s| => UpperChar(s[i]))
  }

  /** `s.toLowerCase()`, ASCII letters only. */
  function Lower(s: string): (r: string)
    ensures |r| == |s| && forall i :: 0 <= i < |s| ==> r[i] == LowerChar(s[i])
  {
    seq(|s|, i requires 0 <= i < |s| => LowerChar(s[i]))
  }

  /** `s.includes(q)`: `q` occurs in `s` as a contiguous piece. */
  predicate Contains(s: string, q: string): (c: bool)
    ensures q == [] ==> c
    ensures c ==> |q| <= |s|
  {
    assert q == [] ==> IsPrefix(q, s[0..]);
    exists i :: 0 <= i <= |s| - |q| && IsPrefix(q, s[i..])
  }

  predicate IsPrefix(q: string, s: string) {
    |q| <= |s| && s[..|q|] == q
  }

  /** The first two words of a non-empty trimmed string are non-empty, and the first starts it. */
  lemma TrimmedWords(t: string)
    requires t != [] && IsTrimmed(t)
    ensures var parts := SplitWhitespace(t);
      && parts[0] != [] && parts[0][0] == t[0]
      && (|parts| > 1 ==> parts[1] != [] && !IsWhitespace(parts[1][0]))
      && (|parts| > 1 ==> SecondWordStart(t) < |t| && parts[1][0] == t[SecondWordStart(t)])
  {
    var parts := SplitWhitespace(t);
    var k := FirstWhitespace(t);
    assert k > 0;
    if |parts| > 1 {
      var j := SkipWhitespace(t, k);
      assert j < |t| by {
        assert !IsWhitespace(t[|t| - 1]);
      }
      assert parts[1] == SplitWhitespace(t[j..])[0];
      assert t[j..][0] == t[j];
    }
  }

  /** Two words joined by one space split back into those two words. */
  lemma SplitTwoWords(first: string, second: string)
    requires first != [] && !HasWhitespace(first)
    requires second != [] && !HasWhitespace(second)
    ensures SplitWhitespace(first + " " + second) == [first, second]
  {
    assert Join([first, second], " ") == first + " " + second;
    SplitJoinWords([first, second]);
  }

  /**
   * `Utils.getInitials` (app.js:218-225): "?" for an empty name; the upper-cased first
   * characters of the first two whitespace-separated words of the trimmed name when it
   * has two or more; otherwise the upper-cased first character of the untrimmed name.
   */
  function Initials(name: string): (r: string)
    ensures name == "" ==> r == "?"
    ensures name != "" ==> 1 <= |r| <= 2
    ensures name != "" ==> (|r| == 2 <==> HasWhitespace(Trim(name)))
    ensures name != "" && HasWhitespace(Trim(name)) ==>
      var t := Trim(name);
      SecondWordStart(t) < |t| && r == [UpperChar(t[0]), UpperChar(t[SecondWordStart(t)])]
    ensures name != "" && !HasWhitespace(Trim(name)) ==> r == [UpperChar(name[0])]
  {
    if name == "" then "?"
    else
      var t := Trim(name);
      if |SplitWhitespace(t)| > 1 then
        TrimmedInitials(t)
      else
        Upper(CharAt(name, 0))
  }

  /** A two-word name gives the upper-cased first letters of both words. */
  lemma InitialsOfTwoWords(first: string, second: string)
    requires first != [] && !HasWhitespace(first)
    requires second != [] && !HasWhitespace(second)
    ensures Initials(first + " " + second) == [UpperChar(first[0]), UpperChar(second[0])]
  {
    var name := first + " " + second;
    assert !IsWhitespace(name[0]) && !IsWhitespace(name[|name| - 1]) by {
      assert !IsWhitespace(first[0]);
      assert !IsWhitespace(second[|second| - 1]);
    }
    assert Trim(name) == name;
    AfterFirstWord(first, second);
    assert IsWhitespace(name[|first|]);
  }

  /** A one-word name gives its upper-cased first letter. */
  lemma InitialsOfOneWord(word: string)
    requires word != [] && !HasWhitespace(word)
    ensures Initials(word) == [UpperChar(word[0])]
  {
    assert !IsWhitespace(word[0]) && !IsWhitespace(word[|word| - 1]);
    assert Trim(word) == word;
  }

  /**
   * As written, a one-word name behind a leading blank gets that blank as its
   * initial: the name is trimmed to count its words, but for a single word the
   * untrimmed first character is taken.
   */
  lemma InitialsOfPaddedWord(word: string)
    requires word != [] && !HasWhitespace(word)
    ensures Initials(" " + word) == " "
  {
    assert !IsWhitespace(word[0]) && !IsWhitespace(word[|word| - 1]);
    TrimSpace(word);
    var name := " " + word;
    assert CharAt(name, 0) == " ";
  }

  /** Upper-casing never turns a visible character into a blank. */
  lemma UpperKeepsVisible(c: char)
    requires !IsWhitespace(c)
    ensures !IsWhitespace(UpperChar(c))
  {
  }

  /** The upper-cased initials of visible characters hold no blank. */
  lemma VisibleInitials(cs: string)
    requires forall i :: 0 <= i < |cs| ==> !IsWhitespace(cs[i])
    ensures !HasWhitespace(Upper(cs))
  {
    forall i | 0 <= i < |cs| ensures !IsWhitespace(Upper(cs)[i]) {
      UpperKeepsVisible(cs[i]);
    }
  }

  /**
   * The initials as evidently intended: taken from the trimmed name throughout, so a
   * blank name gives "?" (see `IntendedInitialsVisible` for the rest of its contract).
   */
  function InitialsIntended(name: string): (r: string)
    ensures IsBlank(name) ==> r == "?"
    ensures !IsBlank(name) ==> 1 <= |r| <= 2 && (|r| == 2 <==> HasWhitespace(Trim(name)))
    ensures !IsBlank(name) && HasWhitespace(Trim(name)) ==>
      var t := Trim(name);
      SecondWordStart(t) < |t| && r == [UpperChar(t[0]), UpperChar(t[SecondWordStart(t)])]
    ensures !IsBlank(name) && !HasWhitespace(Trim(name)) ==> r == [UpperChar(Trim(name)[0])]
  {
    var t := Trim(name);
    if t == "" then "?" else TrimmedInitials(t)
  }

  /** The upper-cased first characters of the first one or two words of a trimmed name. */
  function TrimmedInitials(t: string): (r: string)
    requires t != [] && IsTrimmed(t)
    ensures 1 <= |r| <= 2 && (|r| == 2 <==> HasWhitespace(t))
    ensures HasWhitespace(t) ==> SecondWordStart(t) < |t| && r == [UpperChar(t[0]), UpperChar(t[SecondWordStart(t)])]
    ensures !HasWhitespace(t) ==> r == [UpperChar(t[0])]
  {
    var parts := SplitWhitespace(t);
    if |parts| > 1 then
      TrimmedWords(t);
      assert CharAt(parts[0], 0) + CharAt(parts[1], 0) == [t[0], t[SecondWordStart(t)]];
      Upper(CharAt(parts[0], 0) + CharAt(parts[1], 0))
    else
      Upper(CharAt(t, 0))
  }

  /**
   * The intended initials of a name that is not blank start with the upper-cased first
   * visible character, and no initial is a blank.
   */
  lemma IntendedInitialsVisible(name: string)
    requires !IsBlank(name)
    ensures InitialsIntended(name)[0] == UpperChar(Trim(name)[0])
    ensures !HasWhitespace(InitialsIntended(name))
  {
    TrimmedInitialsVisible(Trim(name));
  }

  /** The initials of a trimmed, non-empty name start with its upper-cased first character and hold no blank. */
  lemma TrimmedInitialsVisible(t: string)
    requires t != [] && IsTrimmed(t)
    ensures TrimmedInitials(t)[0] == UpperChar(t[0])
    ensures !HasWhitespace(TrimmedInitials(t))
  {
    var parts := SplitWhitespace(t);
    TrimmedWords(t);
    var cs := if |parts| > 1 then [t[0], parts[1][0]] else [t[0]];
    assert TrimmedInitials(t) == Upper(cs);
    VisibleInitials(cs);
  }

  /** The intended initials agree with the written ones whenever the name does not start with a blank. */
  lemma InitialsAgreeWithoutLeadingBlank(name: string)
    requires name != "" && !IsWhitespace(name[0])
    ensures InitialsIntended(name) == Initials(name)
  {
    assert Trim(name) != [] && Trim(name)[0] == name[0];
  }
}
