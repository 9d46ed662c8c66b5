/**
 Schema paths as the readers see them: what strrchr and strstr find in the path of a leaf of a
 list entry, whatever the entry is called.
 */
module Paths {
  import opened Text
  import opened ChangeStream

  /** A slash and a name. */
  predicate IsSegment(x: string) {
    x != "" && x[0] == '/' && forall k | 0 < k < |x| :: x[k] != '/'
  }

  predicate AreSegments(segments: seq<string>) {
    forall i | 0 <= i < |segments| :: IsSegment(segments[i])
  }

  function Join(segments: seq<string>): string {
    if segments == [] then "" else segments[0] + Join(segments[1..])
  }

  /** Some segment starts with the part. */
  predicate HasPart(segments: seq<string>, part: string) {
    exists i :: 0 <= i < |segments| && part <= segments[i]
  }

  /** The two differ in one of their first letters, or the segment is too short for the part. */
  predicate Apart(part: string, segment: string)
    requires |part| > 3
  {
    || |segment| < |part|
    || part[1] != segment[1] || part[2] != segment[2] || part[3] != segment[3]
  }

  lemma PrefixAt(part: string, s: string, k: nat)
    requires k < |part| <= |s|
    ensures part <= s ==> part[k] == s[k]
  {
  }

  lemma AllApart(segments: seq<string>, part: string)
    requires |part| > 3 && forall i | 0 <= i < |segments| :: Apart(part, segments[i])
    ensures !HasPart(segments, part)
  {
    forall i | 0 <= i < |segments|
      ensures !(part <= segments[i])
    {
      assert Apart(part, segments[i]);
      if |segments[i]| >= |part| {
        PrefixAt(part, segments[i], 1);
        PrefixAt(part, segments[i], 2);
        PrefixAt(part, segments[i], 3);
      }
    }
  }

  // ----- strrchr

  lemma {:induction false} NoLastSegment(s: string)
    requires '/' !in s
    ensures LastSegment(s) == ""
  {
    if s != "" {
      NoLastSegment(s[1..]);
    }
  }

  lemma {:induction false} LastAfter(a: string, segment: string)
    requires IsSegment(segment)
    ensures LastSegment(a + segment) == segment
    decreases |a|
  {
    if a == "" {
      assert a + segment == segment;
      NoLastSegment(segment[1..]);
    } else {
      assert (a + segment)[1..] == a[1..] + segment;
      LastAfter(a[1..], segment);
    }
  }

  lemma {:induction false} JoinEnds(segments: seq<string>)
    requires segments != []
    ensures Join(segments) == Join(segments[..|segments| - 1]) + segments[|segments| - 1]
  {
    var n := |segments| - 1;
    if n == 0 {
      assert segments[1..] == [];
    } else {
      var rest := segments[1..];
      JoinEnds(rest);
      assert segments[..n][1..] == rest[..n - 1];
    }
  }

  /** The last segment of a leaf's path is the leaf's, even if the entry's name has slashes. */
  lemma LastOfLeaf(list: string, name: string, below: seq<string>)
    requires below != [] && AreSegments(below)
    ensures LastSegment(EntryPath(list, name) + Join(below)) == below[|below| - 1]
  {
    hide LastSegment, EntryPath;
    var e, n := EntryPath(list, name), |below| - 1;
    JoinEnds(below);
    assert e + Join(below) == e + Join(below[..n]) + below[n];
    LastAfter(e + Join(below[..n]), below[n]);
  }

  // ----- strstr

  /** A prefix ends before any character it does not have. */
  lemma PrefixStops(part: string, s: string, k: nat)
    requires k < |s| && s[k] !in part
    ensures part <= s <==> |part| <= k && part <= s[..k]
  {
    assert part <= s ==> forall i | 0 <= i < |part| :: part[i] == s[i];
    assert |part| <= k ==> s[..k][..|part|] == s[..|part|];
  }

  lemma {:induction false} ContainsAcross(a: string, c: char, b: string, part: string)
    requires part != "" && c !in part
    ensures Contains(a + [c] + b, part) <==> Contains(a, part) || Contains(b, part)
    decreases |a|
  {
    var s := a + [c] + b;
    PrefixStops(part, s, |a|);
    assert s[..|a|] == a;
    if a == "" {
      assert s[1..] == b;
    } else {
      assert s[1..] == a[1..] + [c] + b;
      ContainsAcross(a[1..], c, b, part);
    }
  }

  lemma {:induction false} SkipSlashless(x: string, r: string, part: string)
    requires part != "" && part[0] == '/' && '/' !in x
    ensures Contains(x + r, part) <==> Contains(r, part)
    decreases |x|
  {
    if x == "" {
      assert x + r == r;
    } else {
      assert (x + r)[1..] == x[1..] + r && (x + r)[0] == x[0];
      SkipSlashless(x[1..], r, part);
    }
  }

  lemma {:induction false} JoinContains(segments: seq<string>, part: string)
    requires AreSegments(segments) && IsSegment(part)
    ensures Contains(Join(segments), part) <==> HasPart(segments, part)
    decreases |segments|
  {
    if segments != [] {
      var x, rest := segments[0], segments[1..];
      var r := Join(rest);
      assert forall i | 0 <= i < |rest| :: rest[i] == segments[i + 1];
      JoinContains(rest, part);
      JoinStarts(rest);
      SkipSlashless(x[1..], r, part);
      assert (x + r)[1..] == x[1..] + r;
      FrontMatches(x, r, part);
      PartUnfolds(segments, part);
    }
  }

  lemma JoinStarts(segments: seq<string>)
    requires AreSegments(segments)
    ensures Join(segments) == "" || Join(segments)[0] == '/'
  {
  }

  lemma PartUnfolds(segments: seq<string>, part: string)
    requires segments != []
    ensures HasPart(segments, part) <==> part <= segments[0] || HasPart(segments[1..], part)
  {
    var rest := segments[1..];
    assert forall i | 0 <= i < |rest| :: rest[i] == segments[i + 1];
    assert forall i | 0 < i < |segments| :: segments[i] == rest[i - 1];
  }

  lemma FrontMatches(x: string, r: string, part: string)
    requires IsSegment(x) && IsSegment(part) && (r == "" || r[0] == '/')
    ensures part <= x + r <==> part <= x
  {
    if r == "" {
      assert x + r == x;
    } else {
      var s, t := x + r, part[1..];
      assert s[1..] == x[1..] + r;
      PrefixStops(t, s[1..], |x| - 1);
      assert s[1..][..|x| - 1] == x[1..];
      TailMatches(part, s);
      TailMatches(part, x);
    }
  }

  lemma TailMatches(part: string, s: string)
    requires part != "" && s != "" && part[0] == s[0]
    ensures part <= s <==> part[1..] <= s[1..]
  {
    assert part == [part[0]] + part[1..] && s == [s[0]] + s[1..];
    assert part <= s ==> part[1..] == s[1..][..|part| - 1];
  }

  /** In a single segment a part can only be found at the front. */
  lemma PartOfSegment(name: string, part: string)
    requires IsSegment(name) && IsSegment(part)
    ensures Contains(name, part) <==> part <= name
  {
    hide IsSegment, Contains;
    JoinContains([name], part);
    assert [name][1..] == [];
    assert Join([name]) == name;
    PartUnfolds([name], part);
    assert !HasPart([], part);
  }

  /** Where a search in a leaf's path succeeds: in the list's path, the entry's name, or below the entry. */
  lemma SearchInLeaf(list: seq<string>, name: string, below: seq<string>, part: string)
    requires AreSegments(list) && AreSegments(below) && IsSegment(part)
    requires forall c | c in part :: c !in "[]'\""
    ensures Contains(EntryPath(Join(list), name) + Join(below), part) <==>
              HasPart(list, part) || Contains(name, part) || HasPart(below, part)
  {
    hide Contains, Join, HasPart;
    var l, b := Join(list), Join(below);
    var q := Quote(name);
    var inner := name + [q] + ("" + [']'] + b);
    assert '[' !in part && q !in part && ']' !in part;
    assert EntryPath(l, name) + b == l + ['['] + ("name=" + [q] + inner);
    ContainsAcross(l, '[', "name=" + [q] + inner, part);
    ContainsAcross("name=", q, inner, part);
    ContainsAcross(name, q, "" + [']'] + b, part);
    ContainsAcross("", ']', b, part);
    NotContained("name=", part);
    NotContained("", part);
    JoinContains(list, part);
    JoinContains(below, part);
  }

  lemma NotContained(x: string, part: string)
    requires part != "" && part[0] == '/' && '/' !in x
    ensures !Contains(x, part)
  {
    SkipSlashless(x, "", part);
    assert x + "" == x;
  }
}
