/**
 Validation of compiled route contracts: when two of them would answer the same requests.
 */
module RouteRegistry {

  const VERSION_NEUTRAL := "__VERSION_NEUTRAL__"

  datatype Contract = Contract(verb: string, path: string, versions: seq<string>, hosts: seq<string>, owner: string)

  predicate Neutral(versions: seq<string>) {
    versions == [] || VERSION_NEUTRAL in versions
  }

  /** Two neutral handlers clash, a neutral and a versioned one do not, two versioned ones clash on a shared version. */
  predicate VersionsOverlap(left: seq<string>, right: seq<string>) {
    if Neutral(left) && Neutral(right) then true
    else if Neutral(left) || Neutral(right) then false
    else exists v :: v in left && v in right
  }

  predicate DimensionsOverlap(left: Contract, right: Contract) {
    left.verb == right.verb && left.hosts == right.hosts && VersionsOverlap(left.versions, right.versions)
  }

  // ---------------------------------------------------------------- paths

  function Split(s: string): (r: seq<string>)
    ensures r != []
    ensures forall i :: 0 <= i < |r| ==> '/' !in r[i]
  {
    if s == [] then [""]
    else if s[0] == '/' then [""] + Split(s[1..])
    else
      var rest := Split(s[1..]);
      [[s[0]] + rest[0]] + rest[1..]
  }

  function Joined(segments: seq<string>): string
    requires segments != []
  {
    if |segments| == 1 then segments[0] else segments[0] + "/" + Joined(segments[1..])
  }

  function StripLeft(s: string): string {
    if s != [] && s[0] == '/' then StripLeft(s[1..]) else s
  }

  function StripRight(s: string): string {
    if s != [] && s[|s| - 1] == '/' then StripRight(s[..|s| - 1]) else s
  }

  /** What a router tells apart in one segment: a rest-of-path or wildcard, a parameter, or a literal. */
  function CanonicalSegment(segment: string): (r: string)
    ensures '/' !in segment ==> '/' !in r
  {
    if |segment| >= 2 && segment[..2] == "{*" && segment[|segment| - 1] == '}' then "*"
    else if segment != "" && segment[0] == '{' && segment[|segment| - 1] == '}' then "{}"
    else if '*' in segment then "*"
    else segment
  }

  function CanonicalSegments(segments: seq<string>): (r: seq<string>)
    ensures |r| == |segments|
    ensures forall i :: 0 <= i < |r| ==> r[i] == CanonicalSegment(segments[i])
  {
    seq(|segments|, i requires 0 <= i < |segments| => CanonicalSegment(segments[i]))
  }

  function Segments(path: string): (r: seq<string>)
    ensures r != [] && forall i :: 0 <= i < |r| ==> '/' !in r[i]
  {
    Split(StripRight(StripLeft(path)))
  }

  function CanonicalPattern(path: string): string {
    if path == "/" then path else "/" + Joined(CanonicalSegments(Segments(path)))
  }

  lemma {:induction false} SplitSegment(a: string, rest: string)
    requires '/' !in a
    ensures Split(a + "/" + rest) == [a] + Split(rest)
  {
    if a == [] {
      assert (a + "/" + rest)[1..] == rest;
    } else {
      assert a[0] in a && '/' !in a[1..];
      SplitSegment(a[1..], rest);
      assert [a[0]] + a[1..] == a;
      assert (a + "/" + rest)[1..] == a[1..] + "/" + rest;
    }
  }

  lemma {:induction false} SplitPlain(a: string)
    requires '/' !in a
    ensures Split(a) == [a]
  {
    if a != [] {
      assert a[0] in a && '/' !in a[1..];
      SplitPlain(a[1..]);
      assert [a[0]] + a[1..] == a;
    }
  }

  /** Joining segments and splitting again gives the segments back. */
  lemma {:induction false} SplitJoined(segments: seq<string>)
    requires segments != [] && forall i :: 0 <= i < |segments| ==> '/' !in segments[i]
    ensures Split(Joined(segments)) == segments
  {
    if |segments| == 1 {
      SplitPlain(segments[0]);
    } else {
      SplitJoined(segments[1..]);
      SplitSegment(segments[0], Joined(segments[1..]));
      assert segments == [segments[0]] + segments[1..];
    }
  }

  lemma RootIsEmpty()
    ensures Segments("/") == [""]
  {
    assert StripLeft("/") == "";
  }

  /** Two paths have one canonical pattern iff their segments read the same to a router, one by one. */
  lemma SamePatternIff(p: string, q: string)
    ensures CanonicalPattern(p) == CanonicalPattern(q) <==>
      CanonicalSegments(Segments(p)) == CanonicalSegments(Segments(q))
  {
    RootIsEmpty();
    var a, b := CanonicalSegments(Segments(p)), CanonicalSegments(Segments(q));
    SplitJoined(a);
    SplitJoined(b);
    RootPattern(p);
    RootPattern(q);
    if CanonicalPattern(p) == CanonicalPattern(q) {
      assert ("/" + Joined(a))[1..] == Joined(a) && ("/" + Joined(b))[1..] == Joined(b);
    }
  }

  lemma RootPattern(p: string)
    ensures CanonicalPattern(p) == "/" + Joined(CanonicalSegments(Segments(p)))
  {
    if p == "/" {
      RootIsEmpty();
      assert CanonicalSegments([""]) == [""];
    }
  }

  // ---------------------------------------------------------------- what a router tells apart

  /** A parameter of one segment, written in braces. */
  predicate IsParameter(segment: string) {
    |segment| >= 2 && segment[0] == '{' && segment[1] != '*' && segment[|segment| - 1] == '}'
  }

  /** The rest of a path, or any text with a star outside of a parameter. */
  predicate IsWildcard(segment: string) {
    '*' in segment && !IsParameter(segment)
  }

  /** Read by a router, two parameters are the same, so are two wildcards, and literals are what they spell. */
  predicate ReadAlike(left: string, right: string) {
    if IsParameter(left) || IsParameter(right) then IsParameter(left) && IsParameter(right)
    else if IsWildcard(left) || IsWildcard(right) then IsWildcard(left) && IsWildcard(right)
    else left == right
  }

  predicate AllReadAlike(left: seq<string>, right: seq<string>) {
    |left| == |right| && forall i :: 0 <= i < |left| ==> ReadAlike(left[i], right[i])
  }

  lemma SegmentReading(segment: string)
    ensures var r := CanonicalSegment(segment);
      r == if IsParameter(segment) then "{}" else if IsWildcard(segment) then "*" else segment
  {
    if |segment| >= 2 {
      assert segment[..2] == "{*" <==> segment[0] == '{' && segment[1] == '*';
      assert segment[1] in segment;
    }
  }

  lemma ReadAlikeIff(left: string, right: string)
    ensures CanonicalSegment(left) == CanonicalSegment(right) <==> ReadAlike(left, right)
  {
    SegmentReading(left);
    SegmentReading(right);
    assert "{}"[1] == '}' && '*' in "*" by {
      assert "*"[0] == '*';
    }
  }

  predicate OnlySlashes(s: string) {
    forall i :: 0 <= i < |s| ==> s[i] == '/'
  }

  /** Segments as a path holds them: without slashes, the outer two not empty, or one empty one alone. */
  predicate AreSegments(segments: seq<string>) {
    && segments != [] && (forall i :: 0 <= i < |segments| ==> '/' !in segments[i])
    && (segments == [""] || (segments[0] != "" && segments[|segments| - 1] != ""))
  }

  /** A path is its segments with a slash between them, and slashes around. */
  ghost predicate Spells(path: string, segments: seq<string>) {
    AreSegments(segments) && exists lead, trail :: OnlySlashes(lead) && OnlySlashes(trail) && path == lead + Joined(segments) + trail
  }

  lemma {:induction false} StripLeftIs(s: string) returns (lead: string)
    ensures OnlySlashes(lead) && s == lead + StripLeft(s)
    ensures StripLeft(s) == "" || StripLeft(s)[0] != '/'
  {
    lead := "";
    if s != "" && s[0] == '/' {
      lead := StripLeftIs(s[1..]);
      lead := "/" + lead;
    }
  }

  lemma {:induction false} StripRightIs(s: string) returns (trail: string)
    ensures OnlySlashes(trail) && s == StripRight(s) + trail
    ensures StripRight(s) == "" || StripRight(s)[|StripRight(s)| - 1] != '/'
  {
    trail := "";
    if s != "" && s[|s| - 1] == '/' {
      trail := StripRightIs(s[..|s| - 1]);
      trail := trail + "/";
    }
  }

  lemma {:induction false} LeadIsStripped(lead: string, s: string)
    requires OnlySlashes(lead)
    ensures StripLeft(lead + s) == StripLeft(s)
  {
    if lead == "" {
      assert lead + s == s;
    } else {
      assert (lead + s)[1..] == lead[1..] + s;
      LeadIsStripped(lead[1..], s);
    }
  }

  lemma {:induction false} TrailIsStripped(s: string, trail: string)
    requires OnlySlashes(trail)
    ensures StripRight(s + trail) == StripRight(s)
  {
    if trail == "" {
      assert s + trail == s;
    } else {
      assert (s + trail)[..|s + trail| - 1] == s + trail[..|trail| - 1];
      TrailIsStripped(s, trail[..|trail| - 1]);
    }
  }

  lemma {:induction false} JoinedSplit(s: string)
    ensures Joined(Split(s)) == s
  {
    if s != "" {
      JoinedSplit(s[1..]);
      var rest := Split(s[1..]);
      assert s == [s[0]] + s[1..];
      if s[0] == '/' {
        assert Split(s) == [""] + rest && Split(s)[1..] == rest;
      } else if |rest| > 1 {
        assert Split(s)[1..] == rest[1..];
      }
    }
  }

  lemma {:induction false} SplitEnds(s: string)
    ensures s != "" && s[0] != '/' ==> Split(s)[0] != ""
    ensures s != "" && s[|s| - 1] != '/' ==> Split(s)[|Split(s)| - 1] != ""
    ensures s == "" ==> Split(s) == [""]
  {
    if s != "" {
      SplitEnds(s[1..]);
    }
  }

  lemma {:induction false} JoinedEnds(segments: seq<string>)
    requires segments != [] && (forall i :: 0 <= i < |segments| ==> '/' !in segments[i]) && segments[|segments| - 1] != ""
    ensures Joined(segments) != "" && Joined(segments)[|Joined(segments)| - 1] != '/'
    ensures segments[0] != "" ==> Joined(segments)[0] != '/'
  {
    var first := segments[0];
    assert first != "" ==> first[0] in first && first[|first| - 1] in first;
    if |segments| > 1 {
      JoinedEnds(segments[1..]);
    }
  }

  /** Which segments a path is read as. */
  lemma SegmentsIff(path: string, segments: seq<string>)
    ensures Segments(path) == segments <==> Spells(path, segments)
  {
    if Segments(path) == segments {
      var lead := StripLeftIs(path);
      var inner := StripLeft(path);
      var trail := StripRightIs(inner);
      var core := StripRight(inner);
      JoinedSplit(core);
      SplitEnds(core);
      assert core != "" ==> core[0] == inner[0];
      assert path == lead + Joined(segments) + trail;
    }
    if Spells(path, segments) {
      var lead, trail :| OnlySlashes(lead) && OnlySlashes(trail) && path == lead + Joined(segments) + trail;
      SpelledSegments(lead, segments, trail);
    }
  }

  lemma SpelledSegments(lead: string, segments: seq<string>, trail: string)
    requires OnlySlashes(lead) && OnlySlashes(trail) && AreSegments(segments)
    ensures Segments(lead + Joined(segments) + trail) == segments
  {
    var core := Joined(segments);
    assert lead + core + trail == lead + (core + trail);
    LeadIsStripped(lead, core + trail);
    SplitJoined(segments);
    if segments == [""] {
      assert core + trail == trail + "";
      LeadIsStripped(trail, "");
    } else {
      JoinedEnds(segments);
      assert StripLeft(core + trail) == core + trail && StripRight(core) == core;
      TrailIsStripped(core, trail);
    }
  }

  /** Two paths have one canonical pattern iff their segments read alike, one by one. */
  lemma PathsReadAlikeIff(p: string, q: string, left: seq<string>, right: seq<string>)
    requires Spells(p, left) && Spells(q, right)
    ensures CanonicalPattern(p) == CanonicalPattern(q) <==> AllReadAlike(left, right)
  {
    SegmentsIff(p, left);
    SegmentsIff(q, right);
    SamePatternIff(p, q);
    hide CanonicalPattern, Segments, CanonicalSegment, ReadAlike;
    forall s, t: string ensures CanonicalSegment(s) == CanonicalSegment(t) <==> ReadAlike(s, t) {
      ReadAlikeIff(s, t);
    }
    var a, b := CanonicalSegments(left), CanonicalSegments(right);
    if a == b {
      forall i | 0 <= i < |left| ensures ReadAlike(left[i], right[i]) {
        assert a[i] == b[i];
      }
    }
  }

  // ---------------------------------------------------------------- a segment more

  function Slashes(s: string): nat {
    if s == [] then 0 else (if s[0] == '/' then 1 else 0) + Slashes(s[1..])
  }

  lemma {:induction false} SplitSize(s: string)
    ensures |Split(s)| == Slashes(s) + 1
  {
    if s != [] {
      SplitSize(s[1..]);
    }
  }

  lemma {:induction false} SlashesAfter(s: string, rest: string)
    ensures Slashes(s + rest) == Slashes(s) + Slashes(rest)
  {
    if s == [] {
      assert s + rest == rest;
    } else {
      assert (s + rest)[1..] == s[1..] + rest;
      SlashesAfter(s[1..], rest);
    }
  }

  lemma {:induction false} StrippedSlashes(s: string)
    ensures Slashes(StripLeft(s)) <= Slashes(s)
    ensures s != "" && s[0] == '/' ==> Slashes(StripLeft(s)) < Slashes(s)
  {
    if s != "" && s[0] == '/' {
      StrippedSlashes(s[1..]);
    }
  }

  lemma {:induction false} StripRightBehind(s: string, t: string)
    ensures StripRight(s + t) == if StripRight(t) != "" then s + StripRight(t) else StripRight(s)
  {
    if t == "" {
      assert s + t == s;
    } else {
      assert (s + t)[..|s + t| - 1] == s + t[..|t| - 1];
      if t[|t| - 1] == '/' {
        StripRightBehind(s, t[..|t| - 1]);
      }
    }
  }

  /** It does not matter which end is stripped first. */
  lemma {:induction false} StripEnds(s: string)
    ensures StripRight(StripLeft(s)) == StripLeft(StripRight(s))
  {
    if s != "" {
      assert s == [s[0]] + s[1..];
      StripRightBehind([s[0]], s[1..]);
      if s[0] == '/' {
        StripEnds(s[1..]);
        assert StripRight("/") == "" by {
          assert "/"[..0] == "";
        }
        assert StripRight(s) != "" ==> StripRight(s)[1..] == StripRight(s[1..]);
      } else {
        assert StripRight(s) != "" && StripRight(s)[0] == s[0];
      }
    }
  }

  /** Something other than slashes. */
  predicate HasSegment(s: string) {
    exists c :: c in s && c != '/'
  }

  lemma {:induction false} StrippedFront(front: string, rest: string)
    requires HasSegment(front)
    ensures StripLeft(front) != "" && StripLeft(front)[0] != '/'
    ensures StripLeft(front + rest) == StripLeft(front) + rest
  {
    assert (front + rest)[0] == front[0] && (front + rest)[1..] == front[1..] + rest;
    if front[0] == '/' {
      assert front == [front[0]] + front[1..];
      StrippedFront(front[1..], rest);
    }
  }

  /** A path behind one segment more, or several, reads differently to a router. */
  lemma SegmentMoreTells(front: string, rest: string)
    requires HasSegment(front) && (rest == "" || rest[0] == '/')
    ensures CanonicalPattern("/" + (front + rest)) != CanonicalPattern(if rest == "" then "/" else rest)
  {
    var path, bare := "/" + (front + rest), if rest == "" then "/" else rest;
    SamePatternIff(path, bare);
    var core, t := StripLeft(front), StripRight(rest);
    StrippedFront(front, rest);
    assert path[1..] == front + rest;
    assert Segments(path) == Split(StripRight(core + rest));
    StripRightBehind(core, rest);
    StripEnds(rest);
    RootIsEmpty();
    if t == "" {
      StripRightHead(core);
      StripRightKeeps(core);
      SplitHead(StripRight(core));
      assert Segments(bare) == [""];
      assert CanonicalSegments(Segments(path))[0] != "" && CanonicalSegments([""])[0] == "";
    } else {
      SplitSize(core + t);
      SplitSize(StripLeft(t));
      SlashesAfter(core, t);
      StrippedSlashes(t);
      StripRightHead(rest);
      assert |CanonicalSegments(Segments(path))| > |CanonicalSegments(Segments(bare))|;
    }
  }

  lemma {:induction false} StripRightKeeps(s: string)
    requires s != "" && s[0] != '/'
    ensures StripRight(s) != ""
  {
    if s[|s| - 1] == '/' {
      StripRightKeeps(s[..|s| - 1]);
    }
  }

  lemma SplitHead(s: string)
    requires s != "" && s[0] != '/'
    ensures Split(s)[0] != ""
  {
  }

  lemma {:induction false} StripRightHead(s: string)
    ensures StripRight(s) != "" ==> s != "" && StripRight(s)[0] == s[0]
  {
    if s != "" && s[|s| - 1] == '/' {
      StripRightHead(s[..|s| - 1]);
    }
  }

  // ---------------------------------------------------------------- validation

  predicate Conflict(left: Contract, right: Contract) {
    DimensionsOverlap(left, right) && CanonicalPattern(left.path) == CanonicalPattern(right.path)
  }

  /**
   When two contracts conflict: on one verb and the same hosts, both neutral or both declaring some one
   version, and with paths that read alike, segment by segment.
   */
  lemma ConflictIff(left: Contract, right: Contract, there: seq<string>, here: seq<string>)
    requires Spells(left.path, there) && Spells(right.path, here)
    ensures Conflict(left, right) <==>
      && left.verb == right.verb && left.hosts == right.hosts && AllReadAlike(there, here)
      && (left.versions == [] || VERSION_NEUTRAL in left.versions <==> right.versions == [] || VERSION_NEUTRAL in right.versions)
      && (left.versions == [] || VERSION_NEUTRAL in left.versions || exists v :: v in left.versions && v in right.versions)
  {
    PathsReadAlikeIff(left.path, right.path, there, here);
    hide CanonicalPattern, Spells, AllReadAlike;
  }

  predicate SameRoute(left: Contract, right: Contract) {
    left.verb == right.verb && left.path == right.path && left.versions == right.versions && left.hosts == right.hosts
  }

  predicate ConflictFree(contracts: seq<Contract>) {
    forall i, j :: 0 <= i < j < |contracts| ==> !Conflict(contracts[i], contracts[j])
  }

  lemma DuplicateConflicts(left: Contract, right: Contract)
    requires SameRoute(left, right)
    ensures Conflict(left, right)
  {
    if !Neutral(left.versions) {
      assert left.versions[0] in left.versions && left.versions[0] in right.versions;
    }
  }

  /** Accepts iff no two contracts share verb, hosts, canonical pattern and an overlapping version. */
  method Validate(contracts: seq<Contract>) returns (accepted: bool)
    ensures accepted <==> ConflictFree(contracts)
  {
    hide CanonicalPattern, VersionsOverlap;
    var seenExact: set<(string, string, seq<string>, seq<string>)> := {};
    var seen: seq<Contract> := [];
    var n := 0;
    while n < |contracts|
      invariant n <= |contracts| && seen == contracts[..n]
      invariant forall k :: k in seenExact <==> exists i :: 0 <= i < n && ExactKey(contracts[i]) == k
      invariant ConflictFree(contracts[..n])
    {
      var c := contracts[n];
      if ExactKey(c) in seenExact {
        var i :| 0 <= i < n && ExactKey(contracts[i]) == ExactKey(c);
        DuplicateConflicts(contracts[i], c);
        return false;
      }
      var m := 0;
      while m < |seen|
        invariant m <= |seen|
        invariant forall i :: 0 <= i < m ==> !Conflict(contracts[i], c)
      {
        if DimensionsOverlap(seen[m], c) {
          if CanonicalPattern(seen[m].path) == CanonicalPattern(c.path) {
            assert Conflict(contracts[m], contracts[n]);
            return false;
          }
        }
        m := m + 1;
      }
      seenExact := seenExact + {ExactKey(c)};
      seen := seen + [c];
      n := n + 1;
    }
    assert contracts[..n] == contracts;
    return true;
  }

  function ExactKey(c: Contract): (string, string, seq<string>, seq<string>) {
    (c.verb, c.path, c.versions, c.hosts)
  }
}
