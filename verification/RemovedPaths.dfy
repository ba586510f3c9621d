// Removed-field paths: how an entry of the decision is normalised, and which field paths it removes.
module RemovedPaths {

  /** The white space strings.TrimSpace trims. */
  predicate IsSpace(c: char) {
    || '\t' <= c <= '\r' || c == ' ' || c == '\U{0085}' || c == '\U{00A0}' || c == '\U{1680}'
    || '\U{2000}' <= c <= '\U{200A}' || c == '\U{2028}' || c == '\U{2029}' || c == '\U{202F}' || c == '\U{205F}'
      || c == '\U{3000}'
  }

  function TrimLeft(s: string): (t: string)
    ensures t == [] || !IsSpace(t[0])
    ensures |t| <= |s|
  {
    if s != [] && IsSpace(s[0]) then TrimLeft(s[1..]) else s
  }

  function TrimRight(s: string): (t: string)
    ensures t == [] || !IsSpace(t[|t| - 1])
    ensures t <= s
  {
    if s != [] && IsSpace(s[|s| - 1]) then TrimRight(s[..|s| - 1]) else s
  }

  function Trim(s: string): string {
    TrimRight(TrimLeft(s))
  }

  /** strings.Split(s, "."): one more part than there are dots. */
  function Split(s: string): (parts: seq<string>)
    ensures |parts| > 0
    ensures forall p <- parts :: '.' !in p
  {
    if s == [] then [[]]
    else if s[0] == '.' then [[]] + Split(s[1..])
    else
      var rest := Split(s[1..]);
      [[s[0]] + rest[0]] + rest[1..]
  }

  /** strings.Join(parts, "."). */
  function Join(parts: seq<string>): string {
    if |parts| == 0 then []
    else if |parts| == 1 then parts[0]
    else parts[0] + "." + Join(parts[1..])
  }

  /** The parts that are not blank, trimmed. */
  function Clean(parts: seq<string>): (cleaned: seq<string>)
    ensures |cleaned| <= |parts|
  {
    if parts == [] then []
    else
      var last := Trim(parts[|parts| - 1]);
      Clean(parts[..|parts| - 1]) + if last == [] then [] else [last]
  }

  /** The segments of an entry. */
  function Segments(path: string): seq<string> {
    Clean(Split(Trim(path)))
  }

  /** normalizePath. */
  function Normalize(path: string): string {
    Join(Segments(path))
  }

  /** A segment that came out of cleaning, as every GraphQL name does (section 2.1.9). */
  predicate IsSegment(s: string) {
    s != [] && '.' !in s && !IsSpace(s[0]) && !IsSpace(s[|s| - 1])
  }

  predicate AreSegments(path: seq<string>) {
    forall s <- path :: IsSegment(s)
  }

  // ------------------------------------------------------------------ normalising

  lemma {:induction false} TrimLeftSubset(s: string)
    ensures forall c <- TrimLeft(s) :: c in s
    ensures s != [] && !IsSpace(s[0]) ==> TrimLeft(s) == s
  {
    if s != [] && IsSpace(s[0]) {
      TrimLeftSubset(s[1..]);
    }
  }

  lemma TrimSubset(s: string)
    ensures Trim(s) == [] || (!IsSpace(Trim(s)[0]) && !IsSpace(Trim(s)[|Trim(s)| - 1]))
    ensures '.' !in s ==> '.' !in Trim(s)
    ensures s != [] && !IsSpace(s[0]) && !IsSpace(s[|s| - 1]) ==> Trim(s) == s
  {
    var l := TrimLeft(s);
    var t := TrimRight(l);
    assert t != [] ==> t[0] == l[0];
    assert forall c <- t :: c in l;
    TrimLeftSubset(s);
  }

  lemma {:induction false} CleanGivesSegments(parts: seq<string>)
    requires forall p <- parts :: '.' !in p
    ensures AreSegments(Clean(parts))
  {
    if parts == [] {
    } else {
      CleanGivesSegments(parts[..|parts| - 1]);
      TrimSubset(parts[|parts| - 1]);
    }
  }

  lemma {:induction false} CleanKeepsSegments(parts: seq<string>)
    requires AreSegments(parts)
    ensures Clean(parts) == parts
  {
    if parts == [] {
    } else {
      CleanKeepsSegments(parts[..|parts| - 1]);
      assert IsSegment(parts[|parts| - 1]);
      TrimSubset(parts[|parts| - 1]);
      assert parts == parts[..|parts| - 1] + [parts[|parts| - 1]];
    }
  }

  /** Splitting after joining gives the parts back. */
  lemma {:induction false} SplitPrefix(p: string, s: string)
    requires '.' !in p
    ensures Split(p + s) == [p + Split(s)[0]] + Split(s)[1..]
  {
    if p == [] {
      assert p + s == s;
      assert [] + Split(s)[0] == Split(s)[0];
    } else {
      assert (p + s)[1..] == p[1..] + s && (p + s)[0] == p[0];
      SplitPrefix(p[1..], s);
      assert [p[0]] + (p[1..] + Split(s)[0]) == p + Split(s)[0];
    }
  }

  lemma {:induction false} SplitJoin(parts: seq<string>)
    requires |parts| > 0 && forall p <- parts :: '.' !in p
    ensures Split(Join(parts)) == parts
  {
    if |parts| == 1 {
      SplitPrefix(parts[0], []);
      assert parts[0] + [] == parts[0];
    } else {
      var rest := Join(parts[1..]);
      SplitJoin(parts[1..]);
      SplitPrefix(parts[0], "." + rest);
      assert ("." + rest)[1..] == rest;
      assert Split("." + rest) == [[]] + Split(rest);
      assert parts[0] + [] == parts[0];
      assert parts[0] + "." + rest == parts[0] + ("." + rest);
      assert parts == [parts[0]] + parts[1..];
    }
  }

  /** Dot-joining is injective on non-empty lists of dot-free parts. */
  lemma JoinInjective(a: seq<string>, b: seq<string>)
    requires |a| > 0 && |b| > 0 && (forall p <- a :: '.' !in p) && (forall p <- b :: '.' !in p)
    requires Join(a) == Join(b)
    ensures a == b
  {
    SplitJoin(a);
    SplitJoin(b);
  }

  lemma {:induction false} JoinIsTrimmed(parts: seq<string>)
    requires |parts| > 0 && AreSegments(parts)
    ensures Join(parts) != [] && !IsSpace(Join(parts)[0]) && !IsSpace(Join(parts)[|Join(parts)| - 1])
  {
    assert IsSegment(parts[0]);
    if |parts| > 1 {
      JoinIsTrimmed(parts[1..]);
      assert Join(parts) == parts[0] + "." + Join(parts[1..]);
    }
  }

  lemma NoSegments()
    ensures Segments("") == []
  {
    assert Trim("") == "" && Split("") == [""];
    assert Clean([""]) == Clean([""][..0]) + [];
  }

  /** Segments joined and normalised again are the same segments. */
  lemma SegmentsOfJoin(parts: seq<string>)
    requires AreSegments(parts)
    ensures Segments(Join(parts)) == parts
  {
    if parts == [] {
      NoSegments();
    } else {
      JoinIsTrimmed(parts);
      TrimSubset(Join(parts));
      SplitJoin(parts);
      CleanKeepsSegments(parts);
    }
  }

  /** Normalising twice is normalising once. */
  lemma NormalizeIdempotent(path: string)
    ensures Normalize(Normalize(path)) == Normalize(path)
    ensures AreSegments(Segments(path))
  {
    CleanGivesSegments(Split(Trim(path)));
    SegmentsOfJoin(Segments(path));
  }

  // ------------------------------------------------------------------ what trimming, splitting and cleaning come to

  predicate AllSpace(s: string) {
    forall c <- s :: IsSpace(c)
  }

  /** Trimming takes white space off both ends, all of it. */
  lemma {:induction false} TrimIs(s: string) returns (front: string, back: string)
    ensures s == front + Trim(s) + back && AllSpace(front) && AllSpace(back)
    ensures Trim(s) == "" || (!IsSpace(Trim(s)[0]) && !IsSpace(Trim(s)[|Trim(s)| - 1]))
  {
    front := TrimLeftIs(s);
    back := TrimRightIs(TrimLeft(s));
    TrimSubset(s);
  }

  lemma {:induction false} TrimLeftIs(s: string) returns (front: string)
    ensures s == front + TrimLeft(s) && AllSpace(front)
  {
    if s != [] && IsSpace(s[0]) {
      front := TrimLeftIs(s[1..]);
      front := [s[0]] + front;
    } else {
      front := [];
    }
  }

  lemma {:induction false} TrimRightIs(s: string) returns (back: string)
    ensures s == TrimRight(s) + back && AllSpace(back)
  {
    if s != [] && IsSpace(s[|s| - 1]) {
      back := TrimRightIs(s[..|s| - 1]);
      back := back + [s[|s| - 1]];
    } else {
      back := [];
    }
  }

  /** Nothing is left exactly of what is all white space. */
  lemma BlankIff(s: string)
    ensures Trim(s) == "" <==> AllSpace(s)
  {
    var front, back := TrimIs(s);
    if Trim(s) != "" {
      assert Trim(s)[0] in s;
    }
  }

  /** Cleaning goes part by part: blank parts go, the others are trimmed. */
  lemma CleanOne(part: string)
    ensures Clean([part]) == if AllSpace(part) then [] else [Trim(part)]
  {
    BlankIff(part);
    assert [part][..0] == [];
  }

  lemma {:induction false} CleanAppend(parts: seq<string>, more: seq<string>)
    ensures Clean(parts + more) == Clean(parts) + Clean(more)
  {
    if more == [] {
      assert parts + more == parts;
    } else {
      var last := more[|more| - 1];
      CleanAppend(parts, more[..|more| - 1]);
      var one := if Trim(last) == [] then [] else [Trim(last)];
      assert (parts + more)[..|parts + more| - 1] == parts + more[..|more| - 1];
      Grouped(Clean(parts), Clean(more[..|more| - 1]), one);
    }
  }

  lemma Grouped<T>(a: seq<T>, b: seq<T>, c: seq<T>)
    ensures a + (b + c) == a + b + c
  {
  }

  /** The parts of a split have no dot, and joined by dots again they are the string. */
  lemma {:induction false} JoinSplit(s: string)
    ensures Join(Split(s)) == s && forall p <- Split(s) :: '.' !in p
  {
    if s != [] {
      JoinSplit(s[1..]);
      var rest := Split(s[1..]);
      if s[0] == '.' {
        assert Split(s) == [[]] + rest && ([[]] + rest)[1..] == rest;
        assert [] + "." + Join(rest) == s;
      } else {
        assert ([[s[0]] + rest[0]] + rest[1..])[1..] == rest[1..];
      }
    }
  }

  predicate IsNameStart(c: char) {
    c == '_' || 'a' <= c <= 'z' || 'A' <= c <= 'Z'
  }

  /** A name as GraphQL has it (section 2.1.9). */
  predicate IsName(s: string) {
    s != "" && IsNameStart(s[0]) && forall c <- s :: IsNameStart(c) || '0' <= c <= '9'
  }

  lemma NamesAreSegments(s: string)
    requires IsName(s)
    ensures IsSegment(s)
  {
    assert s[0] in s && s[|s| - 1] in s;
  }

  /** White space as Unicode has it. */
  lemma SpacesAre(c: char)
    ensures IsSpace(c) <==>
      || c as int in {0x09, 0x0A, 0x0B, 0x0C, 0x0D, 0x20, 0x85, 0xA0, 0x1680, 0x2028, 0x2029, 0x202F, 0x205F, 0x3000}
      || 0x2000 <= c as int <= 0x200A
  {
  }

  // ------------------------------------------------------------------ the removed set

  /** The set the decision's entries give; entries that normalise to nothing are skipped. */
  function RemovedSet(entries: seq<string>): set<string> {
    if entries == [] then {}
    else
      var normalized := Normalize(entries[|entries| - 1]);
      RemovedSet(entries[..|entries| - 1]) + if normalized == "" then {} else {normalized}
  }

  lemma {:induction false} InRemovedSet(entries: seq<string>, n: string)
    ensures n in RemovedSet(entries) <==> n != "" && exists e <- entries :: Normalize(e) == n
  {
    if entries == [] {
    } else {
      var front, last := entries[..|entries| - 1], entries[|entries| - 1];
      InRemovedSet(front, n);
      assert forall e :: e in entries <==> e in front || e == last;
    }
  }

  lemma RemovedSetNext(entries: seq<string>, i: nat, removed: set<string>, normalized: string)
    requires i < |entries| && removed == RemovedSet(entries[..i]) && normalized == Normalize(entries[i])
    ensures RemovedSet(entries[..i + 1]) == if normalized == "" then removed else removed + {normalized}
  {
    var more := entries[..i + 1];
    assert more[..i] == entries[..i] && more[i] == entries[i];
    assert RemovedSet(more) == RemovedSet(more[..i]) + if normalized == "" then {} else {normalized};
  }

  function ShouldRemove(path: seq<string>, removed: set<string>): bool {
    Join(path) in removed
  }

  /** A field path is removed exactly when some entry has just these segments. */
  lemma RemovedExactly(path: seq<string>, entries: seq<string>)
    requires |path| > 0 && AreSegments(path)
    ensures ShouldRemove(path, RemovedSet(entries)) <==> exists e <- entries :: Segments(e) == path
  {
    JoinIsTrimmed(path);
    InRemovedSet(entries, Join(path));
    forall e <- entries
      ensures Normalize(e) == Join(path) <==> Segments(e) == path
    {
      if Normalize(e) == Join(path) {
        NormalizeIdempotent(e);
        SegmentsOfJoin(Segments(e));
        SegmentsOfJoin(path);
      }
    }
  }

  // ------------------------------------------------------------------ the code

  /** The compaction in place: the cleaned parts end up at the front of the array. */
  method Compact(parts: array<string>) returns (n: nat)
    modifies parts
    ensures n <= parts.Length && parts[..n] == Clean(old(parts[..]))
  {
    n := 0;
    var i := 0;
    while i < parts.Length
      invariant 0 <= n <= i <= parts.Length
      invariant parts[..n] == Clean(old(parts[..])[..i])
      invariant forall k | i <= k < parts.Length :: parts[k] == old(parts[k])
    {
      var p := Trim(parts[i]);
      ghost var was := old(parts[..]);
      assert was[..i + 1][..i] == was[..i] && was[i] == parts[i];
      assert Clean(was[..i + 1]) == Clean(was[..i]) + if p == [] then [] else [p];
      if p != "" {
        parts[n] := p;
        n := n + 1;
      }
      i := i + 1;
    }
    assert old(parts[..])[..i] == old(parts[..]);
  }

  method NormalizePath(path: string) returns (normalized: string)
    ensures normalized == Normalize(path)
  {
    var trimmed := Trim(path);
    if trimmed == "" {
      NoSegments();
      assert Segments(path) == Clean(Split(""));
      return "";
    }
    var split := Split(trimmed);
    var parts := new string[|split|](i requires 0 <= i < |split| => split[i]);
    assert parts[..] == split;
    var n := Compact(parts);
    normalized := Join(parts[..n]);
  }

  method BuildRemovedSet(entries: seq<string>) returns (removed: set<string>)
    ensures removed == RemovedSet(entries)
  {
    removed := {};
    var i := 0;
    while i < |entries|
      invariant 0 <= i <= |entries|
      invariant removed == RemovedSet(entries[..i])
    {
      var normalized := NormalizePath(entries[i]);
      RemovedSetNext(entries, i, removed, normalized);
      if normalized != "" {
        removed := removed + {normalized};
      }
      assert removed == RemovedSet(entries[..i + 1]);
      i := i + 1;
    }
    assert entries[..i] == entries;
  }
}
