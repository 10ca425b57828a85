/** Path cleaning and segment prefixes (web/stateless.go). */
module Paths {
  import opened GoStrings

  // ---------------------------------------------------------------- segment-list specification

  /** One step of the resolving loop: drop "" and ".", pop on "..", push anything else. */
  function Push(resolved: seq<string>, segment: string): seq<string> {
    if segment == "" || segment == "." then resolved
    else if segment == ".." then (if resolved == [] then [] else resolved[..|resolved| - 1])
    else resolved + [segment]
  }

  function ResolveFrom(resolved: seq<string>, segments: seq<string>): seq<string>
    decreases |segments|
  {
    if segments == [] then resolved
    else ResolveFrom(Push(resolved, segments[0]), segments[1..])
  }

  /** The segment list a path stands for. */
  function Segments(path: string): seq<string> {
    ResolveFrom([], Split(path, '/'))
  }

  /** A segment that can stand in a cleaned path. */
  predicate Plain(segment: string) {
    segment != "" && segment != "." && segment != ".." && '/' !in segment
  }

  ghost predicate AllPlain(segments: seq<string>) {
    forall s :: s in segments ==> Plain(s)
  }

  /** Each segment preceded by its separator. */
  function Render(segments: seq<string>): string {
    if segments == [] then "" else "/" + segments[0] + Render(segments[1..])
  }

  // ---------------------------------------------------------------- string-level code

  /** The cleaned path, without the duplicate-separator loop of the method below. */
  function CleanPath(path: string): string {
    var resolved := Segments(path);
    "/" + Join(resolved, "/") + (if HasSuffix(path, "/") && resolved != [] then "/" else "")
  }

  function TrimSlash(s: string): string {
    if HasSuffix(s, "/") then s[..|s| - 1] else s
  }

  function NormalizePrefix(prefix: string): string {
    var trimmed := TrimSpace(prefix);
    if trimmed == "" then ""
    else
      var cleaned := CleanPath(trimmed);
      if cleaned != "/" then TrimSlash(cleaned) else cleaned
  }

  predicate MatchesPrefix(path: string, prefix: string) {
    if prefix == "" then false
    else if prefix == "/" then true
    else path == prefix || HasPrefix(path, prefix + "/")
  }

  // ---------------------------------------------------------------- the cleaning loops

  predicate HasDouble(s: string) {
    exists i :: 0 <= i < |s| - 1 && s[i] == '/' && s[i + 1] == '/'
  }

  /** strings.ReplaceAll(s, "//", "/"): leftmost, non-overlapping. */
  function ReplaceDouble(s: string): string {
    if |s| < 2 then s
    else if s[0] == '/' && s[1] == '/' then "/" + ReplaceDouble(s[2..])
    else [s[0]] + ReplaceDouble(s[1..])
  }

  /** A pass that has something to replace shortens the string. */
  lemma {:induction false} ReplaceDoubleShrinks(s: string)
    ensures |ReplaceDouble(s)| <= |s|
    ensures HasDouble(s) ==> |ReplaceDouble(s)| < |s|
    decreases |s|
  {
    if |s| < 2 {
    } else if s[0] == '/' && s[1] == '/' {
      ReplaceDoubleShrinks(s[2..]);
    } else {
      ReplaceDoubleShrinks(s[1..]);
      if HasDouble(s) {
        var i :| 0 <= i < |s| - 1 && s[i] == '/' && s[i + 1] == '/';
        assert s[1..][i - 1] == '/' && s[1..][i] == '/';
      }
    }
  }

  /** A pass keeps the last character. */
  lemma {:induction false} ReplaceDoubleLast(s: string)
    ensures s == "" <==> ReplaceDouble(s) == ""
    ensures s != "" ==> ReplaceDouble(s)[|ReplaceDouble(s)| - 1] == s[|s| - 1]
    decreases |s|
  {
    if |s| < 2 {
    } else if s[0] == '/' && s[1] == '/' {
      ReplaceDoubleLast(s[2..]);
    } else {
      ReplaceDoubleLast(s[1..]);
    }
  }

  function DropEmpty(segments: seq<string>): seq<string> {
    if segments == [] then []
    else (if segments[0] == "" then [] else [segments[0]]) + DropEmpty(segments[1..])
  }

  /** Resolving ignores empty segments. */
  lemma {:induction false} ResolveIgnoresEmpty(resolved: seq<string>, segments: seq<string>)
    ensures ResolveFrom(resolved, segments) == ResolveFrom(resolved, DropEmpty(segments))
    decreases |segments|
  {
    if segments != [] {
      ResolveIgnoresEmpty(Push(resolved, segments[0]), segments[1..]);
      if segments[0] == "" {
        assert DropEmpty(segments) == DropEmpty(segments[1..]);
      } else {
        assert DropEmpty(segments)[1..] == DropEmpty(segments[1..]);
      }
    }
  }

  lemma SlashPieces(t: string)
    ensures Split("/" + t, '/') == [""] + Split(t, '/')
    ensures Split("/" + t, '/')[1..] == Split(t, '/')
    ensures DropEmpty([""] + Split(t, '/')) == DropEmpty(Split(t, '/'))
    ensures DropEmpty(Split(t, '/')) ==
            (if Split(t, '/')[0] == "" then [] else [Split(t, '/')[0]]) + DropEmpty(Split(t, '/')[1..])
  {
    assert ("/" + t)[1..] == t;
    assert ([""] + Split(t, '/'))[1..] == Split(t, '/');
  }

  lemma CharPieces(c: char, t: string)
    ensures var pieces := Split([c] + t, '/');
            pieces[0] == (if c == '/' then "" else [c] + Split(t, '/')[0]) &&
            pieces[1..] == (if c == '/' then Split(t, '/') else Split(t, '/')[1..])
    ensures DropEmpty(Split(t, '/')) ==
            (if Split(t, '/')[0] == "" then [] else [Split(t, '/')[0]]) + DropEmpty(Split(t, '/')[1..])
  {
    assert ([c] + t)[1..] == t;
  }

  /** One pass keeps the first piece and the later pieces that are not empty. */
  lemma {:induction false} ReplaceDoublePieces(s: string)
    ensures Split(ReplaceDouble(s), '/')[0] == Split(s, '/')[0]
    ensures DropEmpty(Split(ReplaceDouble(s), '/')[1..]) == DropEmpty(Split(s, '/')[1..])
    decreases |s|
  {
    if |s| < 2 {
    } else if s[0] == '/' && s[1] == '/' {
      var t := s[2..];
      ReplaceDoublePieces(t);
      assert s[1..] == "/" + t;
      SlashPieces(t);
      SlashPieces("/" + t);
      SlashPieces(ReplaceDouble(t));
      assert s == "/" + ("/" + t);
    } else {
      var t := s[1..];
      ReplaceDoublePieces(t);
      CharPieces(s[0], t);
      CharPieces(s[0], ReplaceDouble(t));
      assert s == [s[0]] + t;
    }
  }

  /** Collapsing duplicate separators never changes what a path resolves to. */
  lemma ReplaceDoubleKeepsSegments(s: string)
    ensures Segments(ReplaceDouble(s)) == Segments(s)
  {
    ReplaceDoublePieces(s);
    var after, before := Split(ReplaceDouble(s), '/'), Split(s, '/');
    ResolveIgnoresEmpty([], after);
    ResolveIgnoresEmpty([], before);
    assert DropEmpty(after) == (if after[0] == "" then [] else [after[0]]) + DropEmpty(after[1..]);
    assert DropEmpty(before) == (if before[0] == "" then [] else [before[0]]) + DropEmpty(before[1..]);
  }

  lemma {:induction false} ResolveSplitsAt(resolved: seq<string>, a: seq<string>, b: seq<string>)
    ensures ResolveFrom(resolved, a + b) == ResolveFrom(ResolveFrom(resolved, a), b)
    decreases |a|
  {
    if a == [] {
      assert a + b == b;
    } else {
      assert (a + b)[1..] == a[1..] + b;
      ResolveSplitsAt(Push(resolved, a[0]), a[1..], b);
    }
  }

  /** A leading separator adds an empty segment, which resolving ignores. */
  lemma LeadingSlash(resolved: seq<string>, s: string)
    ensures Split("/" + s, '/') == [""] + Split(s, '/')
    ensures ResolveFrom(resolved, Split("/" + s, '/')) == ResolveFrom(resolved, Split(s, '/'))
  {
    assert ("/" + s)[1..] == s;
    assert ([""] + Split(s, '/'))[1..] == Split(s, '/');
  }

  /** The pushing and popping loop over the pieces of a path. */
  method ResolveLoop(segments: seq<string>) returns (resolved: seq<string>)
    ensures resolved == ResolveFrom([], segments)
  {
    resolved := [];
    for i := 0 to |segments|
      invariant ResolveFrom(resolved, segments[i..]) == ResolveFrom([], segments)
    {
      var segment := segments[i];
      assert segments[i..][1..] == segments[i + 1..];
      match segment
      case "" | "." =>
      case ".." =>
        if |resolved| > 0 {
          resolved := resolved[..|resolved| - 1];
        }
      case _ =>
        resolved := resolved + [segment];
    }
    assert segments[|segments|..] == [];
  }

  /**
   * The loops as the server runs them. The first terminates because every pass shortens the string,
   * and the result is the one-pass CleanPath, so that loop could be deleted.
   */
  method CleanPathLoop(path: string) returns (result: string)
    ensures result == CleanPath(path)
  {
    var cleaned := path;
    while HasDouble(cleaned)
      invariant Segments(cleaned) == Segments(path)
      invariant HasSuffix(cleaned, "/") == HasSuffix(path, "/")
      decreases |cleaned|
    {
      ReplaceDoubleShrinks(cleaned);
      ReplaceDoubleLast(cleaned);
      ReplaceDoubleKeepsSegments(cleaned);
      cleaned := ReplaceDouble(cleaned);
    }
    var resolved := ResolveLoop(Split(cleaned, '/'));
    var trailing := HasSuffix(cleaned, "/") && |resolved| > 0;
    result := "/" + Join(resolved, "/");
    if trailing {
      result := result + "/";
    }
  }

  // ---------------------------------------------------------------- canonical and idempotent

  lemma {:induction false} ResolvePlain(resolved: seq<string>, segments: seq<string>)
    requires AllPlain(resolved)
    requires forall s :: s in segments ==> '/' !in s
    ensures AllPlain(ResolveFrom(resolved, segments))
    decreases |segments|
  {
    if segments != [] {
      assert AllPlain(Push(resolved, segments[0]));
      ResolvePlain(Push(resolved, segments[0]), segments[1..]);
    }
  }

  lemma SegmentsPlain(path: string)
    ensures AllPlain(Segments(path))
  {
    SplitPieces(path, '/');
    ResolvePlain([], Split(path, '/'));
  }

  /** Plain segments resolve to themselves. */
  lemma {:induction false} ResolveAppends(resolved: seq<string>, segments: seq<string>)
    requires AllPlain(segments)
    ensures ResolveFrom(resolved, segments) == resolved + segments
    decreases |segments|
  {
    if segments != [] {
      assert segments[0] in segments;
      ResolveAppends(resolved + [segments[0]], segments[1..]);
      assert resolved + [segments[0]] + segments[1..] == resolved + segments;
    }
  }

  /** What a plain segment list, with or without a trailing separator, reads back as. */
  lemma SegmentsOfRendered(segments: seq<string>, tail: string)
    requires AllPlain(segments) && segments != []
    requires tail == "" || tail == "/"
    ensures Segments("/" + Join(segments, "/") + tail) == segments
  {
    var body := Join(segments, "/");
    assert Split(body, '/') == segments by {
      SplitJoin(segments, '/');
    }
    assert ResolveFrom([], segments) == [] + segments by {
      ResolveAppends([], segments);
    }
    assert "/" + body + tail == "/" + (body + tail);
    LeadingSlash([], body + tail);
    if tail == "/" {
      SplitConcat(body, "", '/');
      assert body + tail == body + ['/'] + "";
      ResolveSplitsAt([], segments, [""]);
    } else {
      assert body + tail == body;
    }
  }

  /** Joining plain segments behind a leading separator is rendering them. */
  lemma {:induction false} RenderIsJoin(segments: seq<string>)
    requires segments != []
    ensures "/" + Join(segments, "/") == Render(segments)
  {
    if |segments| == 1 {
      assert Render(segments[1..]) == "";
    } else {
      RenderIsJoin(segments[1..]);
      assert "/" + Join(segments, "/") == "/" + segments[0] + ("/" + Join(segments[1..], "/"));
    }
  }

  lemma {:induction false} RenderTail(segments: seq<string>)
    requires AllPlain(segments) && segments != []
    ensures Render(segments) != "" && Render(segments)[|Render(segments)| - 1] != '/'
  {
    assert segments[0] in segments;
    if |segments| > 1 {
      RenderTail(segments[1..]);
    } else {
      assert segments[0][|segments[0]| - 1] in segments[0];
    }
  }

  /** The shape of every cleaned path: plain segments behind separators, plus at most one at the end. */
  lemma CleanPathShape(path: string)
    ensures AllPlain(Segments(path))
    ensures CleanPath(path) ==
            if Segments(path) == [] then "/"
            else Render(Segments(path)) + (if HasSuffix(path, "/") then "/" else "")
  {
    SegmentsPlain(path);
    if Segments(path) != [] {
      RenderIsJoin(Segments(path));
    }
  }

  /** How a cleaned path splits, and whether it ends in a separator. */
  lemma CleanPathSplit(path: string)
    requires Segments(path) != []
    ensures Split(CleanPath(path), '/') ==
            [""] + Segments(path) + (if HasSuffix(path, "/") then [""] else [])
    ensures HasSuffix(CleanPath(path), "/") <==> HasSuffix(path, "/")
  {
    SegmentsPlain(path);
    var segments := Segments(path);
    var body := Join(segments, "/");
    RenderIsJoin(segments);
    RenderTail(segments);
    SplitJoin(segments, '/');
    hide Split, Join, Segments;
    if HasSuffix(path, "/") {
      assert CleanPath(path) == "/" + (body + ['/'] + "");
      LeadingSlash([], body + ['/'] + "");
      SplitConcat(body, "", '/');
      SplitWhole("", '/');
      assert [""] + (segments + [""]) == [""] + segments + [""];
    } else {
      assert CleanPath(path) == "/" + body;
      LeadingSlash([], body);
      assert [""] + segments + [] == [""] + segments;
    }
  }

  /**
   * cleanPath is canonical: its output starts at the root, splits into the resolved segments with
   * nothing empty, "." or ".." between them, and cleaning again changes nothing.
   */
  lemma CleanPathCanonical(path: string)
    ensures HasPrefix(CleanPath(path), "/")
    ensures AllPlain(Segments(path))
    ensures Segments(path) != [] ==>
              Split(CleanPath(path), '/') ==
              [""] + Segments(path) + (if HasSuffix(path, "/") then [""] else [])
    ensures Segments(CleanPath(path)) == Segments(path)
    ensures CleanPath(CleanPath(path)) == CleanPath(path)
  {
    SegmentsPlain(path);
    var segments := Segments(path);
    if segments == [] {
      assert CleanPath(path) == "/";
      LeadingSlash([], "");
    } else {
      SegmentsOfRendered(segments, if HasSuffix(path, "/") then "/" else "");
      assert CleanPath(path) == "/" + Join(segments, "/") + (if HasSuffix(path, "/") then "/" else "");
      CleanPathSplit(path);
    }
  }

  // ---------------------------------------------------------------- matching

  lemma TrimRendered(segments: seq<string>, tail: string)
    requires AllPlain(segments) && segments != []
    requires tail == "" || tail == "/"
    ensures Render(segments) + tail != "/"
    ensures TrimSlash(Render(segments) + tail) == Render(segments)
  {
    RenderTail(segments);
    var rendered := Render(segments);
    assert segments[0] in segments;
    assert |rendered| >= 2;
    assert (rendered + tail)[..|rendered|] == rendered;
  }

  /** The normalized form of a prefix that is not blank. */
  lemma NormalizePrefixShape(prefix: string)
    requires TrimSpace(prefix) != ""
    ensures AllPlain(Segments(TrimSpace(prefix)))
    ensures NormalizePrefix(prefix) ==
            if Segments(TrimSpace(prefix)) == [] then "/" else Render(Segments(TrimSpace(prefix)))
  {
    var trimmed := TrimSpace(prefix);
    CleanPathShape(trimmed);
    if Segments(trimmed) != [] {
      TrimRendered(Segments(trimmed), if HasSuffix(trimmed, "/") then "/" else "");
    }
  }

  /** Separator-free heads in front of separators are compared head by head. */
  lemma HeadsAgree(a: string, x: string, b: string, y: string)
    requires '/' !in a && '/' !in b
    ensures (b + "/" + y <= a + "/" + x) <==> (a == b && y <= x)
  {
    var l, r := a + "/" + x, b + "/" + y;
    if r <= l {
      var z := l[|r|..];
      assert l == b + "/" + (y + z);
      FirstAt(a, x, '/');
      FirstAt(b, y + z, '/');
      assert a == l[..|a|] == b;
      assert x == l[|a| + 1..] == y + z;
    }
    if a == b && y <= x {
      assert r <= l;
    }
  }

  /** Each segment followed by its separator. */
  function Body(segments: seq<string>): string {
    if segments == [] then "" else segments[0] + "/" + Body(segments[1..])
  }

  lemma {:induction false} RenderIsBody(segments: seq<string>)
    ensures Render(segments) + "/" == "/" + Body(segments)
  {
    if segments != [] {
      RenderIsBody(segments[1..]);
      var head := "/" + segments[0];
      assert Render(segments) + "/" == head + (Render(segments[1..]) + "/");
      assert "/" + Body(segments) == head + ("/" + Body(segments[1..]));
    }
  }

  lemma PrefixCons(a: seq<string>, b: seq<string>)
    requires a != [] && b != []
    ensures b <= a <==> b[0] == a[0] && b[1..] <= a[1..]
  {
    assert a == [a[0]] + a[1..];
    assert b == [b[0]] + b[1..];
    if b <= a {
      assert b[1..] == a[1..][..|b| - 1];
    }
    if b[0] == a[0] && b[1..] <= a[1..] {
      assert b == [a[0]] + a[1..][..|b| - 1];
    }
  }

  /** Written-out lists compare as strings exactly as they compare as lists. */
  lemma {:induction false} BodyPrefix(path: seq<string>, prefix: seq<string>, tail: string)
    requires AllPlain(path) && AllPlain(prefix)
    requires tail == "" || tail == "/"
    ensures Body(prefix) <= Body(path) + tail <==> prefix <= path
    decreases |path|
  {
    if prefix == [] {
    } else if path == [] {
      var b := prefix[0];
      assert b in prefix;
      assert Body(prefix)[0] == b[0] && b[0] in b;
      assert Body(path) + tail == tail;
    } else {
      var a, b := path[0], prefix[0];
      assert a in path && b in prefix;
      BodyPrefix(path[1..], prefix[1..], tail);
      HeadsAgree(a, Body(path[1..]) + tail, b, Body(prefix[1..]));
      assert Body(path) + tail == a + "/" + (Body(path[1..]) + tail);
      PrefixCons(path, prefix);
    }
  }

  /** Equality or a boundary match is one prefix test with the separator on both sides. */
  lemma BoundaryMatch(path: string, prefix: string)
    ensures (path == prefix || HasPrefix(path, prefix + "/")) <==> prefix + "/" <= path + "/"
  {
    if prefix + "/" <= path + "/" {
      if |prefix| == |path| {
        assert prefix == (prefix + "/")[..|prefix|];
        assert path == (path + "/")[..|path|];
      } else {
        assert prefix + "/" == path[..|prefix| + 1];
      }
    }
  }

  /** A cleaned path with one more separator behind it, written out. */
  lemma CleanedWithSlash(path: string, tail: string)
    requires tail == if Segments(path) != [] && HasSuffix(path, "/") then "/" else ""
    ensures CleanPath(path) + "/" == "/" + (Body(Segments(path)) + tail) ||
            (Segments(path) == [] && CleanPath(path) + "/" == "//")
  {
    var p := Segments(path);
    CleanPathShape(path);
    RenderIsBody(p);
    if p != [] {
      assert CleanPath(path) + "/" == Render(p) + "/" + tail;
    }
  }

  lemma StripHead(head: string, a: string, b: string)
    ensures head + a <= head + b <==> a <= b
  {
    assert (head + a)[|head|..] == a;
    assert (head + b)[|head|..] == b;
    if head + a <= head + b {
      assert a == (head + b)[|head|..|head + a|] == b[..|a|];
    }
  }

  /**
   * String matching refines segment matching: for every path, and every prefix that is not blank,
   * the string tests answer exactly whether the prefix's resolved segments start the path's.
   */
  lemma MatchIsSegmentPrefix(path: string, prefix: string)
    requires TrimSpace(prefix) != ""
    ensures MatchesPrefix(CleanPath(path), NormalizePrefix(prefix))
       <==> Segments(TrimSpace(prefix)) <= Segments(path)
  {
    CleanPathShape(path);
    NormalizePrefixShape(prefix);
    var p, q := Segments(path), Segments(TrimSpace(prefix));
    if q != [] {
      var tail := if p != [] && HasSuffix(path, "/") then "/" else "";
      assert q[0] in q;
      assert |Render(q)| >= 2;
      BoundaryMatch(CleanPath(path), Render(q));
      CleanedWithSlash(path, tail);
      RenderIsBody(q);
      BodyPrefix(p, q, tail);
      StripHead("/", Body(q), Body(p) + tail);
    }
  }

  // ---------------------------------------------------------------- what resolving means

  /** Resolving the second half of a path starts from what the first half resolved to. */
  lemma ResolveInTwo(p: string, q: string)
    ensures Segments(p + "/" + q) == ResolveFrom(Segments(p), Split(q, '/'))
  {
    SplitConcat(p, q, '/');
    assert p + "/" + q == p + ['/'] + q;
    ResolveSplitsAt([], Split(p, '/'), Split(q, '/'));
    hide Split, ResolveFrom;
  }

  lemma EmptyPath()
    ensures Segments("") == []
  {
    assert Split("", '/') == [""];
  }

  lemma TrailingVanishes(p: string)
    ensures Segments(p + "/") == Segments(p)
  {
    ResolveInTwo(p, "");
    assert p + "/" + "" == p + "/";
    assert Split("", '/') == [""] && [""][1..] == [];
    hide Split, Segments;
  }

  lemma DoubleVanishes(p: string, q: string)
    ensures Segments(p + "//" + q) == Segments(p + "/" + q)
  {
    ResolveInTwo(p, "/" + q);
    ResolveInTwo(p, q);
    LeadingSlash(Segments(p), q);
    assert p + "/" + ("/" + q) == p + "//" + q;
    hide Split, Segments;
  }

  lemma DotVanishes(p: string, q: string)
    ensures Segments(p + "/./" + q) == Segments(p + "/" + q)
  {
    SplitCons(".", q, '/');
    assert ['.'] + ['/'] + q == "./" + q;
    ResolveInTwo(p, "./" + q);
    ResolveInTwo(p, q);
    assert p + "/" + ("./" + q) == p + "/./" + q;
    hide Split, Segments;
    assert (["."] + Split(q, '/'))[1..] == Split(q, '/');
  }

  lemma ParentOfRoot(q: string)
    ensures Segments("../" + q) == Segments(q)
  {
    SplitCons("..", q, '/');
    assert ".." + ['/'] + q == "../" + q;
    assert ([".."] + Split(q, '/'))[1..] == Split(q, '/');
    hide Split;
  }

  lemma PlainStays(p: string, segment: string)
    ensures Plain(segment) ==> Segments(p + "/" + segment) == Segments(p) + [segment]
  {
    if Plain(segment) {
      ResolveInTwo(p, segment);
      SplitWhole(segment, '/');
      hide Split, Segments;
      assert [segment][1..] == [];
    }
  }

  lemma ParentTakesBack(p: string, segment: string, q: string)
    ensures Plain(segment) ==> Segments(p + "/" + segment + "/../" + q) == Segments(p + "/" + q)
  {
    if Plain(segment) {
      PlainStays(p, segment);
      var head := p + "/" + segment;
      SplitCons("..", q, '/');
      assert ".." + ['/'] + q == "../" + q;
      ResolveInTwo(head, "../" + q);
      ResolveInTwo(p, q);
      assert head + "/" + ("../" + q) == head + "/../" + q;
      hide Split, Segments, Plain;
      assert ([".."] + Split(q, '/'))[1..] == Split(q, '/');
      assert (Segments(p) + [segment])[..|Segments(p)|] == Segments(p);
    }
  }

  /**
   * The laws of resolving, which reduce every path: empty and "." segments vanish, ".." takes the segment
   * before it and nothing at the root, and plain segments stay.
   */
  lemma ResolvingLaws(p: string, segment: string, q: string)
    ensures Segments("") == [] && Segments("/" + q) == Segments(q)
    ensures Segments(p + "/") == Segments(p)
    ensures Segments(p + "//" + q) == Segments(p + "/" + q)
    ensures Segments(p + "/./" + q) == Segments(p + "/" + q)
    ensures Segments("../" + q) == Segments(q)
    ensures Plain(segment) ==> Segments(p + "/" + segment) == Segments(p) + [segment]
    ensures Plain(segment) ==> Segments(p + "/" + segment + "/../" + q) == Segments(p + "/" + q)
    ensures Segments(p + "/" + segment + "/..") == Segments(p + "/" + segment + "/../")
  {
    LeadingSlash([], q);
    TrailingVanishes(p);
    DotVanishes(p, q);
    DoubleVanishes(p, q);
    ParentOfRoot(q);
    PlainStays(p, segment);
    ParentTakesBack(p, segment, q);
    TrailingVanishes(p + "/" + segment + "/..");
    assert p + "/" + segment + "/.." + "/" == p + "/" + segment + "/../";
    EmptyPath();
    hide Split, Segments, Plain;
  }

  // ---------------------------------------------------------------- normalizing twice

  /** Characters of the pieces, each counted with one separator. */
  function Weight(segments: seq<string>): nat {
    if segments == [] then 0 else |segments[0]| + 1 + Weight(segments[1..])
  }

  lemma {:induction false} SplitWeight(s: string)
    ensures Weight(Split(s, '/')) == |s| + 1
  {
    if s != "" {
      SplitWeight(s[1..]);
      CharPieces(s[0], s[1..]);
      assert s == [s[0]] + s[1..];
    }
  }

  lemma {:induction false} RenderConcat(a: seq<string>, b: seq<string>)
    ensures Render(a + b) == Render(a) + Render(b)
  {
    if a == [] {
      assert a + b == b;
    } else {
      RenderConcat(a[1..], b);
      assert (a + b)[1..] == a[1..] + b;
    }
  }

  lemma {:induction false} RenderedLength(resolved: seq<string>, segments: seq<string>)
    ensures |Render(ResolveFrom(resolved, segments))| <= |Render(resolved)| + Weight(segments)
    decreases |segments|
  {
    if segments != [] {
      var pushed := Push(resolved, segments[0]);
      RenderedLength(pushed, segments[1..]);
      if pushed == resolved + [segments[0]] {
        RenderConcat(resolved, [segments[0]]);
        assert Render([segments[0]]) == "/" + segments[0] + Render([]);
      } else if resolved != [] {
        RenderConcat(resolved[..|resolved| - 1], resolved[|resolved| - 1..]);
        assert resolved == resolved[..|resolved| - 1] + resolved[|resolved| - 1..];
      }
    }
  }

  /** A rooted path never grows when it is normalized. */
  lemma NormalizedLength(prefix: string)
    requires HasPrefix(TrimSpace(prefix), "/")
    ensures |NormalizePrefix(prefix)| <= |TrimSpace(prefix)|
  {
    var trimmed := TrimSpace(prefix);
    var rest := trimmed[1..];
    assert trimmed == "/" + rest;
    NormalizePrefixShape(prefix);
    SplitWeight(rest);
    LeadingSlash([], rest);
    RenderedLength([], Split(rest, '/'));
  }

  /** White space ends the last segment, so trimming the normalized prefix again would cut into it. */
  predicate EndsInSpace(segments: seq<string>) {
    segments != [] && segments[|segments| - 1] != "" &&
    IsSpace(segments[|segments| - 1][|segments[|segments| - 1]| - 1])
  }

  lemma {:induction false} RenderLastChar(segments: seq<string>)
    requires AllPlain(segments) && segments != []
    ensures Render(segments) != "" && Render(segments)[0] == '/'
    ensures IsSpace(Render(segments)[|Render(segments)| - 1]) <==> EndsInSpace(segments)
  {
    assert segments[0] in segments;
    if |segments| > 1 {
      RenderLastChar(segments[1..]);
    }
  }

  lemma RepeatedWithoutSpace(segments: seq<string>)
    requires AllPlain(segments) && segments != [] && !EndsInSpace(segments)
    ensures NormalizePrefix(Render(segments)) == Render(segments)
  {
    var once := Render(segments);
    RenderLastChar(segments);
    TrimSpaceFixes(once);
    RenderIsJoin(segments);
    SegmentsOfRendered(segments, "");
    assert once == "/" + Join(segments, "/") + "";
    hide TrimSpace, Segments, Join, EndsInSpace, CleanPath, NormalizePrefix, IsSpace;
    NormalizePrefixShape(once);
  }

  lemma TrimRightCuts(s: string)
    requires s != "" && !IsSpace(s[0]) && IsSpace(s[|s| - 1])
    ensures |TrimSpace(s)| < |s| && HasPrefix(TrimSpace(s), [s[0]])
  {
    TrimRightKeepsFirst(s);
  }

  lemma RepeatedWithSpace(segments: seq<string>)
    requires AllPlain(segments) && segments != [] && EndsInSpace(segments)
    ensures |NormalizePrefix(Render(segments))| < |Render(segments)|
  {
    hide TrimSpace, Segments, CleanPath, NormalizePrefix, EndsInSpace;
    RenderLastChar(segments);
    TrimRightCuts(Render(segments));
    NormalizedLength(Render(segments));
  }

  /** normalizePrefix is idempotent exactly on the prefixes whose last resolved segment does not end in white space. */
  lemma NormalizeTwiceExactly(prefix: string)
    ensures NormalizePrefix(NormalizePrefix(prefix)) == NormalizePrefix(prefix) <==>
            TrimSpace(prefix) == "" || !EndsInSpace(Segments(TrimSpace(prefix)))
  {
    if TrimSpace(prefix) != "" {
      NormalizePrefixShape(prefix);
      var segments := Segments(TrimSpace(prefix));
      if segments == [] {
        LeadingSlash([], "");
        TrimSpaceFixes("/");
        NormalizePrefixShape("/");
      } else {
        hide TrimSpace, Segments, Render, CleanPath, NormalizePrefix;
        if EndsInSpace(segments) {
          RepeatedWithSpace(segments);
        } else {
          RepeatedWithoutSpace(segments);
        }
      }
    }
  }

  /** The family has a member: a second pass trims the space that "/a/ /" ends with once its last separator is gone. */
  lemma NormalizeTwiceDiffers()
    ensures NormalizePrefix(NormalizePrefix("/a/ /")) != NormalizePrefix("/a/ /")
  {
    var segments := ["a", " "];
    assert segments[1..] == [" "];
    assert "/" + Join(segments, "/") + "/" == "/a/ /";
    SegmentsOfRendered(segments, "/");
    TrimSpaceFixes("/a/ /");
    assert EndsInSpace(segments);
    hide *;
    NormalizeTwiceExactly("/a/ /");
  }

  // ---------------------------------------------------------------- StatelessPaths

  /** A prefix that is not blank and whose segments start the path's. */
  predicate Covers(prefix: string, path: string) {
    TrimSpace(prefix) != "" && Segments(TrimSpace(prefix)) <= Segments(path)
  }

  lemma MatchesIsCovers(path: string, prefix: string)
    ensures MatchesPrefix(CleanPath(path), NormalizePrefix(prefix)) <==> Covers(prefix, path)
  {
    if TrimSpace(prefix) != "" {
      MatchIsSegmentPrefix(path, prefix);
    }
  }

  /** requestPath: the cleaned escaped path, the root when it is empty. */
  method RequestPath(escapedPath: string) returns (path: string)
    ensures path == CleanPath(escapedPath)
  {
    LeadingSlash([], "");
    path := CleanPathLoop(if escapedPath == "" then "/" else escapedPath);
  }

  /** StatelessPaths.Match: some declared prefix covers the request's path. */
  method Match(paths: seq<string>, escapedPath: string) returns (matched: bool)
    ensures matched <==> exists i :: 0 <= i < |paths| && Covers(paths[i], escapedPath)
  {
    var path := RequestPath(escapedPath);
    for i := 0 to |paths|
      invariant forall j :: 0 <= j < i ==> !Covers(paths[j], escapedPath)
    {
      MatchesIsCovers(escapedPath, paths[i]);
      if MatchesPrefix(path, NormalizePrefix(paths[i])) {
        return true;
      }
    }
    return false;
  }

  datatype Verdict = Accepted | EmptyPrefix | RelativePrefix | RootPrefix

  /** A usable prefix starts at the root and stands for at least one segment. */
  predicate Usable(prefix: string) {
    HasPrefix(TrimSpace(prefix), "/") && Segments(TrimSpace(prefix)) != []
  }

  lemma RootMeansUnusable(trimmed: string)
    requires trimmed != "" ==> !IsSpace(trimmed[0]) && !IsSpace(trimmed[|trimmed| - 1])
    ensures trimmed == "" ==> Segments(trimmed) == []
    ensures trimmed != "" ==> (NormalizePrefix(trimmed) == "/" <==> Segments(trimmed) == [])
  {
    if trimmed == "" {
      LeadingSlash([], "");
    } else {
      TrimSpaceFixes(trimmed);
      NormalizePrefixShape(trimmed);
      if Segments(trimmed) != [] {
        assert Segments(trimmed)[0] in Segments(trimmed);
        assert |Render(Segments(trimmed))| >= 2;
      }
    }
  }

  /**
   * StatelessPaths.Validate accepts exactly the lists of usable prefixes: none is blank or relative,
   * and none matches every path. Otherwise the first prefix that is not usable decides the error.
   */
  method Validate(paths: seq<string>) returns (verdict: Verdict)
    ensures verdict == Accepted <==> forall i :: 0 <= i < |paths| ==> Usable(paths[i])
    ensures verdict != Accepted ==>
              exists i :: 0 <= i < |paths| && !Usable(paths[i]) &&
                          (forall j :: 0 <= j < i ==> Usable(paths[j])) &&
                          verdict == (if TrimSpace(paths[i]) == "" then EmptyPrefix
                                      else if !HasPrefix(TrimSpace(paths[i]), "/") then RelativePrefix
                                      else RootPrefix)
  {
    hide Segments, TrimSpace, NormalizePrefix, IsSpace;
    for i := 0 to |paths|
      invariant forall j :: 0 <= j < i ==> Usable(paths[j])
    {
      var trimmed := TrimSpace(paths[i]);
      RootMeansUnusable(trimmed);
      if trimmed == "" {
        return EmptyPrefix;
      }
      if !HasPrefix(trimmed, "/") {
        return RelativePrefix;
      }
      if NormalizePrefix(trimmed) == "/" {
        return RootPrefix;
      }
    }
    return Accepted;
  }

  /** A usable prefix is a rooted one that does not cover every path. */
  lemma UsableMeans(prefix: string)
    ensures Usable(prefix) <==>
            TrimSpace(prefix) != "" && TrimSpace(prefix)[0] == '/' && exists path :: !Covers(prefix, path)
  {
    hide TrimSpace;
    LeadingSlash([], "");
    if Usable(prefix) {
      assert !Covers(prefix, "");
    }
  }
}
