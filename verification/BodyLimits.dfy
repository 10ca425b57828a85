/** Body limits that differ by path prefix (web/bodylimit.go). */
module BodyLimits {
  import opened GoStrings
  import opened Paths

  datatype Limits = Limits(default: int, byPrefix: map<string, int>)

  /** An order a Go map may be ranged over in: every key once. */
  ghost predicate IsOrder(order: seq<string>, keys: set<string>) {
    multiset(order) == multiset(keys)
  }

  /** Go measures strings in UTF-8 bytes. */
  function ByteLen(s: string): nat {
    if s == "" then 0
    else ByteLen(s[1..]) +
         (if s[0] < '\U{80}' then 1 else if s[0] < '\U{800}' then 2 else if s[0] < '\U{10000}' then 3 else 4)
  }

  /** How many segments a prefix stands for. */
  function Rank(prefix: string): nat {
    |Segments(TrimSpace(prefix))|
  }

  function Normalized(prefix: string): string {
    NormalizePrefix(TrimSpace(prefix))
  }

  predicate ValidEntry(limits: Limits, prefix: string)
    requires prefix in limits.byPrefix
  {
    HasPrefix(TrimSpace(prefix), "/") && limits.byPrefix[prefix] > 0
  }

  predicate ValidLimits(limits: Limits) {
    limits.default > 0 && forall prefix :: prefix in limits.byPrefix ==> ValidEntry(limits, prefix)
  }

  /** BodyLimits.Validate; the verdict does not depend on the map order. */
  method Validate(limits: Limits, order: seq<string>) returns (ok: bool)
    requires IsOrder(order, limits.byPrefix.Keys)
    ensures ok <==> ValidLimits(limits)
    ensures ok <==>
            limits.default > 0 &&
            forall prefix :: prefix in limits.byPrefix ==>
              TrimSpace(prefix) != "" && TrimSpace(prefix)[0] == '/' && limits.byPrefix[prefix] > 0
  {
    if limits.default <= 0 {
      return false;
    }
    assert forall i :: 0 <= i < |order| ==> order[i] in multiset(order);
    for i := 0 to |order|
      invariant forall j :: 0 <= j < i ==> ValidEntry(limits, order[j])
    {
      var trimmed := TrimSpace(order[i]);
      if trimmed == "" || !HasPrefix(trimmed, "/") || limits.byPrefix[order[i]] <= 0 {
        assert !ValidEntry(limits, order[i]);
        return false;
      }
    }
    forall prefix | prefix in limits.byPrefix ensures ValidEntry(limits, prefix) {
      assert prefix in multiset(order);
    }
    return true;
  }

  // ---------------------------------------------------------------- what the limit should be

  /** k covers the path, and no covering key among `keys` stands for more segments. */
  ghost predicate Longest(keys: set<string>, path: string, k: string) {
    && k in keys && Covers(k, path)
    && forall j :: j in keys && Covers(j, path) ==> Rank(j) <= Rank(k)
  }

  /** The limit is the one of a longest covering prefix, the default when none covers the path. */
  ghost predicate Correct(limits: Limits, path: string, limit: int) {
    if exists k :: k in limits.byPrefix && Covers(k, path)
    then exists k :: Longest(limits.byPrefix.Keys, path, k) && limit == limits.byPrefix[k]
    else limit == limits.default
  }

  /** No two keys that normalize alike carry different limits. */
  predicate Unambiguous(limits: Limits) {
    forall j, k :: j in limits.byPrefix && k in limits.byPrefix && Normalized(j) == Normalized(k) ==>
                     limits.byPrefix[j] == limits.byPrefix[k]
  }

  /** The key's segments start the path's, and no other key whose segments do has more of them. */
  ghost predicate Deepest(limits: Limits, path: string, k: string) {
    && k in limits.byPrefix && Segments(TrimSpace(k)) <= Segments(path)
    && forall j :: j in limits.byPrefix && Segments(TrimSpace(j)) <= Segments(path) ==>
         |Segments(TrimSpace(j))| <= |Segments(TrimSpace(k))|
  }

  lemma CoversMeans(limits: Limits, path: string, k: string)
    requires ValidLimits(limits) && k in limits.byPrefix
    ensures Covers(k, path) <==> Segments(TrimSpace(k)) <= Segments(path)
    ensures Rank(k) == |Segments(TrimSpace(k))|
  {
    assert ValidEntry(limits, k);
    hide Segments, TrimSpace;
  }

  lemma DeepestIsLongest(limits: Limits, path: string, k: string)
    requires ValidLimits(limits)
    ensures Deepest(limits, path, k) <==> Longest(limits.byPrefix.Keys, path, k)
  {
    forall j | j in limits.byPrefix
      ensures Covers(j, path) <==> Segments(TrimSpace(j)) <= Segments(path)
      ensures Rank(j) == |Segments(TrimSpace(j))|
    {
      CoversMeans(limits, path, j);
    }
    hide Covers, Rank, Segments, TrimSpace, ValidLimits;
  }

  /** In terms of segments: the limit of a deepest key, or the default when no key starts the path. */
  lemma CorrectMeans(limits: Limits, path: string, limit: int)
    requires ValidLimits(limits)
    ensures Correct(limits, path, limit) <==>
            if exists k :: k in limits.byPrefix && Segments(TrimSpace(k)) <= Segments(path)
            then exists k :: Deepest(limits, path, k) && limit == limits.byPrefix[k]
            else limit == limits.default
  {
    forall k
      ensures Deepest(limits, path, k) <==> Longest(limits.byPrefix.Keys, path, k)
      ensures k in limits.byPrefix ==> (Covers(k, path) <==> Segments(TrimSpace(k)) <= Segments(path))
    {
      DeepestIsLongest(limits, path, k);
      if k in limits.byPrefix {
        CoversMeans(limits, path, k);
      }
    }
    hide Covers, Rank, Segments, TrimSpace, ValidLimits, Longest;
    assert forall k :: Deepest(limits, path, k) ==> k in limits.byPrefix;
    hide Deepest;
  }

  // ---------------------------------------------------------------- lengths of covering prefixes

  lemma {:induction false} ByteLenConcat(a: string, b: string)
    ensures ByteLen(a + b) == ByteLen(a) + ByteLen(b)
  {
    if a == "" {
      assert a + b == b;
    } else {
      ByteLenConcat(a[1..], b);
      assert (a + b)[1..] == a[1..] + b;
    }
  }

  lemma {:induction false} RenderPrefix(short: seq<string>, long: seq<string>)
    requires short <= long
    ensures Render(short) <= Render(long)
    ensures |short| < |long| ==> |Render(short)| < |Render(long)|
  {
    if short != [] {
      RenderPrefix(short[1..], long[1..]);
      StripHead("/" + short[0], Render(short[1..]), Render(long[1..]));
    }
  }

  lemma ByteLenPositive(s: string)
    ensures s == "" <==> ByteLen(s) == 0
  {
  }

  function Written(segments: seq<string>): string {
    if segments == [] then "/" else Render(segments)
  }

  lemma NormalizedShape(prefix: string)
    requires TrimSpace(prefix) != ""
    ensures Normalized(prefix) == NormalizePrefix(prefix)
    ensures var q := Segments(TrimSpace(prefix));
            Normalized(prefix) == Written(q) && (q != [] ==> |Render(q)| >= 2)
    ensures Normalized(prefix) != "" && (Normalized(prefix) == "/" <==> Segments(TrimSpace(prefix)) == [])
  {
    TrimSpaceFixes(TrimSpace(prefix));
    NormalizePrefixShape(prefix);
    var q := Segments(TrimSpace(prefix));
    if q != [] {
      assert q[0] in q;
      assert |Render(q)| >= 2;
    }
  }

  lemma LongerBytes(a: seq<string>, b: seq<string>)
    requires a <= b && |a| < |b|
    requires b != [] ==> |Render(b)| >= 2
    ensures ByteLen(Written(a)) < ByteLen(Written(b))
  {
    var x, y := Written(a), Written(b);
    RenderPrefix(a, b);
    assert x <= y && |x| < |y| by {
      if a == [] {
        assert y == "/" + b[0] + Render(b[1..]);
      }
    }
    assert y == x + y[|x|..];
    ByteLenConcat(x, y[|x|..]);
    ByteLenPositive(y[|x|..]);
  }

  lemma PrefixLengths(p: seq<string>, a: seq<string>, b: seq<string>)
    requires a <= p && b <= p
    requires a != [] ==> |Render(a)| >= 2
    requires b != [] ==> |Render(b)| >= 2
    ensures |a| == |b| <==> Written(a) == Written(b)
    ensures |a| < |b| <==> ByteLen(Written(a)) < ByteLen(Written(b))
  {
    if |a| == |b| {
      assert a == p[..|a|] == b;
    } else if |a| < |b| {
      assert a == b[..|a|];
      LongerBytes(a, b);
    } else {
      assert b == a[..|b|];
      LongerBytes(b, a);
    }
  }

  /** Among prefixes covering one path, byte length orders exactly as segment count, and ties are equal. */
  lemma CoveringLengths(path: string, j: string, k: string)
    requires Covers(j, path) && Covers(k, path)
    ensures Rank(j) == Rank(k) <==> Normalized(j) == Normalized(k)
    ensures Rank(j) < Rank(k) <==> ByteLen(Normalized(j)) < ByteLen(Normalized(k))
  {
    NormalizedShape(j);
    NormalizedShape(k);
    PrefixLengths(Segments(path), Segments(TrimSpace(j)), Segments(TrimSpace(k)));
  }

  lemma MatchIsCovers(path: string, prefix: string)
    ensures MatchesPrefix(CleanPath(path), Normalized(prefix)) <==> Covers(prefix, path)
  {
    MatchesIsCovers(path, prefix);
    if TrimSpace(prefix) != "" {
      NormalizedShape(prefix);
    } else {
      TrimSpaceFixes("");
    }
  }

  // ---------------------------------------------------------------- LimitFor: a running maximum

  function RunningMax(limits: Limits, order: seq<string>, path: string, best: int, bestLength: int): int
    requires forall k :: k in order ==> k in limits.byPrefix
  {
    if order == [] then best
    else
      var normalized := Normalized(order[0]);
      if MatchesPrefix(CleanPath(path), normalized) && ByteLen(normalized) > bestLength
      then RunningMax(limits, order[1..], path, limits.byPrefix[order[0]], ByteLen(normalized))
      else RunningMax(limits, order[1..], path, best, bestLength)
  }

  function LimitFor(limits: Limits, order: seq<string>, path: string): int
    requires forall k :: k in order ==> k in limits.byPrefix
  {
    RunningMax(limits, order, path, limits.default, -1)
  }

  /** The running pair describes the keys already seen. */
  ghost predicate Describes(limits: Limits, seen: set<string>, path: string, best: int, bestLength: int)
    requires seen <= limits.byPrefix.Keys
  {
    if bestLength == -1 then best == limits.default && forall k :: k in seen ==> !Covers(k, path)
    else exists k :: Longest(seen, path, k) && best == limits.byPrefix[k] && bestLength == ByteLen(Normalized(k))
  }

  lemma {:induction false} RunningMaxDescribes(
    limits: Limits, seen: set<string>, order: seq<string>, path: string, best: int, bestLength: int)
    requires seen <= limits.byPrefix.Keys && forall k :: k in order ==> k in limits.byPrefix
    requires limits.byPrefix.Keys == seen + (set k | k in order)
    requires Describes(limits, seen, path, best, bestLength)
    ensures Correct(limits, path, RunningMax(limits, order, path, best, bestLength))
    decreases |order|
  {
    hide Covers, Normalized, Rank, CleanPath, ByteLen;
    if order == [] {
      assert seen == limits.byPrefix.Keys;
    } else {
      var k := order[0];
      MatchIsCovers(path, k);
      forall j | j in seen && Covers(j, path) && Covers(k, path)
        ensures Rank(j) < Rank(k) <==> ByteLen(Normalized(j)) < ByteLen(Normalized(k))
      {
        CoveringLengths(path, j, k);
      }
      var seen' := seen + {k};
      assert (set x | x in order) == {k} + (set x | x in order[1..]);
      if Covers(k, path) && ByteLen(Normalized(k)) > bestLength {
        assert Longest(seen', path, k);
        RunningMaxDescribes(limits, seen', order[1..], path, limits.byPrefix[k], ByteLen(Normalized(k)));
      } else {
        if bestLength != -1 {
          var w :| Longest(seen, path, w) && best == limits.byPrefix[w] && bestLength == ByteLen(Normalized(w));
          assert Longest(seen', path, w);
        }
        RunningMaxDescribes(limits, seen', order[1..], path, best, bestLength);
      }
    }
  }

  lemma OrderKeys(order: seq<string>, keys: set<string>)
    requires IsOrder(order, keys)
    ensures forall k :: k in order <==> k in keys
    ensures (set k | k in order) == keys
  {
    assert forall k :: k in order <==> k in multiset(order);
  }

  lemma LimitForCorrect(limits: Limits, order: seq<string>, path: string)
    requires IsOrder(order, limits.byPrefix.Keys)
    ensures forall k :: k in order ==> k in limits.byPrefix
    ensures Correct(limits, path, LimitFor(limits, order, path))
  {
    OrderKeys(order, limits.byPrefix.Keys);
    RunningMaxDescribes(limits, {}, order, path, limits.default, -1);
  }

  /** LimitFor as the loop runs it. */
  method LimitForLoop(limits: Limits, order: seq<string>, path: string) returns (limit: int)
    requires IsOrder(order, limits.byPrefix.Keys)
    ensures forall k :: k in order ==> k in limits.byPrefix
    ensures limit == LimitFor(limits, order, path)
    ensures Correct(limits, path, limit)
  {
    LimitForCorrect(limits, order, path);
    var best: int, bestLength: int := limits.default, -1;
    for i := 0 to |order|
      invariant RunningMax(limits, order[i..], path, best, bestLength) == LimitFor(limits, order, path)
    {
      assert order[i..][1..] == order[i + 1..];
      var normalized := Normalized(order[i]);
      if MatchesPrefix(CleanPath(path), normalized) && ByteLen(normalized) > bestLength {
        best, bestLength := limits.byPrefix[order[i]], ByteLen(normalized);
      }
    }
    return best;
  }

  // ---------------------------------------------------------------- Middleware: sort, then first match

  predicate LongestFirst(prefixes: seq<string>) {
    forall i, j :: 0 <= i < j < |prefixes| ==> ByteLen(prefixes[i]) >= ByteLen(prefixes[j])
  }

  /** What sort.Slice may leave: the same elements, longest first; ties in any order. */
  ghost predicate SortedFrom(sorted: seq<string>, prefixes: seq<string>) {
    multiset(sorted) == multiset(prefixes) && LongestFirst(sorted)
  }

  function NormalizedAll(order: seq<string>): seq<string> {
    seq(|order|, i requires 0 <= i < |order| => Normalized(order[i]))
  }

  /** The table filled in map order: a later key overwrites an earlier one that normalizes alike. */
  function Table(limits: Limits, order: seq<string>): map<string, int>
    requires forall k :: k in order ==> k in limits.byPrefix
  {
    if order == [] then map[]
    else
      var last := order[|order| - 1];
      Table(limits, order[..|order| - 1])[Normalized(last) := limits.byPrefix[last]]
  }

  lemma {:induction false} TableHolds(limits: Limits, order: seq<string>)
    requires forall k :: k in order ==> k in limits.byPrefix
    ensures forall k :: k in order ==> Normalized(k) in Table(limits, order)
    ensures forall n :: n in Table(limits, order) ==>
              exists k :: k in order && n == Normalized(k) && Table(limits, order)[n] == limits.byPrefix[k]
  {
    hide Normalized;
    if order != [] {
      TableHolds(limits, order[..|order| - 1]);
      assert order == order[..|order| - 1] + [order[|order| - 1]];
    }
  }

  function FirstMatch(sorted: seq<string>, table: map<string, int>, path: string, default: int): int
    requires forall n :: n in sorted ==> n in table
  {
    if sorted == [] then default
    else if MatchesPrefix(CleanPath(path), sorted[0]) then table[sorted[0]]
    else FirstMatch(sorted[1..], table, path, default)
  }

  /** What the top of Middleware may leave: both loops and the sort can see an order of their own. */
  ghost predicate Prepared(limits: Limits, first: seq<string>, second: seq<string>, sorted: seq<string>) {
    && IsOrder(first, limits.byPrefix.Keys) && IsOrder(second, limits.byPrefix.Keys)
    && SortedFrom(sorted, NormalizedAll(first))
  }

  lemma SortedKeys(limits: Limits, first: seq<string>, sorted: seq<string>)
    requires IsOrder(first, limits.byPrefix.Keys) && SortedFrom(sorted, NormalizedAll(first))
    ensures forall k :: k in limits.byPrefix ==> Normalized(k) in sorted
    ensures forall n :: n in sorted ==> exists k :: k in limits.byPrefix && n == Normalized(k)
  {
    hide Normalized, ByteLen, LongestFirst;
    OrderKeys(first, limits.byPrefix.Keys);
    var all := NormalizedAll(first);
    forall n ensures n in sorted <==> n in all {
      assert n in sorted <==> n in multiset(sorted);
      assert n in all <==> n in multiset(all);
    }
    forall k | k in limits.byPrefix ensures Normalized(k) in all {
      var i :| 0 <= i < |first| && first[i] == k;
      assert all[i] == Normalized(k);
    }
    forall n | n in all ensures exists k :: k in limits.byPrefix && n == Normalized(k) {
      var i :| 0 <= i < |all| && all[i] == n;
      assert first[i] in limits.byPrefix;
    }
  }

  /** The sorted list and the table both hold exactly the normalized keys. */
  lemma PreparedKeys(limits: Limits, first: seq<string>, second: seq<string>, sorted: seq<string>)
    requires Prepared(limits, first, second, sorted)
    ensures forall k :: k in second ==> k in limits.byPrefix
    ensures forall k :: k in limits.byPrefix ==> Normalized(k) in sorted
    ensures forall n :: n in sorted ==> exists k :: k in limits.byPrefix && n == Normalized(k)
    ensures forall n :: n in sorted ==> n in Table(limits, second)
    ensures forall n :: n in Table(limits, second) ==>
              exists k :: k in limits.byPrefix && n == Normalized(k) && Table(limits, second)[n] == limits.byPrefix[k]
  {
    hide Normalized, Table, ByteLen, LongestFirst;
    OrderKeys(second, limits.byPrefix.Keys);
    SortedKeys(limits, first, sorted);
    TableHolds(limits, second);
  }

  lemma {:induction false} FirstMatchFinds(sorted: seq<string>, table: map<string, int>, path: string, default: int)
    requires forall n :: n in sorted ==> n in table
    ensures var limit := FirstMatch(sorted, table, path, default);
            if exists i :: 0 <= i < |sorted| && MatchesPrefix(CleanPath(path), sorted[i])
            then exists i :: 0 <= i < |sorted| && MatchesPrefix(CleanPath(path), sorted[i]) &&
                             limit == table[sorted[i]] &&
                             forall j :: 0 <= j < i ==> !MatchesPrefix(CleanPath(path), sorted[j])
            else limit == default
  {
    if sorted != [] && !MatchesPrefix(CleanPath(path), sorted[0]) {
      var rest := sorted[1..];
      FirstMatchFinds(rest, table, path, default);
      if i :| 0 <= i < |sorted| && MatchesPrefix(CleanPath(path), sorted[i]) {
        assert rest[i - 1] == sorted[i];
        var r :| 0 <= r < |rest| && MatchesPrefix(CleanPath(path), rest[r]) &&
                 FirstMatch(rest, table, path, default) == table[rest[r]] &&
                 forall j :: 0 <= j < r ==> !MatchesPrefix(CleanPath(path), rest[j]);
        assert sorted[r + 1] == rest[r];
        forall j | 0 <= j < r + 1 ensures !MatchesPrefix(CleanPath(path), sorted[j]) {
          if j > 0 {
            assert rest[j - 1] == sorted[j];
          }
        }
      } else {
        assert forall i :: 0 <= i < |rest| ==> rest[i] == sorted[i + 1];
      }
    }
  }

  lemma FirstMatchUncovered(limits: Limits, sorted: seq<string>, table: map<string, int>, path: string)
    requires forall n :: n in sorted ==> n in table
    requires forall n :: n in sorted ==> exists k :: k in limits.byPrefix && n == Normalized(k)
    requires forall k :: k in limits.byPrefix ==> !Covers(k, path)
    ensures FirstMatch(sorted, table, path, limits.default) == limits.default
  {
    hide Covers, Normalized, Rank, CleanPath, FirstMatch;
    FirstMatchFinds(sorted, table, path, limits.default);
    forall i | 0 <= i < |sorted| ensures !MatchesPrefix(CleanPath(path), sorted[i]) {
      assert sorted[i] in sorted;
      var k :| k in limits.byPrefix && sorted[i] == Normalized(k);
      MatchIsCovers(path, k);
    }
  }

  lemma FirstIsLongest(limits: Limits, sorted: seq<string>, path: string, i: nat, k: string)
    requires LongestFirst(sorted)
    requires forall x :: x in limits.byPrefix ==> Normalized(x) in sorted
    requires i < |sorted| && k in limits.byPrefix && sorted[i] == Normalized(k) && Covers(k, path)
    requires forall j :: 0 <= j < i ==> !MatchesPrefix(CleanPath(path), sorted[j])
    ensures Longest(limits.byPrefix.Keys, path, k)
  {
    hide Covers, Normalized, Rank, CleanPath, ByteLen;
    forall j | j in limits.byPrefix && Covers(j, path) ensures Rank(j) <= Rank(k) {
      MatchIsCovers(path, j);
      assert Normalized(j) in sorted;
      var at :| 0 <= at < |sorted| && sorted[at] == Normalized(j);
      CoveringLengths(path, k, j);
    }
  }

  lemma FirstMatchCovered(limits: Limits, sorted: seq<string>, table: map<string, int>, path: string, c: string)
    requires LongestFirst(sorted)
    requires forall n :: n in sorted ==> n in table
    requires forall k :: k in limits.byPrefix ==> Normalized(k) in sorted
    requires forall n :: n in table ==>
               exists k :: k in limits.byPrefix && n == Normalized(k) && table[n] == limits.byPrefix[k]
    requires c in limits.byPrefix && Covers(c, path)
    ensures exists k :: Longest(limits.byPrefix.Keys, path, k) &&
                        FirstMatch(sorted, table, path, limits.default) == limits.byPrefix[k]
  {
    hide Covers, Normalized, Rank, CleanPath, FirstMatch, LongestFirst, Longest;
    FirstMatchFinds(sorted, table, path, limits.default);
    MatchIsCovers(path, c);
    assert Normalized(c) in sorted;
    var i :| 0 <= i < |sorted| && MatchesPrefix(CleanPath(path), sorted[i]) &&
             FirstMatch(sorted, table, path, limits.default) == table[sorted[i]] &&
             forall j :: 0 <= j < i ==> !MatchesPrefix(CleanPath(path), sorted[j]);
    var k :| k in limits.byPrefix && sorted[i] == Normalized(k) && table[sorted[i]] == limits.byPrefix[k];
    MatchIsCovers(path, k);
    FirstIsLongest(limits, sorted, path, i, k);
  }

  lemma FirstMatchCorrect(limits: Limits, first: seq<string>, second: seq<string>, sorted: seq<string>, path: string)
    requires Prepared(limits, first, second, sorted)
    ensures forall k :: k in second ==> k in limits.byPrefix
    ensures forall n :: n in sorted ==> n in Table(limits, second)
    ensures Correct(limits, path, FirstMatch(sorted, Table(limits, second), path, limits.default))
  {
    PreparedKeys(limits, first, second, sorted);
    var table := Table(limits, second);
    if k :| k in limits.byPrefix && Covers(k, path) {
      FirstMatchCovered(limits, sorted, table, path, k);
    } else {
      FirstMatchUncovered(limits, sorted, table, path);
    }
  }

  function Insert(sorted: seq<string>, s: string): seq<string> {
    if sorted == [] || ByteLen(sorted[0]) <= ByteLen(s) then [s] + sorted
    else [sorted[0]] + Insert(sorted[1..], s)
  }

  lemma {:induction false} InsertKeeps(sorted: seq<string>, s: string)
    ensures multiset(Insert(sorted, s)) == multiset(sorted) + multiset{s}
  {
    if sorted == [] || ByteLen(sorted[0]) <= ByteLen(s) {
    } else {
      InsertKeeps(sorted[1..], s);
      assert sorted == [sorted[0]] + sorted[1..];
    }
  }

  lemma LongestFirstCons(s: string, rest: seq<string>)
    requires LongestFirst(rest) && forall x :: x in rest ==> ByteLen(s) >= ByteLen(x)
    ensures LongestFirst([s] + rest)
  {
  }

  lemma {:induction false} InsertSorts(sorted: seq<string>, s: string)
    requires LongestFirst(sorted)
    ensures LongestFirst(Insert(sorted, s))
    ensures multiset(Insert(sorted, s)) == multiset(sorted) + multiset{s}
  {
    InsertKeeps(sorted, s);
    if sorted == [] || ByteLen(sorted[0]) <= ByteLen(s) {
      LongestFirstCons(s, sorted);
    } else {
      var rest := Insert(sorted[1..], s);
      InsertSorts(sorted[1..], s);
      forall x | x in rest ensures ByteLen(sorted[0]) >= ByteLen(x) {
        assert x in multiset(rest);
        if x != s {
          assert x in sorted[1..];
        }
      }
      LongestFirstCons(sorted[0], rest);
    }
  }

  /** sort.Slice by descending length; callers learn only that the result is one of those it may leave. */
  method SortLongestFirst(prefixes: seq<string>) returns (sorted: seq<string>)
    ensures SortedFrom(sorted, prefixes)
  {
    sorted := [];
    for i := 0 to |prefixes|
      invariant multiset(sorted) == multiset(prefixes[..i]) && LongestFirst(sorted)
    {
      InsertSorts(sorted, prefixes[i]);
      assert prefixes[..i + 1] == prefixes[..i] + [prefixes[i]];
      sorted := Insert(sorted, prefixes[i]);
    }
    assert prefixes[..|prefixes|] == prefixes;
  }

  method FillTable(limits: Limits, second: seq<string>) returns (table: map<string, int>)
    requires forall k :: k in second ==> k in limits.byPrefix
    ensures table == Table(limits, second)
  {
    hide Normalized;
    table := map[];
    for i := 0 to |second|
      invariant table == Table(limits, second[..i])
    {
      assert second[..i + 1][..i] == second[..i];
      table := table[Normalized(second[i]) := limits.byPrefix[second[i]]];
    }
    assert second[..|second|] == second;
  }

  /** The two loops and the sort at the top of Middleware, over whatever orders the map shows. */
  method Prepare(limits: Limits, first: seq<string>, second: seq<string>)
    returns (sorted: seq<string>, table: map<string, int>)
    requires IsOrder(first, limits.byPrefix.Keys) && IsOrder(second, limits.byPrefix.Keys)
    ensures Prepared(limits, first, second, sorted)
    ensures forall k :: k in second ==> k in limits.byPrefix
    ensures table == Table(limits, second)
  {
    hide Normalized, LongestFirst, ByteLen;
    OrderKeys(second, limits.byPrefix.Keys);
    var prefixes: seq<string> := [];
    for i := 0 to |first|
      invariant prefixes == NormalizedAll(first)[..i]
    {
      prefixes := prefixes + [Normalized(first[i])];
    }
    assert prefixes == NormalizedAll(first);
    sorted := SortLongestFirst(prefixes);
    table := FillTable(limits, second);
  }

  datatype Admission = Refused(limit: int) | Capped(limit: int)

  /** One request: pick the limit, refuse a declared length over it, cap the reader otherwise. */
  method Admit(limits: Limits, ghost first: seq<string>, ghost second: seq<string>, sorted: seq<string>,
               table: map<string, int>, escapedPath: string, contentLength: int)
    returns (admission: Admission)
    requires Prepared(limits, first, second, sorted)
    requires (forall k :: k in second ==> k in limits.byPrefix) && table == Table(limits, second)
    ensures Correct(limits, escapedPath, admission.limit)
    ensures admission.Refused? <==> contentLength > admission.limit
  {
    FirstMatchCorrect(limits, first, second, sorted, escapedPath);
    var limit := limits.default;
    var path := RequestPath(escapedPath);
    var i := 0;
    while i < |sorted|
      invariant 0 <= i <= |sorted|
      invariant limit == limits.default
      invariant FirstMatch(sorted, table, escapedPath, limits.default) ==
                FirstMatch(sorted[i..], table, escapedPath, limits.default)
    {
      if MatchesPrefix(path, sorted[i]) {
        limit := table[sorted[i]];
        break;
      }
      assert sorted[i..][1..] == sorted[i + 1..];
      i := i + 1;
    }
    if contentLength > limit {
      return Refused(limit);
    }
    return Capped(limit);
  }

  // ---------------------------------------------------------------- agreement

  /** Any key may come first. */
  lemma {:induction false} OrderFrom(keys: set<string>, first: string) returns (order: seq<string>)
    requires first in keys
    ensures IsOrder(order, keys) && order[0] == first
    decreases keys
  {
    var others := keys - {first};
    if others == {} {
      order := [first];
      assert keys == {first};
    } else {
      var k :| k in others;
      var rest := OrderFrom(others, k);
      order := [first] + rest;
      assert multiset(keys) == multiset{first} + multiset(others);
    }
  }

  /** Nothing seen later displaces a key that already has the greatest length. */
  lemma {:induction false} RunningMaxKeeps(limits: Limits, order: seq<string>, path: string, best: int, bestLength: int)
    requires forall k :: k in order ==> k in limits.byPrefix
    requires forall k :: k in order && Covers(k, path) ==> ByteLen(Normalized(k)) <= bestLength
    ensures RunningMax(limits, order, path, best, bestLength) == best
    decreases |order|
  {
    if order != [] {
      MatchIsCovers(path, order[0]);
      assert order[0] in order;
      RunningMaxKeeps(limits, order[1..], path, best, bestLength);
    }
  }

  /** One choice of every order gives one path the same limit in the middleware and in LimitFor. */
  ghost predicate AgreesOn(limits: Limits, path: string, order: seq<string>,
                           first: seq<string>, second: seq<string>, sorted: seq<string>) {
    && (forall k :: k in order ==> k in limits.byPrefix)
    && (forall k :: k in second ==> k in limits.byPrefix)
    && (forall n :: n in sorted ==> n in Table(limits, second))
    && LimitFor(limits, order, path) == FirstMatch(sorted, Table(limits, second), path, limits.default)
  }

  /** The prefixes of a path with the most segments all carry one limit. */
  ghost predicate OneLimit(limits: Limits, path: string) {
    forall j, k :: Longest(limits.byPrefix.Keys, path, j) && Longest(limits.byPrefix.Keys, path, k) ==>
                     limits.byPrefix[j] == limits.byPrefix[k]
  }

  /** Whatever orders the map is ranged over in, and however ties are sorted. */
  ghost predicate AgreesAt(limits: Limits, path: string) {
    forall order, first, second, sorted ::
      IsOrder(order, limits.byPrefix.Keys) && Prepared(limits, first, second, sorted) ==>
        AgreesOn(limits, path, order, first, second, sorted)
  }

  ghost predicate Agrees(limits: Limits) {
    forall path :: AgreesAt(limits, path)
  }

  lemma OneCorrectLimit(limits: Limits, path: string, a: int, b: int)
    requires OneLimit(limits, path) && Correct(limits, path, a) && Correct(limits, path, b)
    ensures a == b
  {
    hide Covers;
  }

  /** Ranging over one of a path's longest prefixes first gives that prefix's limit. */
  lemma LongestFirstLimit(limits: Limits, k: string, path: string, order: seq<string>)
    requires Longest(limits.byPrefix.Keys, path, k)
    requires IsOrder(order, limits.byPrefix.Keys) && order[0] == k
    ensures forall x :: x in order ==> x in limits.byPrefix
    ensures LimitFor(limits, order, path) == limits.byPrefix[k]
  {
    OrderKeys(order, limits.byPrefix.Keys);
    MatchIsCovers(path, k);
    forall j | j in order && Covers(j, path) ensures ByteLen(Normalized(j)) <= ByteLen(Normalized(k)) {
      CoveringLengths(path, k, j);
    }
    hide Covers, Normalized, Rank, ByteLen, CleanPath;
    RunningMaxKeeps(limits, order[1..], path, limits.byPrefix[k], ByteLen(Normalized(k)));
  }

  lemma {:induction false} SortedExists(prefixes: seq<string>) returns (sorted: seq<string>)
    ensures SortedFrom(sorted, prefixes)
  {
    hide ByteLen;
    if prefixes == [] {
      sorted := [];
    } else {
      var rest := SortedExists(prefixes[1..]);
      InsertSorts(rest, prefixes[0]);
      sorted := Insert(rest, prefixes[0]);
      assert prefixes == [prefixes[0]] + prefixes[1..];
    }
  }

  lemma DisagreementShows(limits: Limits, path: string, j: string, k: string)
    requires Longest(limits.byPrefix.Keys, path, j) && Longest(limits.byPrefix.Keys, path, k)
    requires limits.byPrefix[j] != limits.byPrefix[k]
    ensures !AgreesAt(limits, path)
  {
    hide LimitFor, FirstMatch, Normalized, IsOrder, Table, SortedFrom, Covers, Rank;
    var fromJ := OrderFrom(limits.byPrefix.Keys, j);
    var fromK := OrderFrom(limits.byPrefix.Keys, k);
    LongestFirstLimit(limits, j, path, fromJ);
    LongestFirstLimit(limits, k, path, fromK);
    var sorted := SortedExists(NormalizedAll(fromJ));
    assert Prepared(limits, fromJ, fromJ, sorted);
    assert AgreesOn(limits, path, fromJ, fromJ, fromJ, sorted) ==> !AgreesOn(limits, path, fromK, fromJ, fromJ, sorted);
  }

  /**
   * On one path, sorting and taking the first match agrees with the running maximum exactly when the
   * longest prefixes of that path carry one limit.
   */
  lemma AgreementOnPathExactly(limits: Limits, path: string)
    ensures AgreesAt(limits, path) <==> OneLimit(limits, path)
  {
    hide Prepared, LimitFor, FirstMatch, Normalized, IsOrder, Correct, Table, Covers, Rank;
    if OneLimit(limits, path) {
      forall order, first, second, sorted |
        IsOrder(order, limits.byPrefix.Keys) && Prepared(limits, first, second, sorted)
        ensures AgreesOn(limits, path, order, first, second, sorted)
      {
        LimitForCorrect(limits, order, path);
        FirstMatchCorrect(limits, first, second, sorted, path);
        OneCorrectLimit(limits, path, LimitFor(limits, order, path),
                        FirstMatch(sorted, Table(limits, second), path, limits.default));
      }
    } else {
      var j, k :| Longest(limits.byPrefix.Keys, path, j) && Longest(limits.byPrefix.Keys, path, k) &&
                  limits.byPrefix[j] != limits.byPrefix[k];
      DisagreementShows(limits, path, j, k);
    }
  }

  lemma UnambiguousOnPath(limits: Limits, path: string)
    requires Unambiguous(limits)
    ensures OneLimit(limits, path)
  {
    hide Covers, Rank, Normalized;
    forall j, k | Longest(limits.byPrefix.Keys, path, j) && Longest(limits.byPrefix.Keys, path, k)
      ensures limits.byPrefix[j] == limits.byPrefix[k]
    {
      CoveringLengths(path, j, k);
    }
  }

  lemma SameNormalizedSameSegments(j: string, k: string)
    requires TrimSpace(j) != "" && TrimSpace(k) != "" && Normalized(j) == Normalized(k)
    ensures Segments(TrimSpace(j)) == Segments(TrimSpace(k))
  {
    var a, b := Segments(TrimSpace(j)), Segments(TrimSpace(k));
    NormalizedShape(j);
    NormalizedShape(k);
    NormalizePrefixShape(j);
    NormalizePrefixShape(k);
    if a != [] {
      RenderIsBody(a);
      RenderIsBody(b);
      StripHead("/", Body(a), Body(b));
      StripHead("/", Body(b), Body(a));
      assert Body(a) + "" == Body(a) && Body(b) + "" == Body(b);
      BodyPrefix(a, b, "");
      BodyPrefix(b, a, "");
    }
  }

  /** Two such keys are both longest for the path they stand for. */
  lemma AmbiguityShows(limits: Limits, j: string, k: string)
    requires ValidLimits(limits)
    requires j in limits.byPrefix && k in limits.byPrefix && Normalized(j) == Normalized(k)
    requires limits.byPrefix[j] != limits.byPrefix[k]
    ensures !Agrees(limits)
  {
    var path := TrimSpace(j);
    hide LimitFor, FirstMatch, Normalized, IsOrder, Segments, Table, SortedFrom, Prepared, AgreesAt;
    assert ValidEntry(limits, j) && ValidEntry(limits, k);
    SameNormalizedSameSegments(j, k);
    assert Longest(limits.byPrefix.Keys, path, j) && Longest(limits.byPrefix.Keys, path, k);
    DisagreementShows(limits, path, j, k);
  }

  /**
   * Sorting and taking the first match agrees with the running maximum on every path, whatever order the
   * map is ranged over in, exactly when no two keys that normalize alike carry different limits.
   */
  lemma AgreementExactly(limits: Limits)
    requires ValidLimits(limits)
    ensures Agrees(limits) <==> Unambiguous(limits)
  {
    hide Normalized, OneLimit, AgreesAt;
    if Unambiguous(limits) {
      forall path ensures AgreesAt(limits, path) {
        UnambiguousOnPath(limits, path);
        AgreementOnPathExactly(limits, path);
      }
    } else {
      var j, k :| j in limits.byPrefix && k in limits.byPrefix && Normalized(j) == Normalized(k) &&
                  limits.byPrefix[j] != limits.byPrefix[k];
      AmbiguityShows(limits, j, k);
    }
  }

  lemma ValidExample(limits: Limits)
    requires limits == Limits(1, map["/api" := 1, "/api/" := 2])
    ensures ValidLimits(limits)
  {
    TrimSpaceFixes("/api");
    TrimSpaceFixes("/api/");
    hide TrimSpace;
  }

  lemma SameNormalizedExample()
    ensures Normalized("/api") == Normalized("/api/")
  {
    var segments := ["api"];
    assert "/" + Join(segments, "/") + "" == "/api" && "/" + Join(segments, "/") + "/" == "/api/";
    SegmentsOfRendered(segments, "");
    SegmentsOfRendered(segments, "/");
    TrimSpaceFixes("/api");
    TrimSpaceFixes("/api/");
    hide Segments, Join, TrimSpace, Normalized, Render;
    NormalizedShape("/api");
    NormalizedShape("/api/");
  }

  lemma AmbiguousPair(limits: Limits, j: string, k: string)
    requires ValidLimits(limits)
    requires j in limits.byPrefix && k in limits.byPrefix && Normalized(j) == Normalized(k)
    requires limits.byPrefix[j] != limits.byPrefix[k]
    ensures !Unambiguous(limits) && !Agrees(limits)
  {
    AmbiguityShows(limits, j, k);
    hide Normalized, Agrees, ValidLimits;
  }

  /** Two keys that normalize alike with different limits: which one "/api" gets depends on the map order. */
  lemma AmbiguousExample()
    ensures var limits := Limits(1, map["/api" := 1, "/api/" := 2]);
            ValidLimits(limits) && !Unambiguous(limits) && !Agrees(limits)
  {
    var j, k := "/api", "/api/";
    var limits := Limits(1, map[j := 1, k := 2]);
    hide *;
    ValidExample(limits);
    SameNormalizedExample();
    assert |j| != |k|;
    AmbiguousPair(limits, j, k);
  }
}
