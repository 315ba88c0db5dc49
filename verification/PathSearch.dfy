/**
 * Fuzzy matching and bounded top-k search over the path index (src-tauri/src/fs.rs,
 * fuzzy_indices, ranked_path_matches, search_index).
 */
module PathSearch {
  import opened Wrappers
  import opened PathIndexCaches

  const MAX_PATH_SEARCH_RESULTS := 200

  /** `char::to_lowercase`: the characters a character lowers to. */
  type Lowering = char -> string

  // ---------- Fuzzy matching ----------

  /** `query.chars().flat_map(char::to_lowercase)` */
  function Lowered(lower: Lowering, query: string): string {
    if query == "" then "" else lower(query[0]) + Lowered(lower, query[1..])
  }

  function Utf16Len(c: char): nat {
    if c as int < 0x1_0000 then 1 else 2
  }

  /** The UTF-16 offset of the character after `text`. */
  function Utf16Offset(text: string): nat {
    if text == "" then 0 else Utf16Offset(text[..|text| - 1]) + Utf16Len(text[|text| - 1])
  }

  /** The characters at the positions `at`, in order, lower to the characters wanted. */
  ghost predicate Embeds(lower: Lowering, text: string, wanted: string, at: seq<nat>) {
    && |at| == |wanted|
    && (forall k :: 0 <= k < |at| ==> at[k] < |text| && wanted[k] in lower(text[at[k]]))
    && (forall j, k :: 0 <= j < k < |at| ==> at[j] < at[k])
  }

  /** `at` is an embedding and no other embedding has any position earlier. */
  ghost predicate Least(lower: Lowering, text: string, wanted: string, at: seq<nat>) {
    && Embeds(lower, text, wanted, at)
    && (forall other :: Embeds(lower, text, wanted, other) ==> forall k :: 0 <= k < |at| ==> at[k] <= other[k])
  }

  ghost predicate Matches(lower: Lowering, text: string, query: string) {
    Lowered(lower, query) != "" && exists at :: Embeds(lower, text, Lowered(lower, query), at)
  }

  ghost function Offsets(text: string, at: seq<nat>): seq<nat>
    requires forall k :: 0 <= k < |at| ==> at[k] < |text|
  {
    seq(|at|, k requires 0 <= k < |at| => Utf16Offset(text[..at[k]]))
  }

  /** What `fuzzy_indices` promises: offsets of the least embedding, or nothing when there is none. */
  ghost predicate FuzzyResult(lower: Lowering, text: string, query: string, r: Option<seq<nat>>) {
    match r
    case None => !Matches(lower, text, query)
    case Some(positions) =>
      exists at :: Lowered(lower, query) != "" && Least(lower, text, Lowered(lower, query), at) && positions == Offsets(text, at)
  }

  /** Having read `i` characters, `at` is as early as any embedding starts, and none goes on before `i`. */
  ghost predicate Greedy(lower: Lowering, text: string, wanted: string, i: nat, at: seq<nat>) {
    && |at| <= |wanted| && Embeds(lower, text, wanted[..|at|], at)
    && (forall k :: 0 <= k < |at| ==> at[k] < i)
    && (forall other :: Embeds(lower, text, wanted, other) ==> NoEarlier(at, i, other))
  }

  ghost predicate NoEarlier(at: seq<nat>, i: nat, other: seq<nat>) {
    && (forall k :: 0 <= k < |at| && k < |other| ==> at[k] <= other[k])
    && (|at| < |other| ==> i <= other[|at|])
  }

  lemma GreedyTakes(lower: Lowering, text: string, wanted: string, i: nat, at: seq<nat>)
    requires Greedy(lower, text, wanted, i, at) && i < |text|
    requires |at| < |wanted| && wanted[|at|] in lower(text[i])
    ensures Greedy(lower, text, wanted, i + 1, at + [i])
  {
    var n := |at|;
    assert wanted[..n + 1] == wanted[..n] + [wanted[n]];
    forall other | Embeds(lower, text, wanted, other) ensures NoEarlier(at + [i], i + 1, other) {
      assert NoEarlier(at, i, other);
      assert n + 1 < |other| ==> other[n] < other[n + 1];
    }
  }

  lemma GreedySkips(lower: Lowering, text: string, wanted: string, i: nat, at: seq<nat>)
    requires Greedy(lower, text, wanted, i, at) && i < |text|
    requires |at| < |wanted| && wanted[|at|] !in lower(text[i])
    ensures Greedy(lower, text, wanted, i + 1, at)
  {
    forall other | Embeds(lower, text, wanted, other) ensures NoEarlier(at, i + 1, other) {
      assert NoEarlier(at, i, other);
      assert other[|at|] != i;
    }
  }

  lemma GreedyIsLeast(lower: Lowering, text: string, wanted: string, i: nat, at: seq<nat>)
    requires Greedy(lower, text, wanted, i, at) && |at| == |wanted|
    ensures Least(lower, text, wanted, at)
  {
    assert wanted[..|at|] == wanted;
  }

  lemma GreedyRunsOut(lower: Lowering, text: string, wanted: string, i: nat, at: seq<nat>)
    requires Greedy(lower, text, wanted, i, at) && i >= |text| && |at| < |wanted|
    ensures forall other :: !Embeds(lower, text, wanted, other)
  {
    forall other ensures !Embeds(lower, text, wanted, other) {
      assert Embeds(lower, text, wanted, other) ==> NoEarlier(at, i, other);
    }
  }

  lemma OffsetsGrow(text: string, at: seq<nat>, i: nat)
    requires i < |text| && forall k :: 0 <= k < |at| ==> at[k] < i
    ensures Offsets(text, at + [i]) == Offsets(text, at) + [Utf16Offset(text[..i])]
    ensures Utf16Offset(text[..i + 1]) == Utf16Offset(text[..i]) + Utf16Len(text[i])
  {
    assert text[..i + 1][..i] == text[..i];
  }

  method FuzzyIndices(lower: Lowering, text: string, query: string) returns (r: Option<seq<nat>>)
    ensures FuzzyResult(lower, text, query, r)
  {
    var wanted := Lowered(lower, query);
    if wanted == "" {
      return None;
    }
    var positions: seq<nat> := [];
    ghost var at: seq<nat> := [];
    var utf16Index := 0;
    assert text[..0] == "";
    for i := 0 to |text|
      invariant |at| < |wanted| && Greedy(lower, text, wanted, i, at)
      invariant utf16Index == Utf16Offset(text[..i]) && positions == Offsets(text, at)
    {
      var ch := text[i];
      OffsetsGrow(text, at, i);
      if wanted[|positions|] in lower(ch) {
        GreedyTakes(lower, text, wanted, i, at);
        positions := positions + [utf16Index];
        at := at + [i];
        if |positions| == |wanted| {
          GreedyIsLeast(lower, text, wanted, i + 1, at);
          return Some(positions);
        }
      } else {
        GreedySkips(lower, text, wanted, i, at);
      }
      utf16Index := utf16Index + Utf16Len(ch);
    }
    GreedyRunsOut(lower, text, wanted, |text|, at);
    return None;
  }

  lemma FuzzyResultIsUnique(lower: Lowering, text: string, query: string, r: Option<seq<nat>>, r': Option<seq<nat>>)
    requires FuzzyResult(lower, text, query, r) && FuzzyResult(lower, text, query, r')
    ensures r == r'
  {
    if r.Some? && r'.Some? {
      var wanted := Lowered(lower, query);
      var at :| Least(lower, text, wanted, at) && r.value == Offsets(text, at);
      var at' :| Least(lower, text, wanted, at') && r'.value == Offsets(text, at');
      assert at == at';
    }
  }

  /** The highlighted offsets are strictly increasing. */
  lemma OffsetsIncrease(lower: Lowering, text: string, query: string, positions: seq<nat>)
    requires FuzzyResult(lower, text, query, Some(positions))
    ensures |positions| == |Lowered(lower, query)|
    ensures forall j, k :: 0 <= j < k < |positions| ==> positions[j] < positions[k]
  {
    var at :| Least(lower, text, Lowered(lower, query), at) && positions == Offsets(text, at);
    forall j, k | 0 <= j < k < |positions| ensures positions[j] < positions[k] {
      OffsetsAreMonotone(text, at[j], at[k]);
    }
  }

  lemma {:induction false} OffsetsAreMonotone(text: string, i: nat, j: nat)
    requires i < j <= |text|
    ensures Utf16Offset(text[..i]) < Utf16Offset(text[..j])
  {
    assert text[..j][..j - 1] == text[..j - 1];
    if i < j - 1 {
      OffsetsAreMonotone(text, i, j - 1);
    }
  }

  // ---------- The name inside a path ----------

  /** Where the last `/`-separated segment of `s` starts. */
  function LastSegmentStart(s: string): (i: nat)
    ensures i <= |s|
    ensures forall k :: i <= k < |s| ==> s[k] != '/'
    ensures i > 0 ==> s[i - 1] == '/'
  {
    if s == "" || s[|s| - 1] == '/' then |s| else LastSegmentStart(s[..|s| - 1])
  }

  /** `Path::file_name`: the last component, unless there is none or it is `..`. */
  function FileName(s: string): string {
    var start := LastSegmentStart(s);
    var segment := s[start..];
    if segment == ".." then ""
    else if segment != "" && segment != "." then segment
    else if start == 0 then ""
    else FileName(s[..start - 1])
  }

  /** A name is a stretch of its path, so what embeds in the name embeds in the path. */
  lemma {:induction false} NameIsInPath(s: string) returns (from: nat)
    ensures from + |FileName(s)| <= |s|
    ensures s[from..from + |FileName(s)|] == FileName(s)
  {
    var start := LastSegmentStart(s);
    var segment := s[start..];
    if segment == ".." {
      from := 0;
    } else if segment != "" && segment != "." {
      from := start;
    } else if start == 0 {
      from := 0;
    } else {
      from := NameIsInPath(s[..start - 1]);
    }
  }

  lemma NameMatchIsPathMatch(lower: Lowering, relative: string, query: string)
    requires Matches(lower, FileName(relative), query)
    ensures Matches(lower, relative, query)
  {
    var wanted := Lowered(lower, query);
    var name := FileName(relative);
    var from := NameIsInPath(relative);
    var at :| Embeds(lower, name, wanted, at);
    var shifted := seq(|at|, k requires 0 <= k < |at| => from + at[k]);
    forall k | 0 <= k < |at| ensures shifted[k] < |relative| && wanted[k] in lower(relative[shifted[k]]) {
      assert name[at[k]] == relative[from..from + |name|][at[k]] == relative[from + at[k]];
    }
    assert Embeds(lower, relative, wanted, shifted);
  }

  // ---------- Ranks ----------

  datatype Rank = Rank(pathOnly: bool, length: nat, relative: string, position: nat)

  /** Strings in order of their scalar values, which is the order of their UTF-8 bytes. */
  predicate StringLess(a: string, b: string) {
    b != "" && (a == "" || a[0] < b[0] || (a[0] == b[0] && StringLess(a[1..], b[1..])))
  }

  /** `rank < *worst`: tuples compare component by component. */
  predicate Less(a: Rank, b: Rank) {
    if a.pathOnly != b.pathOnly then b.pathOnly
    else if a.length != b.length then a.length < b.length
    else if a.relative != b.relative then StringLess(a.relative, b.relative)
    else a.position < b.position
  }

  lemma {:induction false} StringLessTotal(a: string, b: string)
    ensures a == b || StringLess(a, b) || StringLess(b, a)
  {
    if a != "" && b != "" && a[0] == b[0] {
      StringLessTotal(a[1..], b[1..]);
      assert a == [a[0]] + a[1..] && b == [b[0]] + b[1..];
    }
  }

  lemma {:induction false} StringLessAsymmetric(a: string, b: string)
    requires StringLess(a, b)
    ensures !StringLess(b, a)
  {
    if a != "" && a[0] == b[0] {
      StringLessAsymmetric(a[1..], b[1..]);
    }
  }

  lemma {:induction false} StringLessTransitive(a: string, b: string, c: string)
    requires StringLess(a, b) && StringLess(b, c)
    ensures StringLess(a, c)
  {
    if a != "" && a[0] == b[0] == c[0] {
      StringLessTransitive(a[1..], b[1..], c[1..]);
    }
  }

  lemma LessTotal(a: Rank, b: Rank)
    ensures a == b || Less(a, b) || Less(b, a)
  {
    StringLessTotal(a.relative, b.relative);
  }

  lemma LessAsymmetric(a: Rank, b: Rank)
    requires Less(a, b)
    ensures !Less(b, a)
  {
    if StringLess(a.relative, b.relative) {
      StringLessAsymmetric(a.relative, b.relative);
    }
  }

  lemma LessTransitive(a: Rank, b: Rank, c: Rank)
    requires Less(a, b) && Less(b, c)
    ensures Less(a, c)
  {
    if StringLess(a.relative, b.relative) && StringLess(b.relative, c.relative) {
      StringLessTransitive(a.relative, b.relative, c.relative);
      if a.relative == c.relative {
        StringLessAsymmetric(a.relative, b.relative);
      }
    }
  }

  ghost predicate Ascending(s: seq<Rank>) {
    forall i, j :: 0 <= i < j < |s| ==> Less(s[i], s[j])
  }

  // ---------- The simple form: rank everything that matches, and sort ----------

  ghost function RankOf(lower: Lowering, index: seq<IndexedPath>, query: string, position: nat): Rank
    requires position < |index|
  {
    var relative := index[position].relative;
    Rank(!Matches(lower, FileName(relative), query), |relative|, relative, position)
  }

  /** The ranks of all the matching entries among the first `n`. */
  ghost function AllRanks(lower: Lowering, index: seq<IndexedPath>, query: string, n: nat): set<Rank>
    requires n <= |index|
  {
    set i | 0 <= i < n && Matches(lower, index[i].relative, query) :: RankOf(lower, index, query, i)
  }

  /** Which of the first `n` entries match: by their whole relative path. */
  ghost function Matching(lower: Lowering, index: seq<IndexedPath>, query: string, n: nat): set<nat>
    requires n <= |index|
  {
    set i | 0 <= i < n && Matches(lower, index[i].relative, query)
  }

  /** `s` is `ranks` sorted. */
  ghost predicate SortedForm(s: seq<Rank>, ranks: set<Rank>) {
    Ascending(s) && (forall r :: r in s <==> r in ranks)
  }

  lemma {:induction false} SortedFormIsUnique(s: seq<Rank>, t: seq<Rank>, ranks: set<Rank>)
    requires SortedForm(s, ranks) && SortedForm(t, ranks)
    ensures s == t
    decreases |s|
  {
    if s == [] {
      assert forall k :: 0 <= k < |t| ==> t[k] in t;
    } else {
      assert s[0] in ranks && s[0] in t;
      assert t[0] in ranks && t[0] in s;
      if s[0] != t[0] {
        LessAsymmetric(s[0], t[0]);
      }
      forall r ensures r in s[1..] <==> r in ranks - {s[0]} {
        LessIrreflexiveTail(s, r);
      }
      forall r ensures r in t[1..] <==> r in ranks - {s[0]} {
        LessIrreflexiveTail(t, r);
      }
      SortedFormIsUnique(s[1..], t[1..], ranks - {s[0]});
      assert s == [s[0]] + s[1..] && t == [t[0]] + t[1..];
    }
  }

  lemma LessIrreflexiveTail(s: seq<Rank>, r: Rank)
    requires Ascending(s) && s != []
    ensures r in s[1..] <==> r in s && r != s[0]
  {
    if s[0] in s[1..] {
      LessAsymmetric(s[0], s[0]);
    }
    assert s == [s[0]] + s[1..];
  }

  // ---------- The heap ----------

  /**
   * `BinaryHeap`, told by its interface: the ranks it holds, ascending. The last is what
   * `peek` shows and `pop` removes, and the whole is what `into_sorted_vec` returns.
   */
  function Push(heap: seq<Rank>, rank: Rank): seq<Rank> {
    if heap == [] then [rank]
    else if Less(rank, heap[|heap| - 1]) then Push(heap[..|heap| - 1], rank) + [heap[|heap| - 1]]
    else heap + [rank]
  }

  lemma {:induction false} PushInserts(heap: seq<Rank>, rank: Rank)
    requires Ascending(heap) && rank !in heap
    ensures Ascending(Push(heap, rank)) && |Push(heap, rank)| == |heap| + 1
    ensures forall r :: r in Push(heap, rank) <==> r in heap || r == rank
  {
    if heap != [] {
      var n := |heap| - 1;
      assert heap == heap[..n] + [heap[n]];
      if Less(rank, heap[n]) {
        PushInserts(heap[..n], rank);
        var front := Push(heap[..n], rank);
        forall i | 0 <= i < |front| ensures Less(front[i], heap[n]) {
          assert front[i] in front;
        }
      } else {
        LessTotal(rank, heap[n]);
        forall i | 0 <= i < n ensures Less(heap[i], rank) {
          LessTransitive(heap[i], heap[n], rank);
        }
      }
    }
  }

  function Take(s: seq<Rank>, k: nat): seq<Rank> {
    if |s| <= k then s else s[..k]
  }

  lemma TakeOfMore(s: seq<Rank>, last: Rank, k: nat)
    requires k <= |s|
    ensures Take(s + [last], k) == Take(s, k) == s[..k]
  {
    assert (s + [last])[..k] == s[..k];
  }

  /** A rank that goes to the end does not come before any that is kept. */
  lemma PushedLast(s: seq<Rank>, rank: Rank, k: nat, last: Rank)
    requires Ascending(s) && 0 < k <= |s| && last == s[|s| - 1] && !Less(rank, last)
    ensures Take(Push(s, rank), k) == s[..k] && !Less(rank, s[k - 1])
  {
    TakeOfMore(s, rank, k);
    if Less(rank, s[k - 1]) && k < |s| {
      LessTransitive(rank, s[k - 1], last);
    }
  }

  /** A rank that goes in front of the last pushes it on, and out if no more may be kept. */
  lemma PushedBefore(s: seq<Rank>, rank: Rank, k: nat, front: seq<Rank>, last: Rank)
    requires Ascending(s) && rank !in s && 0 < k <= |s| && front == s[..|s| - 1] && last == s[|s| - 1]
    requires Less(rank, last)
    ensures Ascending(front) && rank !in front && |Push(front, rank)| == |s|
    ensures Take(Push(s, rank), k) == Take(Push(front, rank), k)
  {
    PushInserts(front, rank);
    TakeOfMore(Push(front, rank), last, k);
  }

  /** Keeping the best k as they come is keeping the best k of all that came. */
  lemma {:induction false} BoundedPush(s: seq<Rank>, rank: Rank, k: nat)
    requires Ascending(s) && rank !in s && k > 0
    ensures |s| < k ==> Take(Push(s, rank), k) == Push(s, rank)
    ensures |s| >= k && Less(rank, s[k - 1]) ==> Take(Push(s, rank), k) == Push(s[..k - 1], rank)
    ensures |s| >= k && !Less(rank, s[k - 1]) ==> Take(Push(s, rank), k) == s[..k]
  {
    if |s| < k {
      PushInserts(s, rank);
    } else {
      var n := |s| - 1;
      var front, last := s[..n], s[n];
      if !Less(rank, last) {
        PushedLast(s, rank, k, last);
      } else {
        PushedBefore(s, rank, k, front, last);
        if n > k - 1 {
          BoundedPush(front, rank, k);
          assert front[..k] == s[..k] && front[..k - 1] == s[..k - 1] && front[k - 1] == s[k - 1];
        }
      }
    }
  }

  // ---------- The search ----------

  /** `best` holds the first `cap` of all the matches sorted, among the first `n` entries; `total` counts them all. */
  ghost predicate IsRanking(lower: Lowering, index: seq<IndexedPath>, query: string, n: nat, cap: nat,
                            best: seq<Rank>, total: nat, all: seq<Rank>)
    requires n <= |index|
  {
    && SortedForm(all, AllRanks(lower, index, query, n))
    && best == Take(all, cap) && total == |Matching(lower, index, query, n)| == |all|
  }

  lemma RanksOfNext(lower: Lowering, index: seq<IndexedPath>, query: string, n: nat)
    requires n < |index|
    ensures RankOf(lower, index, query, n) !in AllRanks(lower, index, query, n)
    ensures AllRanks(lower, index, query, n + 1) == AllRanks(lower, index, query, n) +
      if Matches(lower, index[n].relative, query) then {RankOf(lower, index, query, n)} else {}
    ensures |Matching(lower, index, query, n + 1)| == |Matching(lower, index, query, n)| +
      if Matches(lower, index[n].relative, query) then 1 else 0
  {
    assert Matching(lower, index, query, n + 1) == Matching(lower, index, query, n) +
      if Matches(lower, index[n].relative, query) then {n} else {};
  }

  /** What becomes of the kept ranks when one more matches. */
  method Keep(best: seq<Rank>, rank: Rank, cap: nat, ghost all: seq<Rank>) returns (kept: seq<Rank>)
    requires Ascending(all) && rank !in all && best == Take(all, cap)
    ensures kept == Take(Push(all, rank), cap)
  {
    kept := best;
    if cap == 0 {
      PushInserts(all, rank);
    } else {
      BoundedPush(all, rank, cap);
      if |best| < cap {
        kept := Push(best, rank);
      } else if Less(rank, best[|best| - 1]) {
        assert best[..cap - 1] == all[..cap - 1];
        kept := Push(best[..|best| - 1], rank);
      }
    }
  }

  lemma BestGrows(lower: Lowering, index: seq<IndexedPath>, query: string, n: nat, all: seq<Rank>, rank: Rank)
    requires n < |index| && Matches(lower, index[n].relative, query) && rank == RankOf(lower, index, query, n)
    requires SortedForm(all, AllRanks(lower, index, query, n)) && |all| == |Matching(lower, index, query, n)|
    ensures rank !in all && SortedForm(Push(all, rank), AllRanks(lower, index, query, n + 1))
    ensures |Push(all, rank)| == |all| + 1 == |Matching(lower, index, query, n + 1)|
  {
    RanksOfNext(lower, index, query, n);
    PushInserts(all, rank);
  }

  method RankedPathMatches(lower: Lowering, index: seq<IndexedPath>, query: string, cap: nat)
    returns (best: seq<Rank>, total: nat)
    ensures exists all :: IsRanking(lower, index, query, |index|, cap, best, total, all)
  {
    best, total := [], 0;
    ghost var all: seq<Rank> := [];
    for position := 0 to |index|
      invariant IsRanking(lower, index, query, position, cap, best, total, all)
    {
      var relative := index[position].relative;
      var nameMatch := HasMatch(lower, FileName(relative), query);
      var pathMatch := nameMatch;
      if nameMatch {
        NameMatchIsPathMatch(lower, relative, query);
      } else {
        pathMatch := HasMatch(lower, relative, query);
      }
      if !pathMatch {
        RanksOfNext(lower, index, query, position);
        continue;
      }
      total := total + 1;
      var rank := Rank(!nameMatch, |relative|, relative, position);
      BestGrows(lower, index, query, position, all, rank);
      best := Keep(best, rank, cap, all);
      all := Push(all, rank);
    }
  }

  /** `fuzzy_indices(..).is_some()` */
  method HasMatch(lower: Lowering, text: string, query: string) returns (found: bool)
    ensures found <==> Matches(lower, text, query)
  {
    var r := FuzzyIndices(lower, text, query);
    found := r.Some?;
  }

  datatype PathSearchItem =
    PathSearchItem(path: string, name: string, isDir: bool, nameIndices: seq<nat>, pathIndices: seq<nat>)

  datatype PathSearchResult = PathSearchResult(items: seq<PathSearchItem>, total: nat, truncated: bool)

  function OrEmpty(r: Option<seq<nat>>): seq<nat> {
    if r.Some? then r.value else []
  }

  /** The highlights of `text`: the least match, or none. */
  ghost predicate Highlights(lower: Lowering, text: string, query: string, indices: seq<nat>) {
    exists r :: FuzzyResult(lower, text, query, r) && indices == OrEmpty(r)
  }

  ghost predicate Shows(lower: Lowering, query: string, entry: IndexedPath, item: PathSearchItem) {
    && item.path == entry.relative
    && item.name == FileName(entry.relative)
    && item.isDir == entry.isDir
    && Highlights(lower, item.name, query, item.nameIndices)
    && Highlights(lower, item.path, query, item.pathIndices)
  }

  function DisplayLimit(limit: nat): nat {
    if limit <= MAX_PATH_SEARCH_RESULTS then limit else MAX_PATH_SEARCH_RESULTS
  }

  /** `items` show the first ranks of `all`, with the highlights of each entry. */
  ghost predicate ShowsFirst(lower: Lowering, index: seq<IndexedPath>, query: string, items: seq<PathSearchItem>, all: seq<Rank>) {
    && |items| <= |all|
    && forall k :: 0 <= k < |items| ==>
        all[k].position < |index| && Shows(lower, query, index[all[k].position], items[k])
  }

  /**
   * The simple form of the search, given everything that matches, sorted: show the first
   * min(limit, 200), count them all, and say whether something was cut.
   */
  ghost predicate SearchOf(lower: Lowering, index: seq<IndexedPath>, query: string, limit: nat,
                           result: PathSearchResult, all: seq<Rank>)
  {
    && SortedForm(all, AllRanks(lower, index, query, |index|))
    && ShowsFirst(lower, index, query, result.items, all)
    && |result.items| == |Take(all, DisplayLimit(limit))|
    && result.total == |Matching(lower, index, query, |index|)| == |all|
    && (result.truncated <==> |all| > DisplayLimit(limit))
  }

  ghost predicate IsSearchResult(lower: Lowering, index: seq<IndexedPath>, query: string, limit: nat,
                                 result: PathSearchResult)
  {
    exists all :: SearchOf(lower, index, query, limit, result, all)
  }

  method SearchIndex(lower: Lowering, index: seq<IndexedPath>, query: string, limit: nat)
    returns (result: PathSearchResult)
    ensures IsSearchResult(lower, index, query, limit, result)
  {
    var best, total := RankedPathMatches(lower, index, query, DisplayLimit(limit));
    ghost var all :| IsRanking(lower, index, query, |index|, DisplayLimit(limit), best, total, all);
    var items := [];
    for k := 0 to |best|
      invariant |items| == k && ShowsFirst(lower, index, query, items, all)
    {
      assert best[k] == all[k] && all[k] in all;
      var entry := index[best[k].position];
      var name := FileName(entry.relative);
      var inName := FuzzyIndices(lower, name, query);
      var inPath := FuzzyIndices(lower, entry.relative, query);
      items := items + [PathSearchItem(entry.relative, name, entry.isDir, OrEmpty(inName), OrEmpty(inPath))];
    }
    result := PathSearchResult(items, total, total > |items|);
    assert SearchOf(lower, index, query, limit, result, all);
  }

  lemma ShowsIsUnique(lower: Lowering, query: string, entry: IndexedPath, a: PathSearchItem, b: PathSearchItem)
    requires Shows(lower, query, entry, a) && Shows(lower, query, entry, b)
    ensures a == b
  {
    var n :| FuzzyResult(lower, a.name, query, n) && a.nameIndices == OrEmpty(n);
    var m :| FuzzyResult(lower, b.name, query, m) && b.nameIndices == OrEmpty(m);
    FuzzyResultIsUnique(lower, a.name, query, n, m);
    var p :| FuzzyResult(lower, a.path, query, p) && a.pathIndices == OrEmpty(p);
    var q :| FuzzyResult(lower, b.path, query, q) && b.pathIndices == OrEmpty(q);
    FuzzyResultIsUnique(lower, a.path, query, p, q);
  }

  lemma SmallerShowsFewer(lower: Lowering, index: seq<IndexedPath>, query: string, a: seq<PathSearchItem>,
                          b: seq<PathSearchItem>, all: seq<Rank>)
    requires ShowsFirst(lower, index, query, a, all) && ShowsFirst(lower, index, query, b, all) && |a| <= |b|
    ensures a <= b
  {
    forall k | 0 <= k < |a| ensures a[k] == b[k] {
      ShowsIsUnique(lower, query, index[all[k].position], a[k], b[k]);
    }
  }

  /** Raising the limit only ever adds items at the end; equal limits give equal results. */
  lemma SmallerLimitIsPrefix(lower: Lowering, index: seq<IndexedPath>, query: string,
                             small: nat, large: nat, a: PathSearchResult, b: PathSearchResult)
    requires small <= large
    requires IsSearchResult(lower, index, query, small, a) && IsSearchResult(lower, index, query, large, b)
    ensures a.items <= b.items && a.total == b.total
    ensures small == large ==> a == b
  {
    var all :| SearchOf(lower, index, query, small, a, all);
    var all' :| SearchOf(lower, index, query, large, b, all');
    SortedFormIsUnique(all, all', AllRanks(lower, index, query, |index|));
    SmallerShowsFewer(lower, index, query, a.items, b.items, all);
  }
}
