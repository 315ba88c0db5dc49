/**
 * What a search shows, told about the entries themselves (src-tauri/src/fs.rs, search_index):
 * which entries, in which order, under which names, and where their characters stand.
 */
module SearchOrder {
  import opened PathIndexCaches
  import opened PathSearch
  import opened Wrappers
  import Roots = AllowedRoots

  // ---------- The order of the results ----------

  /** At the first place where they differ, `a` has the smaller character. */
  ghost predicate FirstDiffersBelow(a: string, b: string) {
    exists d :: 0 <= d < |a| && d < |b| && a[..d] == b[..d] && a[d] < b[d]
  }

  /**
   * Entry `i` belongs before entry `j`: a match in the file name before one only in the path,
   * then the shorter path, then the one smaller in its first difference, then the earlier entry.
   */
  ghost predicate Before(lower: Lowering, index: seq<IndexedPath>, query: string, i: nat, j: nat)
    requires i < |index| && j < |index|
  {
    var a, b := index[i].relative, index[j].relative;
    var named, alsoNamed := Matches(lower, FileName(a), query), Matches(lower, FileName(b), query);
    || (named && !alsoNamed)
    || (named == alsoNamed &&
        (|a| < |b| || (|a| == |b| && (FirstDiffersBelow(a, b) || (a == b && i < j)))))
  }

  lemma {:induction false} LessDiffersFirst(a: string, b: string) returns (d: nat)
    requires |a| == |b| && StringLess(a, b)
    ensures d < |a| && a[..d] == b[..d] && a[d] < b[d]
  {
    if a[0] < b[0] {
      d := 0;
    } else {
      var rest := LessDiffersFirst(a[1..], b[1..]);
      d := rest + 1;
      assert a[..d] == [a[0]] + a[1..][..rest] && b[..d] == [b[0]] + b[1..][..rest];
    }
  }

  /** A rank among all ranks is that of the entry it names, which matches. */
  lemma RankNamesItsEntry(lower: Lowering, index: seq<IndexedPath>, query: string, rank: Rank)
    requires rank in AllRanks(lower, index, query, |index|)
    ensures rank.position < |index| && rank == RankOf(lower, index, query, rank.position)
    ensures Matches(lower, index[rank.position].relative, query)
  {
  }

  lemma LessMeansBefore(lower: Lowering, index: seq<IndexedPath>, query: string, i: nat, j: nat)
    requires i < |index| && j < |index|
    requires Less(RankOf(lower, index, query, i), RankOf(lower, index, query, j))
    ensures Before(lower, index, query, i, j)
  {
    var a, b := index[i].relative, index[j].relative;
    if |a| == |b| && StringLess(a, b) {
      var d := LessDiffersFirst(a, b);
      assert FirstDiffersBelow(a, b);
    }
  }

  /** The items stand for the entries `at`, in order, and every matching entry that is cut belongs behind them. */
  ghost predicate Stands(lower: Lowering, index: seq<IndexedPath>, query: string, limit: nat,
                         result: PathSearchResult, at: seq<nat>)
  {
    && |at| == |result.items| <= limit && |at| <= 200
    && (forall k :: 0 <= k < |at| ==>
        at[k] < |index| && Matches(lower, index[at[k]].relative, query) && Shows(lower, query, index[at[k]], result.items[k]))
    && (forall j, k :: 0 <= j < k < |at| ==> Before(lower, index, query, at[j], at[k]))
    && (forall m :: 0 <= m < |index| && Matches(lower, index[m].relative, query) && m !in at ==>
        (|at| == limit || |at| == 200) && forall k :: 0 <= k < |at| ==> Before(lower, index, query, at[k], m))
    && result.total == |set m | 0 <= m < |index| && Matches(lower, index[m].relative, query)|
    && (result.truncated <==> result.total > |result.items|)
  }

  function Positions(all: seq<Rank>, n: nat): seq<nat>
    requires n <= |all|
  {
    seq(n, k requires 0 <= k < n => all[k].position)
  }

  lemma PositionsHold(all: seq<Rank>, n: nat)
    requires n <= |all|
    ensures forall k :: 0 <= k < n ==> all[k].position in Positions(all, n)
  {
    assert forall k :: 0 <= k < n ==> Positions(all, n)[k] == all[k].position;
  }

  lemma ShownStand(lower: Lowering, index: seq<IndexedPath>, query: string, all: seq<Rank>, j: nat, k: nat)
    requires SortedForm(all, AllRanks(lower, index, query, |index|)) && j < k < |all|
    ensures all[j].position < |index| && all[k].position < |index|
    ensures Before(lower, index, query, all[j].position, all[k].position)
  {
    assert all[j] in all && all[k] in all;
    RankNamesItsEntry(lower, index, query, all[j]);
    RankNamesItsEntry(lower, index, query, all[k]);
    LessMeansBefore(lower, index, query, all[j].position, all[k].position);
  }

  lemma CutStandBehind(lower: Lowering, index: seq<IndexedPath>, query: string, all: seq<Rank>, n: nat, m: nat)
    requires SortedForm(all, AllRanks(lower, index, query, |index|)) && n <= |all|
    requires m < |index| && Matches(lower, index[m].relative, query) && m !in Positions(all, n)
    ensures n < |all|
    ensures forall k :: 0 <= k < n ==> all[k].position < |index| && Before(lower, index, query, all[k].position, m)
  {
    var rank := RankOf(lower, index, query, m);
    assert rank in AllRanks(lower, index, query, |index|);
    var i :| 0 <= i < |all| && all[i] == rank;
    PositionsHold(all, n);
    forall k | 0 <= k < n ensures all[k].position < |index| && Before(lower, index, query, all[k].position, m) {
      ShownStand(lower, index, query, all, k, i);
    }
  }

  lemma SearchStands(lower: Lowering, index: seq<IndexedPath>, query: string, limit: nat,
                     result: PathSearchResult, all: seq<Rank>, at: seq<nat>)
    requires SearchOf(lower, index, query, limit, result, all)
    requires |result.items| <= |all| && at == Positions(all, |result.items|)
    ensures Stands(lower, index, query, limit, result, at)
  {
    var n := |at|;
    forall k | 0 <= k < n ensures at[k] < |index| && Matches(lower, index[at[k]].relative, query) {
      assert all[k] in all;
      RankNamesItsEntry(lower, index, query, all[k]);
    }
    forall j, k | 0 <= j < k < n ensures Before(lower, index, query, at[j], at[k]) {
      ShownStand(lower, index, query, all, j, k);
    }
    forall m | 0 <= m < |index| && Matches(lower, index[m].relative, query) && m !in at
      ensures (n == limit || n == 200) && forall k :: 0 <= k < n ==> Before(lower, index, query, at[k], m)
    {
      CutStandBehind(lower, index, query, all, n, m);
    }
    assert Matching(lower, index, query, |index|) == set m | 0 <= m < |index| && Matches(lower, index[m].relative, query);
  }

  /** The whole promise of a search, about the entries of the index. */
  lemma ResultsStandInOrder(lower: Lowering, index: seq<IndexedPath>, query: string, limit: nat, result: PathSearchResult)
    requires IsSearchResult(lower, index, query, limit, result)
    ensures exists at :: Stands(lower, index, query, limit, result, at)
  {
    var all :| SearchOf(lower, index, query, limit, result, all);
    SearchStands(lower, index, query, limit, result, all, Positions(all, |result.items|));
  }

  lemma BeforeOrdersItems(lower: Lowering, index: seq<IndexedPath>, query: string, i: nat, j: nat,
                          a: PathSearchItem, b: PathSearchItem)
    requires i < |index| && j < |index| && Before(lower, index, query, i, j)
    requires Shows(lower, query, index[i], a) && Shows(lower, query, index[j], b)
    ensures ItemBefore(lower, query, a, b)
  {
  }

  ghost predicate ItemBefore(lower: Lowering, query: string, a: PathSearchItem, b: PathSearchItem) {
    && (Matches(lower, b.name, query) ==> Matches(lower, a.name, query))
    && ((Matches(lower, a.name, query) <==> Matches(lower, b.name, query)) ==>
        && |a.path| <= |b.path|
        && (|a.path| == |b.path| && a.path != b.path ==> FirstDiffersBelow(a.path, b.path)))
  }

  /**
   * Of two items, the later one matches in its file name only if the earlier one does; among
   * those that agree in this, paths grow no shorter, and at equal length the first difference decides.
   */
  lemma ItemsStandInOrder(lower: Lowering, index: seq<IndexedPath>, query: string, limit: nat,
                          result: PathSearchResult, j: nat, k: nat)
    requires IsSearchResult(lower, index, query, limit, result) && j < k < |result.items|
    ensures ItemBefore(lower, query, result.items[j], result.items[k])
  {
    ResultsStandInOrder(lower, index, query, limit, result);
    var at :| Stands(lower, index, query, limit, result, at);
    BeforeOrdersItems(lower, index, query, at[j], at[k], result.items[j], result.items[k]);
  }

  // ---------- The name of an entry ----------

  /** The name of the last component of a path, as `components` sees it. */
  function LastName(s: string): string {
    var comps := Roots.Components(Roots.SplitSlash(s));
    if comps != [] && comps[|comps| - 1].Normal? then comps[|comps| - 1].name else ""
  }

  lemma LastOfComponents(front: seq<string>, segment: string, comps: seq<Roots.Component>)
    requires comps == Roots.Components(front + [segment])
    ensures segment == "" || segment == "." ==> comps == Roots.Components(front)
    ensures segment != "" && segment != "." ==>
      comps == Roots.Components(front) + [if segment == ".." then Roots.ParentDir else Roots.Normal(segment)]
  {
    Roots.ComponentsJoin(front, [segment]);
    assert Roots.Components([]) == [];
    assert [segment][1..] == [];
  }

  /** The file name is the name of the last component, if it has one. */
  lemma {:induction false} FileNameIsLastName(s: string)
    ensures FileName(s) == LastName(s)
    decreases |s|
  {
    var start := LastSegmentStart(s);
    var segment := s[start..];
    assert '/' !in segment;
    Roots.NoSlashIsOneSegment(segment);
    if start == 0 {
      assert s == segment && [] + [segment] == [segment];
      LastOfComponents([], segment, Roots.Components([segment]));
    } else {
      var front := s[..start - 1];
      assert s == front + "/" + segment;
      Roots.SplitJoins(front, segment);
      LastOfComponents(Roots.SplitSlash(front), segment, Roots.Components(Roots.SplitSlash(s)));
      FileNameIsLastName(front);
    }
  }

  // ---------- UTF-16 ----------

  /** A character as UTF-16 writes it (RFC 2781, section 2.1): one unit, or a surrogate pair. */
  function Units(c: char): (u: seq<nat>) {
    var x := c as int;
    if x < 0x1_0000 then [x]
    else [0xD800 + (x - 0x1_0000) / 0x400, 0xDC00 + (x - 0x1_0000) % 0x400]
  }

  function Utf16(text: string): seq<nat> {
    if text == "" then [] else Utf16(text[..|text| - 1]) + Units(text[|text| - 1])
  }

  /** The units of different characters differ, so these are the units it takes. */
  lemma UnitsTell(c: char, d: char)
    requires Units(c) == Units(d)
    ensures c == d
  {
    var x, y := c as int, d as int;
    if x >= 0x1_0000 {
      assert y >= 0x1_0000;
      assert x - 0x1_0000 == (Units(c)[0] - 0xD800) * 0x400 + (Units(c)[1] - 0xDC00);
      assert y - 0x1_0000 == (Units(d)[0] - 0xD800) * 0x400 + (Units(d)[1] - 0xDC00);
    }
  }

  /** An offset counts the units of the text before it. */
  lemma {:induction false} OffsetCountsUnits(text: string)
    ensures Utf16Offset(text) == |Utf16(text)|
  {
    if text != "" {
      OffsetCountsUnits(text[..|text| - 1]);
    }
  }

  /** A query is lowered character by character. */
  lemma {:induction false} LoweredJoins(lower: Lowering, a: string, b: string)
    ensures Lowered(lower, a + b) == Lowered(lower, a) + Lowered(lower, b)
    ensures |a| == 1 ==> Lowered(lower, a) == lower(a[0])
  {
    if a == "" {
      assert a + b == b;
    } else {
      assert (a + b)[1..] == a[1..] + b;
      LoweredJoins(lower, a[1..], b);
    }
  }

  // ---------- The highlights ----------

  /** `indices` are the offsets, in UTF-16, of the earliest characters of `text` that spell the query; none if none do. */
  ghost predicate HighlightsEarliest(lower: Lowering, text: string, query: string, indices: seq<nat>) {
    if Matches(lower, text, query) then
      exists at :: Least(lower, text, Lowered(lower, query), at) && AreOffsets(text, at, indices)
    else indices == []
  }

  ghost predicate AreOffsets(text: string, at: seq<nat>, indices: seq<nat>) {
    && |at| == |indices|
    && forall k :: 0 <= k < |at| ==> at[k] < |text| && indices[k] == |Utf16(text[..at[k]])|
  }

  lemma HighlightsAreEarliest(lower: Lowering, text: string, query: string, indices: seq<nat>)
    requires Highlights(lower, text, query, indices)
    ensures HighlightsEarliest(lower, text, query, indices)
  {
    var r :| FuzzyResult(lower, text, query, r) && indices == OrEmpty(r);
    match r
    case None =>
    case Some(positions) =>
      var at :| Lowered(lower, query) != "" && Least(lower, text, Lowered(lower, query), at) && positions == Offsets(text, at);
      assert Embeds(lower, text, Lowered(lower, query), at);
      forall k | 0 <= k < |at| ensures positions[k] == |Utf16(text[..at[k]])| {
        OffsetCountsUnits(text[..at[k]]);
      }
      assert AreOffsets(text, at, indices);
  }

  /** The item is this entry, under the name of its last component. */
  ghost predicate IsEntry(entry: IndexedPath, item: PathSearchItem) {
    item.path == entry.relative && item.isDir == entry.isDir && item.name == LastName(entry.relative)
  }

  /** Every item is an entry, highlighted where the query is spelled earliest, in its name and in its path. */
  lemma ItemsAreHighlighted(lower: Lowering, index: seq<IndexedPath>, query: string, limit: nat,
                            result: PathSearchResult, k: nat)
    requires IsSearchResult(lower, index, query, limit, result) && k < |result.items|
    ensures exists m :: 0 <= m < |index| && IsEntry(index[m], result.items[k])
    ensures HighlightsEarliest(lower, result.items[k].name, query, result.items[k].nameIndices)
    ensures Matches(lower, result.items[k].path, query)
    ensures HighlightsEarliest(lower, result.items[k].path, query, result.items[k].pathIndices)
  {
    ResultsStandInOrder(lower, index, query, limit, result);
    var at :| Stands(lower, index, query, limit, result, at);
    var item := result.items[k];
    ShownItemMatches(lower, query, index[at[k]], item);
    assert IsEntry(index[at[k]], item);
    HighlightsAreEarliest(lower, item.name, query, item.nameIndices);
    HighlightsAreEarliest(lower, item.path, query, item.pathIndices);
  }

  lemma ShownItemMatches(lower: Lowering, query: string, entry: IndexedPath, item: PathSearchItem)
    requires Shows(lower, query, entry, item) && Matches(lower, entry.relative, query)
    ensures Matches(lower, item.path, query) && IsEntry(entry, item)
    ensures Highlights(lower, item.name, query, item.nameIndices) && Highlights(lower, item.path, query, item.pathIndices)
  {
    FileNameIsLastName(entry.relative);
  }
}
