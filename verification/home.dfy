/** The Home page's topic list: the search filter, the sort orders and the
    keyboard shortcuts. Lower-casing is a parameter (locale machinery), and
    so is the collation behind the title orders, given as a sort key. */
module Home {
  import opened Wrappers
  import opened Strings
  import opened Seqs
  import opened Topics

  // ---------------------------------------------------------------------------
  // A stable sort by an integer rank

  /** `s` is in non-decreasing rank order. */
  predicate SortedBy(s: seq<Topic>, rank: Topic -> int) {
    forall i, j :: 0 <= i < j < |s| ==> rank(s[i]) <= rank(s[j])
  }

  /** `x` placed after the last element of `sorted` whose rank is at most its
      own. */
  function InsertByRank(sorted: seq<Topic>, x: Topic, rank: Topic -> int): (r: seq<Topic>)
    ensures |r| == |sorted| + 1
    ensures multiset(r) == multiset(sorted) + multiset{x}
    decreases |sorted|
  {
    if |sorted| == 0 then [x]
    else
      var init := sorted[..|sorted| - 1];
      var last := sorted[|sorted| - 1];
      assert sorted == init + [last];
      if rank(last) <= rank(x) then sorted + [x]
      else InsertByRank(init, x, rank) + [last]
  }

  /** Appending an element ranked at least as high as everything before it
      keeps a sorted list sorted. */
  lemma SortedSnoc(s: seq<Topic>, y: Topic, rank: Topic -> int)
    requires SortedBy(s, rank)
    requires forall i :: 0 <= i < |s| ==> rank(s[i]) <= rank(y)
    ensures SortedBy(s + [y], rank)
  {
    var t := s + [y];
    forall i, j | 0 <= i < j < |t|
      ensures rank(t[i]) <= rank(t[j])
    {
      if j < |s| {
        assert t[i] == s[i] && t[j] == s[j];
      } else {
        assert t[i] == s[i] && t[j] == y;
      }
    }
  }

  /** Insertion into a sorted list keeps it sorted. */
  lemma {:induction false} InsertKeepsSorted(sorted: seq<Topic>, x: Topic, rank: Topic -> int)
    requires SortedBy(sorted, rank)
    ensures SortedBy(InsertByRank(sorted, x, rank), rank)
    decreases |sorted|
  {
    if |sorted| > 0 {
      var init := sorted[..|sorted| - 1];
      var last := sorted[|sorted| - 1];
      if rank(last) <= rank(x) {
        SortedSnoc(sorted, x, rank);
      } else {
        assert SortedBy(init, rank);
        InsertKeepsSorted(init, x, rank);
        var r0 := InsertByRank(init, x, rank);
        forall i | 0 <= i < |r0|
          ensures rank(r0[i]) <= rank(last)
        {
          assert r0[i] in multiset(r0);
          assert r0[i] in multiset(init) || r0[i] == x;
          if r0[i] != x {
            var k :| 0 <= k < |init| && init[k] == r0[i];
            assert init[k] == sorted[k];
          }
        }
        SortedSnoc(r0, last, rank);
      }
    }
  }

  /** An element ranked at least as high as the last one goes at the end. */
  lemma InsertAtEnd(sorted: seq<Topic>, x: Topic, rank: Topic -> int)
    requires |sorted| > 0 ==> rank(sorted[|sorted| - 1]) <= rank(x)
    ensures InsertByRank(sorted, x, rank) == sorted + [x]
  {
  }

  /** Insertion sort by rank: stable, as `Array.prototype.sort` is. */
  function SortByRank(s: seq<Topic>, rank: Topic -> int): (r: seq<Topic>)
    ensures multiset(r) == multiset(s)
    ensures SortedBy(r, rank)
    decreases |s|
  {
    if |s| == 0 then []
    else
      var init := s[..|s| - 1];
      assert s == init + [s[|s| - 1]];
      var sortedInit := SortByRank(init, rank);
      InsertKeepsSorted(sortedInit, s[|s| - 1], rank);
      InsertByRank(sortedInit, s[|s| - 1], rank)
  }

  /** Under a rank that ties every pair, the sort keeps the order it was
      given. */
  lemma {:induction false} TiedRanksKeepOrder(s: seq<Topic>, rank: Topic -> int)
    requires forall i, j :: 0 <= i < |s| && 0 <= j < |s| ==> rank(s[i]) == rank(s[j])
    ensures SortByRank(s, rank) == s
    decreases |s|
  {
    if |s| > 0 {
      var init := s[..|s| - 1];
      var x := s[|s| - 1];
      assert forall i :: 0 <= i < |init| ==> init[i] == s[i];
      TiedRanksKeepOrder(init, rank);
      if |init| > 0 {
        assert rank(init[|init| - 1]) == rank(x);
      }
      InsertAtEnd(init, x, rank);
      assert init + [x] == s;
    }
  }

  /** The topics of rank `v`. */
  function RankIs(rank: Topic -> int, v: int): Topic -> bool {
    (t: Topic) => rank(t) == v
  }

  /** Insertion puts `x` after every element of its own rank. */
  lemma {:induction false} InsertKeepsTies(sorted: seq<Topic>, x: Topic, rank: Topic -> int, v: int)
    ensures Filter(InsertByRank(sorted, x, rank), RankIs(rank, v))
         == Filter(sorted, RankIs(rank, v)) + Filter([x], RankIs(rank, v))
    decreases |sorted|
  {
    var p := RankIs(rank, v);
    if |sorted| == 0 {
      assert InsertByRank(sorted, x, rank) == [x];
      assert Filter(sorted, p) == [];
      assert Filter(sorted, p) + Filter([x], p) == Filter([x], p);
    } else {
      var init := sorted[..|sorted| - 1];
      var last := sorted[|sorted| - 1];
      assert sorted == init + [last];
      if rank(last) <= rank(x) {
        InsertAtEnd(sorted, x, rank);
        FilterAppend(sorted, [x], p);
      } else {
        var r0 := InsertByRank(init, x, rank);
        assert InsertByRank(sorted, x, rank) == r0 + [last];
        InsertKeepsTies(init, x, rank, v);
        FilterAppend(r0, [last], p);
        FilterAppend(init, [last], p);
        var fi, fx, fl := Filter(init, p), Filter([x], p), Filter([last], p);
        assert Filter(r0 + [last], p) == fi + fx + fl;
        assert Filter(sorted, p) == fi + fl;
        if p(x) {
          assert !p(last) && fl == [];
          assert fi + fx + fl == fi + fx && fi + fl == fi;
        } else {
          assert fx == [];
          assert fi + fx + fl == fi + fl && (fi + fl) + fx == fi + fl;
        }
      }
    }
  }

  /** The sort is stable: the topics of any one rank come out in the order
      they went in. */
  lemma {:induction false} SortKeepsTies(s: seq<Topic>, rank: Topic -> int, v: int)
    ensures Filter(SortByRank(s, rank), RankIs(rank, v)) == Filter(s, RankIs(rank, v))
    decreases |s|
  {
    if |s| > 0 {
      var init := s[..|s| - 1];
      var x := s[|s| - 1];
      assert s == init + [x];
      SortKeepsTies(init, rank, v);
      InsertKeepsTies(SortByRank(init, rank), x, rank, v);
      FilterAppend(init, [x], RankIs(rank, v));
    }
  }

  // ---------------------------------------------------------------------------
  // Filter and sort

  /** The sort menu's options; any other value compares every pair equal. */
  datatype SortKey = DateDesc | DateAsc | TitleAsc | TitleDesc | NodesDesc | NodesAsc | Other(name: string)

  /** `new Date(t.createdAt)` as a number: a topic without a creation time
      gives NaN, which the sort reads as "equal". */
  function DateRank(t: Topic, descending: bool): int {
    if t.createdAt.None? then 0
    else if descending then -t.createdAt.value else t.createdAt.value
  }

  /** The comparator as a rank: `a` goes before `b` when its rank is smaller.
      `collate` orders titles as `localeCompare` does. */
  function Rank(key: SortKey, collate: string -> int): Topic -> int {
    (t: Topic) =>
      match key
      case DateDesc => DateRank(t, true)
      case DateAsc => DateRank(t, false)
      case TitleAsc => collate(t.title)
      case TitleDesc => -collate(t.title)
      case NodesDesc => -(t.nodeCount as int)
      case NodesAsc => t.nodeCount
      case Other(_) => 0
  }

  /** The title or description contains the query, both lower-cased. */
  function Matches(query: string, lower: string -> string): Topic -> bool {
    (t: Topic) => Contains(lower(t.title), lower(query)) || Contains(lower(t.description), lower(query))
  }

  /** The search filter: an empty query keeps every topic. */
  function FilterTopics(ts: seq<Topic>, query: string, lower: string -> string): (r: seq<Topic>)
    ensures |query| == 0 ==> r == ts
    ensures |query| > 0 ==> forall t :: t in r <==> t in ts && Matches(query, lower)(t)
    ensures SubsequenceOf(r, ts)
  {
    if |query| == 0 then
      SubsequenceOfSelf(ts);
      ts
    else Filter(ts, Matches(query, lower))
  }

  /** `filteredAndSortedTopics`: the matching topics, in the chosen order. */
  function ShownTopics(ts: seq<Topic>, query: string, key: SortKey,
                       collate: string -> int, lower: string -> string): (r: seq<Topic>)
    ensures multiset(r) == multiset(FilterTopics(ts, query, lower))
    ensures SortedBy(r, Rank(key, collate))
  {
    SortByRank(FilterTopics(ts, query, lower), Rank(key, collate))
  }

  /** Topics the chosen order ranks equal (the same node count, say) are shown
      in the order the filter left them. */
  lemma ShownKeepsTies(ts: seq<Topic>, query: string, key: SortKey,
                       collate: string -> int, lower: string -> string, v: int)
    ensures Filter(ShownTopics(ts, query, key, collate, lower), RankIs(Rank(key, collate), v))
         == Filter(FilterTopics(ts, query, lower), RankIs(Rank(key, collate), v))
  {
    SortKeepsTies(FilterTopics(ts, query, lower), Rank(key, collate), v);
  }

  /** With an empty query every topic is shown, each exactly as often as in
      the list. */
  lemma EmptyQueryShowsAll(ts: seq<Topic>, key: SortKey, collate: string -> int, lower: string -> string)
    ensures multiset(ShownTopics(ts, [], key, collate, lower)) == multiset(ts)
  {
  }

  /** With a query, a topic is shown exactly when it is in the list and its
      lower-cased title or description contains the lower-cased query. */
  lemma QueryShowsMatches(ts: seq<Topic>, query: string, key: SortKey,
                          collate: string -> int, lower: string -> string, t: Topic)
    requires |query| > 0
    ensures t in ShownTopics(ts, query, key, collate, lower) <==>
              t in ts && (Contains(lower(t.title), lower(query)) || Contains(lower(t.description), lower(query)))
  {
    var r := ShownTopics(ts, query, key, collate, lower);
    assert t in r <==> t in multiset(r);
  }

  /** Most nodes first: node counts never increase down the list; fewest
      first: they never decrease. */
  lemma NodeOrders(ts: seq<Topic>, query: string, collate: string -> int, lower: string -> string)
    ensures var r := ShownTopics(ts, query, NodesDesc, collate, lower);
            forall i, j :: 0 <= i < j < |r| ==> r[i].nodeCount >= r[j].nodeCount
    ensures var r := ShownTopics(ts, query, NodesAsc, collate, lower);
            forall i, j :: 0 <= i < j < |r| ==> r[i].nodeCount <= r[j].nodeCount
  {
    var d := ShownTopics(ts, query, NodesDesc, collate, lower);
    assert forall i, j :: 0 <= i < j < |d| ==> Rank(NodesDesc, collate)(d[i]) <= Rank(NodesDesc, collate)(d[j]);
    var a := ShownTopics(ts, query, NodesAsc, collate, lower);
    assert forall i, j :: 0 <= i < j < |a| ==> Rank(NodesAsc, collate)(a[i]) <= Rank(NodesAsc, collate)(a[j]);
  }

  /** A key outside the menu leaves the filtered list in its order. */
  lemma OtherKeyKeepsOrder(ts: seq<Topic>, query: string, name: string,
                           collate: string -> int, lower: string -> string)
    ensures ShownTopics(ts, query, Other(name), collate, lower) == FilterTopics(ts, query, lower)
  {
    TiedRanksKeepOrder(FilterTopics(ts, query, lower), Rank(Other(name), collate));
  }

  // ---------------------------------------------------------------------------
  // The date orders

  /** As written, the topics the page receives come from `transformTopic`, which
      drops the creation time, so either date order leaves the list as the
      service returned it. */
  lemma DateOrdersAsWritten(rows: seq<TopicRow>, key: SortKey, collate: string -> int, lower: string -> string)
    requires key == DateDesc || key == DateAsc
    ensures ShownTopics(QueryTopics(rows), [], key, collate, lower) == QueryTopics(rows)
  {
    var ts := QueryTopics(rows);
    forall i | 0 <= i < |ts|
      ensures Rank(key, collate)(ts[i]) == 0
    {
      assert ts[i].createdAt.None?;
      if key == DateDesc {
        assert Rank(key, collate)(ts[i]) == DateRank(ts[i], true);
      } else {
        assert Rank(key, collate)(ts[i]) == DateRank(ts[i], false);
      }
    }
    TiedRanksKeepOrder(ts, Rank(key, collate));
  }

  /** Two topics as the service returns them, newest first: choosing "oldest
      first" still shows the newer one first. */
  lemma DateAscCounterexample(collate: string -> int, lower: string -> string)
    ensures var older := TopicRow("a", "Old", "", "", "", None, None, None, 1);
            var newer := TopicRow("b", "New", "", "", "", None, None, None, 2);
            var shown := ShownTopics(QueryTopics([newer, older]), [], DateAsc, collate, lower);
            |shown| == 2 && shown[0].id == "b" && shown[1].id == "a"
  {
    var older := TopicRow("a", "Old", "", "", "", None, None, None, 1);
    var newer := TopicRow("b", "New", "", "", "", None, None, None, 2);
    DateOrdersAsWritten([newer, older], DateAsc, collate, lower);
  }

  /** Every topic shown from dated rows carries its creation time. */
  lemma ShownAreDated(rows: seq<TopicRow>, query: string, key: SortKey,
                      collate: string -> int, lower: string -> string)
    ensures forall t :: t in ShownTopics(Map(rows, TransformTopicDated), query, key, collate, lower) ==>
              t.createdAt.Some?
  {
    var ts := Map(rows, TransformTopicDated);
    var f := FilterTopics(ts, query, lower);
    var r := ShownTopics(ts, query, key, collate, lower);
    SubsequenceMembers(f, ts);
    forall t | t in r
      ensures t.createdAt.Some?
    {
      assert t in multiset(r);
      assert t in f;
      var i :| 0 <= i < |ts| && ts[i] == t;
    }
  }

  /** With the creation time copied, "oldest first" shows creation times in
      non-decreasing order. */
  lemma DateAscCorrected(rows: seq<TopicRow>, query: string, collate: string -> int, lower: string -> string)
    ensures var r := ShownTopics(Map(rows, TransformTopicDated), query, DateAsc, collate, lower);
            forall i, j :: 0 <= i < j < |r| ==>
              r[i].createdAt.Some? && r[j].createdAt.Some? && r[i].createdAt.value <= r[j].createdAt.value
  {
    ShownAreDated(rows, query, DateAsc, collate, lower);
    var r := ShownTopics(Map(rows, TransformTopicDated), query, DateAsc, collate, lower);
    forall i, j | 0 <= i < j < |r|
      ensures r[i].createdAt.Some? && r[j].createdAt.Some?
      ensures DateRank(r[i], false) <= DateRank(r[j], false)
    {
      assert r[i] in r && r[j] in r;
      assert Rank(DateAsc, collate)(r[i]) <= Rank(DateAsc, collate)(r[j]);
    }
  }

  /** With the creation time copied, "newest first" shows creation times in
      non-increasing order. */
  lemma DateDescCorrected(rows: seq<TopicRow>, query: string, collate: string -> int, lower: string -> string)
    ensures var r := ShownTopics(Map(rows, TransformTopicDated), query, DateDesc, collate, lower);
            forall i, j :: 0 <= i < j < |r| ==>
              r[i].createdAt.Some? && r[j].createdAt.Some? && r[i].createdAt.value >= r[j].createdAt.value
  {
    ShownAreDated(rows, query, DateDesc, collate, lower);
    var r := ShownTopics(Map(rows, TransformTopicDated), query, DateDesc, collate, lower);
    forall i, j | 0 <= i < j < |r|
      ensures r[i].createdAt.Some? && r[j].createdAt.Some?
      ensures DateRank(r[i], true) <= DateRank(r[j], true)
    {
      assert r[i] in r && r[j] in r;
      assert Rank(DateDesc, collate)(r[i]) <= Rank(DateDesc, collate)(r[j]);
    }
  }

  // ---------------------------------------------------------------------------
  // Keyboard shortcuts

  /** The page state the shortcuts read and write. */
  datatype HomeUi = HomeUi(newTopicOpen: bool, deleteOpen: bool, topicToDelete: Option<Topic>,
                           query: string, sortBy: SortKey)

  /** Ctrl+n: opens the new-topic form, except in visitor mode. */
  function HomeCtrlN(s: HomeUi, visitor: bool): (r: HomeUi)
    ensures r.newTopicOpen <==> s.newTopicOpen || !visitor
    ensures r == s.(newTopicOpen := r.newTopicOpen)
  {
    if !visitor then s.(newTopicOpen := true) else s
  }

  /** Escape: closes the new-topic form, closes the delete dialog (forgetting
      its topic) and clears the search; the sort order stays. */
  function HomeEscape(s: HomeUi): (r: HomeUi)
    ensures !r.newTopicOpen && !r.deleteOpen && r.query == []
    ensures s.deleteOpen ==> r.topicToDelete.None?
    ensures !s.deleteOpen ==> r.topicToDelete == s.topicToDelete
    ensures r.sortBy == s.sortBy
  {
    var a := if s.newTopicOpen then s.(newTopicOpen := false) else s;
    var b := if a.deleteOpen then a.(deleteOpen := false, topicToDelete := None) else a;
    if |b.query| > 0 then b.(query := []) else b
  }
}
