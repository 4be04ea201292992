/** The Explore service and its infinite-scroll hooks. Pages are requested by
    index, each with one row more than a page holds, so the caller learns
    whether another page follows. The backend's table is modelled as the
    full ordered sequence of matching rows; a range request returns its
    slice. */
module Explore {
  import opened Wrappers
  import opened Strings
  import opened Seqs
  import opened Records
  import Topics

  const PageSize: nat := 12

  function Min(a: int, b: int): int {
    if a <= b then a else b
  }

  // ---------------------------------------------------------------------------
  // Requests

  /** `range(from, to)` for page `p`: both ends inclusive. */
  function PageRange(page: nat): (r: (nat, nat))
    ensures r.0 == page * PageSize
    ensures r.1 - r.0 + 1 == PageSize + 1
  {
    (page * PageSize, page * PageSize + PageSize)
  }

  /** The rows an inclusive range request returns from the ordered table. */
  function RangeRows<R>(all: seq<R>, page: nat): (rows: seq<R>)
    ensures |rows| == Min(page * PageSize + PageSize + 1, |all|) - Min(page * PageSize, |all|)
    ensures forall i :: 0 <= i < |rows| ==> rows[i] == all[page * PageSize + i]
  {
    var (lo, hi) := PageRange(page);
    all[Min(lo, |all|)..Min(hi + 1, |all|)]
  }

  /** The sort option of the Explore page, as the column and direction it
      orders by. */
  datatype Order = Order(column: string, ascending: bool)

  /** `getPublicTopics`' sort mapping: oldest, title and nodes, and newest
      first for anything else. */
  function PublicOrder(sortBy: string): (o: Order)
    ensures sortBy == "oldest" ==> o == Order("created_at", true)
    ensures sortBy == "title" ==> o == Order("title", true)
    ensures sortBy == "nodes" ==> o == Order("node_count", false)
    ensures sortBy !in {"oldest", "title", "nodes"} ==> o == Order("created_at", false)
  {
    if sortBy == "oldest" then Order("created_at", true)
    else if sortBy == "title" then Order("title", true)
    else if sortBy == "nodes" then Order("node_count", false)
    else Order("created_at", false)
  }

  /** `getUserPublicTopics`' sort mapping, which has no node-count order. */
  function UserOrder(sortBy: string): (o: Order)
    ensures sortBy == "oldest" ==> o == Order("created_at", true)
    ensures sortBy == "title" ==> o == Order("title", true)
    ensures sortBy !in {"oldest", "title"} ==> o == Order("created_at", false)
  {
    if sortBy == "oldest" then Order("created_at", true)
    else if sortBy == "title" then Order("title", true)
    else Order("created_at", false)
  }

  /** The two mappings agree on every option except "nodes", which a user's
      page orders newest first. */
  lemma OrdersDifferOnlyOnNodes(sortBy: string)
    ensures sortBy != "nodes" ==> PublicOrder(sortBy) == UserOrder(sortBy)
    ensures UserOrder("nodes") == Order("created_at", false) != PublicOrder("nodes")
  {
  }

  /** The clause matching titles that contain the term. */
  function TitleClause(search: string): string {
    "title.ilike.%" + search + "%"
  }

  /** The clause matching descriptions that contain the term. */
  function DescriptionClause(search: string): string {
    "description.ilike.%" + search + "%"
  }

  /** The search condition: none for an empty term, otherwise title or
      description containing it. */
  function SearchFilter(search: string): (f: Option<string>)
    ensures f.None? <==> |search| == 0
  {
    if |search| == 0 then None
    else Some(TitleClause(search) + "," + DescriptionClause(search))
  }

  /** For a term without a comma, the search filter splits at its first comma
      into the title clause and the description clause, and each clause names
      the term between `%` wildcards. */
  lemma SearchFilterSplits(search: string)
    requires |search| > 0 && ',' !in search
    ensures SearchFilter(search).Some?
    ensures Before(SearchFilter(search).value, ',') == TitleClause(search)
    ensures After(SearchFilter(search).value, ',') == DescriptionClause(search)
    ensures OccursAt(TitleClause(search), search, |"title.ilike.%"|)
    ensures OccursAt(DescriptionClause(search), search, |"description.ilike.%"|)
  {
    var a := TitleClause(search);
    var b := DescriptionClause(search);
    assert ',' !in "title.ilike.%" && ',' !in "%";
    assert forall c :: c in a ==> c in "title.ilike.%" || c in search || c in "%";
    assert SearchFilter(search).value == a + [','] + b;
    SplitJoinRoundTrip(a, ',', b);
  }

  // ---------------------------------------------------------------------------
  // Answers

  /** A public topic row, with the owner columns of the joined view. */
  datatype PublicRow = PublicRow(id: string, title: string, description: string,
                                 iconBgColor: string, iconColor: string, createdAt: int,
                                 nodeCount: Option<nat>, userId: Option<string>,
                                 ownerDisplayName: Option<string>, ownerAvatarUrl: Option<string>)

  datatype Owner = Owner(ownerId: Option<string>, displayName: string, avatarUrl: Option<string>)

  /** A topic as the Explore pages show it; the user-page fallback gives no
      owner. */
  datatype PublicTopic = PublicTopic(id: string, title: string, description: string,
                                     iconBgColor: string, iconColor: string, createdAt: int,
                                     nodeCount: nat, owner: Option<Owner>)

  /** `transformPublicTopic`: node count 0, owner name 'Anonymous' and avatar
      `null` when missing or empty. */
  function TransformPublicTopic(r: PublicRow): (t: PublicTopic)
    ensures t.id == r.id && t.createdAt == r.createdAt && t.nodeCount == r.nodeCount.GetOr(0)
    ensures t.owner.Some? && t.owner.value.ownerId == r.userId
    ensures t.owner.value.displayName == OrElse(r.ownerDisplayName, "Anonymous")
    ensures t.owner.value.avatarUrl == OrNull(r.ownerAvatarUrl)
  {
    PublicTopic(r.id, r.title, r.description, r.iconBgColor, r.iconColor, r.createdAt,
                r.nodeCount.GetOr(0),
                Some(Owner(r.userId, OrElse(r.ownerDisplayName, "Anonymous"), OrNull(r.ownerAvatarUrl))))
  }

  /** `{ topics, hasMore }`. */
  datatype PageResult<T> = PageResult(topics: seq<T>, hasMore: bool)

  /** A page from a range answer: at most a page of rows, transformed, and
      whether the extra row came back. */
  function PageOf<R, T>(data: Option<seq<R>>, f: R -> T): (p: PageResult<T>)
    ensures |p.topics| == Min(|data.GetOr([])|, PageSize)
    ensures forall i :: 0 <= i < |p.topics| ==> p.topics[i] == f(data.value[i])
    ensures p.hasMore <==> |data.GetOr([])| > PageSize
  {
    var rows := data.GetOr([]);
    PageResult(Map(rows[..Min(|rows|, PageSize)], f), |rows| > PageSize)
  }

  /** What a page request comes to: a page, the fallback query, or the error
      thrown. */
  datatype Dispatch<T> = Done(page: PageResult<T>) | Fallback | Thrown(error: BackendError)

  const ViewMissing: string := "42P01"

  /** `getPublicTopics` and `getUserPublicTopics` after the view query: only a
      missing view switches to the fallback query; any other error is
      thrown. */
  function ViewAnswer(r: Response<seq<PublicRow>>): (d: Dispatch<PublicTopic>)
    ensures d.Fallback? <==> r.error.Some? && r.error.value.code == ViewMissing
    ensures d.Thrown? <==> r.error.Some? && r.error.value.code != ViewMissing
    ensures d.Thrown? ==> d.error == r.error.value
    ensures d.Done? ==> d.page == PageOf(r.data, TransformPublicTopic)
  {
    if r.error.Some? && r.error.value.code == ViewMissing then Fallback
    else if r.error.Some? then Thrown(r.error.value)
    else Done(PageOf(r.data, TransformPublicTopic))
  }

  // ---------------------------------------------------------------------------
  // The fallback query

  /** A row of `user_profiles` as the fallback reads it. */
  datatype ProfileRow = ProfileRow(id: string, displayName: Option<string>, avatarUrl: Option<string>)

  /** `[...new Set(rows.map(t => t.user_id).filter(Boolean))]`: the truthy
      owner ids, each once, in order of first appearance. */
  function OwnerIds(rows: seq<PublicRow>): (ids: seq<string>)
    ensures forall id :: id in ids <==> exists r :: r in rows && r.userId == Some(id) && Truthy(id)
    ensures forall i, j :: 0 <= i < j < |ids| ==> ids[i] != ids[j]
    decreases |rows|
  {
    if |rows| == 0 then []
    else
      var last := rows[|rows| - 1];
      var init := rows[..|rows| - 1];
      var rest := OwnerIds(init);
      assert forall r :: r in rows <==> r in init || r == last;
      if PresentAndTruthy(last.userId) && last.userId.value !in rest then rest + [last.userId.value]
      else rest
  }

  /** The profiles keyed by id; a later row for the same id wins. */
  function ProfilesById(profiles: seq<ProfileRow>): (m: map<string, ProfileRow>)
    ensures forall id :: id in m <==> exists p :: p in profiles && p.id == id
    ensures forall id :: id in m ==> m[id] in profiles && m[id].id == id
    decreases |profiles|
  {
    if |profiles| == 0 then map[]
    else
      var last := profiles[|profiles| - 1];
      var init := profiles[..|profiles| - 1];
      assert forall p :: p in profiles <==> p in init || p == last;
      ProfilesById(init)[last.id := last]
  }

  /** The profile kept for an id is the last one in the answer with that id. */
  lemma {:induction false} ProfilesByIdLastWins(profiles: seq<ProfileRow>, k: nat)
    requires k < |profiles|
    requires forall j :: k < j < |profiles| ==> profiles[j].id != profiles[k].id
    ensures ProfilesById(profiles)[profiles[k].id] == profiles[k]
    decreases |profiles|
  {
    var init := profiles[..|profiles| - 1];
    if k < |profiles| - 1 {
      ProfilesByIdLastWins(init, k);
    }
  }

  /** The profile map the fallback builds: empty when no row has an owner, so
      that no profile query is made. */
  function FallbackProfiles(rows: seq<PublicRow>, profiles: Option<seq<ProfileRow>>): map<string, ProfileRow> {
    if |OwnerIds(rows)| > 0 then ProfilesById(profiles.GetOr([])) else map[]
  }

  /** A fallback row with its owner looked up: name 'Anonymous' and avatar
      `null` without a profile or when the profile leaves them empty. */
  function FallbackTopic(profiles: map<string, ProfileRow>, r: PublicRow): (t: PublicTopic)
    ensures t.id == r.id && t.nodeCount == r.nodeCount.GetOr(0)
    ensures t.owner.Some? && t.owner.value.ownerId == r.userId
    ensures (r.userId.None? || r.userId.value !in profiles) ==>
              t.owner.value.displayName == "Anonymous" && t.owner.value.avatarUrl.None?
    ensures r.userId.Some? && r.userId.value in profiles ==>
              t.owner.value.displayName == OrElse(profiles[r.userId.value].displayName, "Anonymous")
              && t.owner.value.avatarUrl == OrNull(profiles[r.userId.value].avatarUrl)
  {
    var profile := if r.userId.Some? && r.userId.value in profiles
                   then profiles[r.userId.value] else ProfileRow("", None, None);
    PublicTopic(r.id, r.title, r.description, r.iconBgColor, r.iconColor, r.createdAt,
                r.nodeCount.GetOr(0),
                Some(Owner(r.userId, OrElse(profile.displayName, "Anonymous"), OrNull(profile.avatarUrl))))
  }

  /** The fallback shows a row as the view would have shown it with the
      owner's profile columns joined in, and with empty owner columns when
      the owner has no profile. */
  lemma FallbackMatchesView(profiles: map<string, ProfileRow>, r: PublicRow)
    ensures r.userId.Some? && r.userId.value in profiles ==>
              var p := profiles[r.userId.value];
              FallbackTopic(profiles, r)
              == TransformPublicTopic(r.(ownerDisplayName := p.displayName, ownerAvatarUrl := p.avatarUrl))
    ensures (r.userId.None? || r.userId.value !in profiles) ==>
              FallbackTopic(profiles, r)
              == TransformPublicTopic(r.(ownerDisplayName := None, ownerAvatarUrl := None))
  {
  }

  /** `_getPublicTopicsFallback` after the topic query: an error is thrown;
      otherwise the page with owners from the profile answer, whose own error
      is ignored (no profiles). `profileQuery` is `None` when no profile query
      was made, which happens exactly when no row has an owner. */
  function FallbackAnswer(r: Response<seq<PublicRow>>, profiles: Option<seq<ProfileRow>>)
    : (d: (Result<PageResult<PublicTopic>, BackendError>, Option<seq<string>>))
    ensures r.error.Some? ==> d.0 == Err(r.error.value) && d.1.None?
    ensures r.error.None? ==> (d.1.Some? <==> |OwnerIds(r.data.GetOr([]))| > 0)
    ensures r.error.None? ==> d.0.Ok? && d.0.value.hasMore == (|r.data.GetOr([])| > PageSize)
    ensures r.error.None? ==> |d.0.value.topics| == Min(|r.data.GetOr([])|, PageSize)
    ensures r.error.None? ==> forall i :: 0 <= i < |d.0.value.topics| ==>
              d.0.value.topics[i].id == r.data.value[i].id
              && d.0.value.topics[i].owner.Some?
              && d.0.value.topics[i].owner.value.ownerId == r.data.value[i].userId
    ensures r.error.None? ==> forall i :: 0 <= i < |d.0.value.topics| ==>
              d.0.value.topics[i] == FallbackTopic(FallbackProfiles(r.data.value, profiles), r.data.value[i])
  {
    if r.error.Some? then (Err(r.error.value), None)
    else
      var rows := r.data.GetOr([]);
      var ids := OwnerIds(rows);
      var byId := FallbackProfiles(rows, profiles);
      (Ok(PageOf(r.data, (row: PublicRow) => FallbackTopic(byId, row))), if |ids| > 0 then Some(ids) else None)
  }

  /** A fallback topic whose owner is named in the profile answer shows the
      name (or 'Anonymous' when it is empty) and avatar of the last profile
      the answer holds for that owner; an owner with no profile is shown as
      'Anonymous' without an avatar. */
  lemma FallbackOwnerFromProfile(r: Response<seq<PublicRow>>, profiles: seq<ProfileRow>, i: nat)
    requires r.error.None? && r.data.Some? && i < Min(|r.data.value|, PageSize)
    ensures var row := r.data.value[i];
            var o := FallbackAnswer(r, Some(profiles)).0.value.topics[i].owner.value;
            forall k :: 0 <= k < |profiles| && row.userId == Some(profiles[k].id) && Truthy(profiles[k].id)
                        && (forall j :: k < j < |profiles| ==> profiles[j].id != profiles[k].id) ==>
              o.displayName == OrElse(profiles[k].displayName, "Anonymous")
              && o.avatarUrl == OrNull(profiles[k].avatarUrl)
    ensures var row := r.data.value[i];
            var o := FallbackAnswer(r, Some(profiles)).0.value.topics[i].owner.value;
            (forall q :: q in profiles ==> row.userId != Some(q.id)) ==>
              o.displayName == "Anonymous" && o.avatarUrl.None?
  {
    var rows := r.data.value;
    var row := rows[i];
    forall k | 0 <= k < |profiles| && row.userId == Some(profiles[k].id) && Truthy(profiles[k].id)
               && (forall j :: k < j < |profiles| ==> profiles[j].id != profiles[k].id)
      ensures FallbackAnswer(r, Some(profiles)).0.value.topics[i].owner.value.displayName
              == OrElse(profiles[k].displayName, "Anonymous")
      ensures FallbackAnswer(r, Some(profiles)).0.value.topics[i].owner.value.avatarUrl
              == OrNull(profiles[k].avatarUrl)
    {
      assert row in rows;
      assert profiles[k].id in OwnerIds(rows);
      ProfilesByIdLastWins(profiles, k);
    }
  }

  /** `_getUserPublicTopicsFallback`'s rows carry no owner. */
  function UserFallbackTopic(r: PublicRow): (t: PublicTopic)
    ensures t.owner.None? && t.id == r.id && t.nodeCount == r.nodeCount.GetOr(0)
  {
    PublicTopic(r.id, r.title, r.description, r.iconBgColor, r.iconColor, r.createdAt,
                r.nodeCount.GetOr(0), None)
  }

  // ---------------------------------------------------------------------------
  // getPublicUserProfile

  datatype PublicProfile = PublicProfile(userId: string, displayName: string, avatarUrl: Option<string>)

  /** `getPublicUserProfile`: `null` when there is no profile, any other error
      thrown, and 'Anonymous' for an empty name. */
  function PublicUserProfile(answer: Result<ProfileRow, BackendError>): (r: Result<Option<PublicProfile>, BackendError>)
    ensures answer.Err? && answer.error.code == "PGRST116" ==> r == Ok(None)
    ensures answer.Err? && answer.error.code != "PGRST116" ==> r == Err(answer.error)
    ensures answer.Ok? ==> r.Ok? && r.value.Some? && r.value.value.userId == answer.value.id
    ensures answer.Ok? ==> r.value.value.displayName == OrElse(answer.value.displayName, "Anonymous")
    ensures answer.Ok? ==> r.value.value.avatarUrl == answer.value.avatarUrl
  {
    match answer
    case Err(e) => if e.code == "PGRST116" then Ok(None) else Err(e)
    case Ok(p) => Ok(Some(PublicProfile(p.id, OrElse(p.displayName, "Anonymous"), p.avatarUrl)))
  }

  // ---------------------------------------------------------------------------
  // The infinite-scroll hooks

  /** `getNextPageParam`: the number of pages so far when the last page says
      more follow. */
  function NextPageParam<T>(lastPage: PageResult<T>, pagesSoFar: nat): (r: Option<nat>)
    ensures r.Some? <==> lastPage.hasMore
    ensures r.Some? ==> r.value == pagesSoFar
  {
    if lastPage.hasMore then Some(pagesSoFar) else None
  }

  /** `pages.flatMap(page => page.topics)`. */
  function Flatten<T>(pages: seq<PageResult<T>>): (r: seq<T>)
    decreases |pages|
  {
    if |pages| == 0 then [] else Flatten(pages[..|pages| - 1]) + pages[|pages| - 1].topics
  }

  /** The hook's `topics`: every page's topics in order, `[]` before the first
      page. */
  function HookTopics<T>(pages: Option<seq<PageResult<T>>>): (r: seq<T>)
    ensures pages.None? ==> r == []
    ensures pages.Some? ==> r == Flatten(pages.value)
  {
    if pages.None? then [] else Flatten(pages.value)
  }

  /** `hasNextPage ?? false`. */
  function HasNextPage(h: Option<bool>): (r: bool)
    ensures r <==> h == Some(true)
  {
    h.GetOr(false)
  }

  /** `useUserPublicTopics` queries only for a non-empty user id. */
  function UserQueryEnabled(userId: Option<string>): (r: bool)
    ensures r <==> userId.Some? && |userId.value| > 0
  {
    PresentAndTruthy(userId)
  }

  /** The hooks' `error`. */
  function HookError(error: Option<BackendError>): (r: Option<string>)
    ensures error.None? ==> r.None?
    ensures r.Some? ==> Truthy(r.value) && r.value == error.value.message
    ensures error.Some? && Truthy(error.value.message) ==> r == Some(error.value.message)
  {
    Topics.QueryError(error)
  }

  /** A page is full and more follow exactly when the table holds rows past
      that page. */
  lemma PageOfRange<R, T>(all: seq<R>, page: nat, f: R -> T)
    ensures var p := PageOf(Some(RangeRows(all, page)), f);
            (p.hasMore <==> |all| > page * PageSize + PageSize)
            && p.topics == Map(all[Min(page * PageSize, |all|)..Min(page * PageSize + PageSize, |all|)], f)
  {
    var rows := RangeRows(all, page);
    var p := PageOf(Some(rows), f);
    var lo := Min(page * PageSize, |all|);
    var hi := Min(page * PageSize + PageSize, |all|);
    assert |p.topics| == hi - lo;
    forall i | 0 <= i < |p.topics|
      ensures p.topics[i] == f(all[lo + i])
    {
      assert rows[i] == all[page * PageSize + i];
    }
  }

  /** Map over consecutive slices composes. */
  lemma MapSlices<R, T>(all: seq<R>, a: nat, b: nat, f: R -> T)
    requires a <= b <= |all|
    ensures Map(all[..a], f) + Map(all[a..b], f) == Map(all[..b], f)
  {
    var l := Map(all[..a], f) + Map(all[a..b], f);
    assert |l| == b;
    forall i | 0 <= i < b
      ensures l[i] == Map(all[..b], f)[i]
    {
      if i < a {
        assert l[i] == Map(all[..a], f)[i];
      } else {
        assert l[i] == Map(all[a..b], f)[i - a];
      }
    }
  }

  /** Scrolling to the end: starting at page 0 and fetching the page the hook
      asks for next until it asks for none shows every row of the table
      exactly once and in order; every page but the last said more
      followed. */
  method ScrollToEnd<R, T>(all: seq<R>, f: R -> T) returns (pages: seq<PageResult<T>>)
    ensures |pages| > 0 && !pages[|pages| - 1].hasMore
    ensures forall i :: 0 <= i < |pages| - 1 ==> pages[i].hasMore
    ensures Flatten(pages) == Map(all, f)
  {
    PageOfRange(all, 0, f);
    pages := [PageOf(Some(RangeRows(all, 0)), f)];
    assert Flatten(pages) == [] + pages[0].topics;
    var next := NextPageParam(pages[0], |pages|);
    while next.Some?
      invariant |pages| >= 1
      invariant next.Some? <==> pages[|pages| - 1].hasMore
      invariant next.Some? ==> next.value == |pages|
      invariant pages[|pages| - 1].hasMore <==> |all| > |pages| * PageSize
      invariant forall i :: 0 <= i < |pages| - 1 ==> pages[i].hasMore
      invariant Flatten(pages) == Map(all[..Min(|pages| * PageSize, |all|)], f)
      decreases |all| - |pages| * PageSize
    {
      var k := next.value;
      PageOfRange(all, k, f);
      var p := PageOf(Some(RangeRows(all, k)), f);
      MapSlices(all, k * PageSize, Min(k * PageSize + PageSize, |all|), f);
      pages := pages + [p];
      assert pages[..|pages| - 1] == pages[..|pages| - 1];
      next := NextPageParam(p, |pages|);
    }
    assert all[..|all|] == all;
  }
}
