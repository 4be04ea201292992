/** Topics on the client: the row-to-view transform, the cache transforms the
    React-Query hook applies after each successful mutation, the legacy
    state hook, and the optimistic visibility toggle. Service answers are
    parameters. */
module Topics {
  import opened Wrappers
  import opened Strings
  import opened Seqs
  import opened Records

  /** A `topics_with_counts` row. `createdAt` is the `created_at` column as a
      timestamp. */
  datatype TopicRow = TopicRow(id: string, title: string, description: string,
                               iconBgColor: string, iconColor: string,
                               nodeCount: Option<nat>, isPublic: Option<bool>,
                               userId: Option<string>, createdAt: int)

  /** A topic as the pages see it. `createdAt` is `None` when the transform
      did not copy it (reading it then gives `undefined`). */
  datatype Topic = Topic(id: string, title: string, description: string,
                         iconBgColor: string, iconColor: string,
                         nodeCount: nat, isPublic: bool, userId: Option<string>,
                         createdAt: Option<int>)

  /** `transformTopic`: `node_count || 0`, `is_public ?? false`; the creation
      time is not copied. */
  function TransformTopic(r: TopicRow): (t: Topic)
    ensures t.id == r.id && t.title == r.title && t.description == r.description
    ensures t.iconBgColor == r.iconBgColor && t.iconColor == r.iconColor
    ensures r.nodeCount.None? ==> t.nodeCount == 0
    ensures r.nodeCount.Some? ==> t.nodeCount == r.nodeCount.value
    ensures t.isPublic <==> r.isPublic == Some(true)
    ensures t.userId == r.userId
    ensures t.createdAt.None?
  {
    Topic(r.id, r.title, r.description, r.iconBgColor, r.iconColor,
          r.nodeCount.GetOr(0), r.isPublic.GetOr(false), r.userId, None)
  }

  /** The transform with the creation time copied, which the Home page's
      date orders read. */
  function TransformTopicDated(r: TopicRow): (t: Topic)
    ensures t == TransformTopic(r).(createdAt := t.createdAt)
    ensures t.createdAt == Some(r.createdAt)
  {
    TransformTopic(r).(createdAt := Some(r.createdAt))
  }

  /** The query function: every row transformed, in order. */
  function QueryTopics(rows: seq<TopicRow>): (ts: seq<Topic>)
    ensures |ts| == |rows|
    ensures forall i :: 0 <= i < |rows| ==> ts[i] == TransformTopic(rows[i])
  {
    Map(rows, TransformTopic)
  }

  /** The ids of a topic list, in order. */
  function Ids(ts: seq<Topic>): (ids: seq<string>)
    ensures |ids| == |ts| && forall i :: 0 <= i < |ts| ==> ids[i] == ts[i].id
  {
    Map(ts, (t: Topic) => t.id)
  }

  /** The create mutation's success handler: the new row, with a node count of
      0 and `is_public ?? false`, goes in front of the cached list (`[]` when
      there is none). */
  function CreateSuccess(cache: Option<seq<Topic>>, created: TopicRow): (r: seq<Topic>)
    ensures |r| == |cache.GetOr([])| + 1
    ensures r[0].id == created.id && r[0].nodeCount == 0
    ensures r[0].isPublic <==> created.isPublic == Some(true)
    ensures r[0] == TransformTopic(created).(nodeCount := 0)
    ensures r[1..] == cache.GetOr([])
  {
    [TransformTopic(created.(nodeCount := Some(0), isPublic := Some(created.isPublic.GetOr(false))))]
      + cache.GetOr([])
  }

  function IdIsNot(id: string): Topic -> bool {
    (t: Topic) => t.id != id
  }

  /** The delete mutation's success handler: the topics with that id leave the
      list and the rest keep their order. */
  function DeleteSuccess(cache: Option<seq<Topic>>, id: string): (r: seq<Topic>)
    ensures forall t :: t in r <==> t in cache.GetOr([]) && t.id != id
    ensures SubsequenceOf(r, cache.GetOr([]))
  {
    Filter(cache.GetOr([]), IdIsNot(id))
  }

  /** The fields of the updated row copied onto the cached topic. */
  function WithUpdate(t: Topic, updated: TopicRow): Topic {
    t.(title := updated.title, description := updated.description,
       iconBgColor := updated.iconBgColor, iconColor := updated.iconColor)
  }

  /** The update mutation's success handler: the topic with that id takes the
      updated title, description and colours and keeps its node count,
      visibility, owner and id; every other topic is unchanged. */
  function UpdateSuccess(cache: Option<seq<Topic>>, id: string, updated: TopicRow): (r: seq<Topic>)
    ensures |r| == |cache.GetOr([])|
    ensures forall i :: 0 <= i < |r| && cache.value[i].id != id ==> r[i] == cache.value[i]
    ensures forall i :: 0 <= i < |r| && cache.value[i].id == id ==>
              r[i].title == updated.title && r[i].description == updated.description
              && r[i].iconBgColor == updated.iconBgColor && r[i].iconColor == updated.iconColor
              && r[i].id == id && r[i].nodeCount == cache.value[i].nodeCount
              && r[i].isPublic == cache.value[i].isPublic && r[i].userId == cache.value[i].userId
  {
    Map(cache.GetOr([]), (t: Topic) => if t.id == id then WithUpdate(t, updated) else t)
  }

  /** Deleting a topic just created, whose id was new, gives back the list as
      it was. */
  lemma {:induction false} CreateThenDeleteRestores(cache: seq<Topic>, created: TopicRow)
    requires forall t :: t in cache ==> t.id != created.id
    ensures DeleteSuccess(Some(CreateSuccess(Some(cache), created)), created.id) == cache
  {
    var r := CreateSuccess(Some(cache), created);
    assert r == [r[0]] + cache;
    FilterAppend([r[0]], cache, IdIsNot(created.id));
    FilterKeepsAll(cache, IdIsNot(created.id));
    assert Filter([r[0]], IdIsNot(created.id)) == [];
  }

  /** Update keeps the list's ids in order. */
  lemma UpdateKeepsIds(cache: seq<Topic>, id: string, updated: TopicRow)
    ensures Ids(UpdateSuccess(Some(cache), id, updated)) == Ids(cache)
  {
  }

  /** The hook's `error`: the error's message, `null` without an error or for
      an empty message. */
  function QueryError(error: Option<BackendError>): (r: Option<string>)
    ensures error.None? ==> r.None?
    ensures r.Some? ==> Truthy(r.value) && r.value == error.value.message
    ensures error.Some? && Truthy(error.value.message) ==> r == Some(error.value.message)
  {
    if error.None? then None else OrNull(Some(error.value.message))
  }

  // ---------------------------------------------------------------------------
  // The legacy state hook

  /** The legacy hook's topic: no visibility, owner or creation time. */
  datatype LegacyTopic = LegacyTopic(id: string, title: string, description: string,
                                     iconBgColor: string, iconColor: string, nodeCount: nat)

  datatype LegacyState = LegacyState(topics: seq<LegacyTopic>, loading: bool, error: Option<string>)

  /** The legacy `loadTopics` transform: it agrees with `transformTopic` on
      every field the two share. */
  function LegacyTransform(r: TopicRow): (t: LegacyTopic)
    ensures var f := TransformTopic(r);
            t.id == f.id && t.title == f.title && t.description == f.description
            && t.iconBgColor == f.iconBgColor && t.iconColor == f.iconColor
            && t.nodeCount == f.nodeCount
  {
    LegacyTopic(r.id, r.title, r.description, r.iconBgColor, r.iconColor, r.nodeCount.GetOr(0))
  }

  /** `loadTopics`: on success the rows transformed in order, with missing
      node counts read as 0, and no error; on failure the list is kept and the
      message recorded. Loading ends either way. */
  function LoadTopics(s: LegacyState, response: Result<seq<TopicRow>, string>): (r: LegacyState)
    ensures !r.loading
    ensures response.Ok? ==> r.error.None? && |r.topics| == |response.value|
    ensures response.Ok? ==> forall i :: 0 <= i < |r.topics| ==>
              r.topics[i].id == response.value[i].id
              && r.topics[i].nodeCount == response.value[i].nodeCount.GetOr(0)
              && r.topics[i] == LegacyTransform(response.value[i])
    ensures response.Err? ==> r.topics == s.topics && r.error == Some(response.error)
  {
    match response
    case Ok(rows) => LegacyState(Map(rows, LegacyTransform), false, None)
    case Err(m) => LegacyState(s.topics, false, Some(m))
  }

  /** `createTopic`: the created topic, with node count 0, goes in front and is
      returned; a failure records the message and is rethrown with the list
      unchanged. */
  function LegacyCreate(s: LegacyState, created: Result<TopicRow, string>)
    : (r: (LegacyState, Result<LegacyTopic, string>))
    ensures created.Ok? ==> r.1.Ok? && r.1.value.id == created.value.id && r.1.value.nodeCount == 0
    ensures created.Ok? ==> r.1 == Ok(LegacyTransform(created.value).(nodeCount := 0))
    ensures created.Ok? ==> r.0.topics == [r.1.value] + s.topics && r.0.error == s.error
    ensures created.Err? ==>
              r.0.topics == s.topics && r.0.error == Some(created.error) && r.1 == Err(created.error)
  {
    match created
    case Ok(row) =>
      var t := LegacyTransform(row).(nodeCount := 0);
      (s.(topics := [t] + s.topics), Ok(t))
    case Err(m) => (s.(error := Some(m)), Err(m))
  }

  function LegacyIdIsNot(id: string): LegacyTopic -> bool {
    (t: LegacyTopic) => t.id != id
  }

  /** `deleteTopic`: the topic leaves the list only after the service
      succeeds; a failure records the message and is rethrown with the list
      unchanged. */
  function LegacyDelete(s: LegacyState, id: string, outcome: Outcome): (r: (LegacyState, Outcome))
    ensures r.1 == outcome
    ensures outcome.Succeeded? ==>
              (forall t :: t in r.0.topics <==> t in s.topics && t.id != id)
              && SubsequenceOf(r.0.topics, s.topics) && r.0.error == s.error
    ensures outcome.Failed? ==> r.0.topics == s.topics && r.0.error == Some(outcome.message)
  {
    match outcome
    case Succeeded => (s.(topics := Filter(s.topics, LegacyIdIsNot(id))), Succeeded)
    case Failed(m) => (s.(error := Some(m)), outcome)
  }

  /** `updateTopic`: on success the matching topic takes the updated title,
      description and colours and keeps its node count; the others are
      unchanged. A failure records the message, rethrows and keeps the list. */
  function LegacyUpdate(s: LegacyState, id: string, updated: Result<TopicRow, string>)
    : (r: (LegacyState, Result<TopicRow, string>))
    ensures r.1 == updated
    ensures updated.Ok? ==> |r.0.topics| == |s.topics| && r.0.error == s.error
    ensures updated.Ok? ==> forall i :: 0 <= i < |s.topics| ==>
              if s.topics[i].id == id then
                r.0.topics[i] == s.topics[i].(title := updated.value.title,
                                              description := updated.value.description,
                                              iconBgColor := updated.value.iconBgColor,
                                              iconColor := updated.value.iconColor)
              else r.0.topics[i] == s.topics[i]
    ensures updated.Err? ==> r.0.topics == s.topics && r.0.error == Some(updated.error)
  {
    match updated
    case Ok(u) =>
      var f := (t: LegacyTopic) =>
        if t.id == id then t.(title := u.title, description := u.description,
                              iconBgColor := u.iconBgColor, iconColor := u.iconColor)
        else t;
      (s.(topics := Map(s.topics, f)), updated)
    case Err(m) => (s.(error := Some(m)), updated)
  }

  // ---------------------------------------------------------------------------
  // useTopicVisibility

  /** `onMutate`'s result: the optimistically updated cache and the snapshot
      it returns as context. */
  datatype VisibilityMutation = VisibilityMutation(cache: Option<seq<Topic>>, snapshot: Option<seq<Topic>>)

  function SetVisibility(id: string, isPublic: bool): Topic -> Topic {
    (t: Topic) => if t.id == id then t.(isPublic := isPublic) else t
  }

  /** `onMutate`: the snapshot is the cache as it was; in the cache only the
      topic with that id changes, and only its visibility. */
  function OnMutateVisibility(cache: Option<seq<Topic>>, id: string, isPublic: bool): (m: VisibilityMutation)
    ensures m.snapshot == cache
    ensures m.cache.Some? <==> cache.Some?
    ensures cache.Some? ==> |m.cache.value| == |cache.value|
    ensures cache.Some? ==> forall i :: 0 <= i < |cache.value| ==>
              m.cache.value[i] == (if cache.value[i].id == id then cache.value[i].(isPublic := isPublic)
                                   else cache.value[i])
  {
    match cache
    case None => VisibilityMutation(None, cache)
    case Some(ts) => VisibilityMutation(Some(Map(ts, SetVisibility(id, isPublic))), cache)
  }

  /** `onError`: the snapshot, when there is one, replaces the cache. */
  function OnErrorVisibility(current: Option<seq<Topic>>, snapshot: Option<seq<Topic>>): (r: Option<seq<Topic>>)
    ensures snapshot.Some? ==> r == snapshot
    ensures snapshot.None? ==> r == current
  {
    if snapshot.Some? then snapshot else current
  }

  /** The whole mutation: the cache it leaves and whether the topics query is
      invalidated when it settles. */
  function ToggleVisibility(cache: Option<seq<Topic>>, id: string, isPublic: bool, outcome: Outcome)
    : (r: (Option<seq<Topic>>, bool))
  {
    var m := OnMutateVisibility(cache, id, isPublic);
    var after := if outcome.Failed? then OnErrorVisibility(m.cache, m.snapshot) else m.cache;
    (after, true)
  }

  /** A failed toggle leaves the cache exactly as it was, a successful one
      changes only that topic's visibility, and either way the topics query is
      invalidated. */
  lemma ToggleVisibilityOutcome(cache: Option<seq<Topic>>, id: string, isPublic: bool, outcome: Outcome)
    ensures ToggleVisibility(cache, id, isPublic, outcome).1
    ensures outcome.Failed? ==> ToggleVisibility(cache, id, isPublic, outcome).0 == cache
    ensures outcome.Succeeded? && cache.Some? ==>
              var after := ToggleVisibility(cache, id, isPublic, outcome).0;
              after.Some? && |after.value| == |cache.value|
              && forall i :: 0 <= i < |cache.value| ==>
                   after.value[i].isPublic == (if cache.value[i].id == id then isPublic else cache.value[i].isPublic)
                   && after.value[i] == cache.value[i].(isPublic := after.value[i].isPublic)
  {
  }
}
