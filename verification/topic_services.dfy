/** The topic and user-profile services: the insert and update bodies they
    send, the guards they apply before sending, and what they make of the
    backend's answer. The signed-in user, the stored profile and the backend's
    answers are parameters. */
module TopicServices {
  import opened Wrappers
  import opened Strings
  import opened Records

  // ---------------------------------------------------------------------------
  // topicsService

  /** The `topic` object `create` receives; `isPublic` may be absent. */
  datatype TopicInput = TopicInput(title: string, description: string, iconBgColor: string,
                                   iconColor: string, isPublic: Option<bool>)

  const NotAuthenticated: string := "Must be authenticated to create topics"

  /** `create`'s insert row, or the error thrown before any insert when no user
      is signed in: the columns renamed to snake_case, `user_id` the signed-in
      user and `is_public` false when the caller left it out. */
  function CreateTopicRow(t: TopicInput, user: Option<string>): (r: Result<Row, string>)
    ensures user.None? <==> r == Err(NotAuthenticated)
    ensures r.Ok? ==> r.value.Keys == {"title", "description", "icon_bg_color", "icon_color", "user_id", "is_public"}
    ensures r.Ok? ==> r.value["title"] == Text(t.title) && r.value["description"] == Text(t.description)
    ensures r.Ok? ==> r.value["icon_bg_color"] == Text(t.iconBgColor) && r.value["icon_color"] == Text(t.iconColor)
    ensures r.Ok? ==> r.value["user_id"] == Text(user.value)
    ensures r.Ok? ==> r.value["is_public"] == Flag(t.isPublic == Some(true))
  {
    match user
    case None => Err(NotAuthenticated)
    case Some(u) =>
      Ok(map["title" := Text(t.title), "description" := Text(t.description),
             "icon_bg_color" := Text(t.iconBgColor), "icon_color" := Text(t.iconColor),
             "user_id" := Text(u), "is_public" := Flag(t.isPublic.GetOr(false))])
  }

  /** The `updates` object `update` receives; every field may be absent. */
  datatype TopicUpdate = TopicUpdate(title: Option<string>, description: Option<string>,
                                     iconBgColor: Option<string>, iconColor: Option<string>,
                                     isPublic: Option<bool>)

  function TextOf(o: Option<string>): Option<Value> {
    if o.Some? then Some(Text(o.value)) else None
  }

  /** `update`'s body: exactly the defined fields, under their snake_case
      column names. */
  function TopicUpdateBody(u: TopicUpdate): (body: Row)
    ensures body.Keys <= {"title", "description", "icon_bg_color", "icon_color", "is_public"}
    ensures "title" in body <==> u.title.Some?
    ensures "description" in body <==> u.description.Some?
    ensures "icon_bg_color" in body <==> u.iconBgColor.Some?
    ensures "icon_color" in body <==> u.iconColor.Some?
    ensures "is_public" in body <==> u.isPublic.Some?
    ensures u.title.Some? ==> body["title"] == Text(u.title.value)
    ensures u.description.Some? ==> body["description"] == Text(u.description.value)
    ensures u.iconBgColor.Some? ==> body["icon_bg_color"] == Text(u.iconBgColor.value)
    ensures u.iconColor.Some? ==> body["icon_color"] == Text(u.iconColor.value)
    ensures u.isPublic.Some? ==> body["is_public"] == Flag(u.isPublic.value)
  {
    var b0: Row := map[];
    var b1 := SetIfDefined(b0, "title", TextOf(u.title));
    var b2 := SetIfDefined(b1, "description", TextOf(u.description));
    var b3 := SetIfDefined(b2, "icon_bg_color", TextOf(u.iconBgColor));
    var b4 := SetIfDefined(b3, "icon_color", TextOf(u.iconColor));
    SetIfDefined(b4, "is_public", if u.isPublic.Some? then Some(Flag(u.isPublic.value)) else None)
  }

  /** A visibility-only update sends `is_public` and nothing else. */
  lemma VisibilityUpdateBody(b: bool)
    ensures TopicUpdateBody(TopicUpdate(None, None, None, None, Some(b))) == map["is_public" := Flag(b)]
  {
  }

  /** `delete`: the backend's error is thrown. */
  function DeleteTopic<T>(r: Response<T>): (o: Outcome)
    ensures o.Failed? <==> r.error.Some?
  {
    Throws(r)
  }

  // ---------------------------------------------------------------------------
  // userService

  const NotFound: string := "PGRST116"

  /** `getProfile`: a not-found error is not an error (the data, normally
      null, is returned); any other error is thrown. */
  function GetProfile<P>(r: Response<P>): (res: Result<Option<P>, BackendError>)
    ensures res.Err? <==> r.error.Some? && r.error.value.code != NotFound
    ensures res.Err? ==> res.error == r.error.value
    ensures res.Ok? ==> res.value == r.data
  {
    if r.error.Some? && r.error.value.code != NotFound then Err(r.error.value) else Ok(r.data)
  }

  /** The `updates` object `updateProfile` receives. */
  datatype ProfileUpdate = ProfileUpdate(displayName: Option<string>, avatarUrl: Option<string>)

  /** `updateProfile`'s body: the defined ones of the two fields, renamed. */
  function ProfileUpdateBody(u: ProfileUpdate): (body: Row)
    ensures body.Keys <= {"display_name", "avatar_url"}
    ensures "display_name" in body <==> u.displayName.Some?
    ensures "avatar_url" in body <==> u.avatarUrl.Some?
    ensures u.displayName.Some? ==> body["display_name"] == Text(u.displayName.value)
    ensures u.avatarUrl.Some? ==> body["avatar_url"] == Text(u.avatarUrl.value)
  {
    var b0: Row := map[];
    var b1 := SetIfDefined(b0, "display_name", TextOf(u.displayName));
    SetIfDefined(b1, "avatar_url", TextOf(u.avatarUrl))
  }

  /** The parts of the auth provider's user that `syncFromAuth` reads. */
  datatype UserMetadata = UserMetadata(fullName: Option<string>, name: Option<string>,
                                       preferredUsername: Option<string>,
                                       avatarUrl: Option<string>, picture: Option<string>)
  datatype AuthUser = AuthUser(id: string, email: Option<string>,
                               userMetadata: Option<UserMetadata>, provider: Option<string>)

  /** `user_metadata || {}`: an absent metadata object reads as one with no
      fields. */
  function MetadataOf(u: AuthUser): UserMetadata {
    u.userMetadata.GetOr(UserMetadata(None, None, None, None, None))
  }

  /** `email?.split('@')[0]`. */
  function EmailLocalPart(email: Option<string>): (r: Option<string>)
    ensures email.None? <==> r.None?
    ensures r.Some? ==> '@' !in r.value && StartsWith(email.value, r.value)
    ensures r.Some? ==> |r.value| == |email.value| || email.value[|r.value|] == '@'
  {
    match email
    case None => None
    case Some(e) => Some(Before(e, '@'))
  }

  /** The local part is the text before the `@` of an address `local@domain`
      whose local part has no `@`; an address without `@` is its own local
      part. */
  lemma EmailLocalPartOfAddress(local: string, domain: string)
    requires '@' !in local
    ensures EmailLocalPart(Some(local + "@" + domain)) == Some(local)
    ensures EmailLocalPart(Some(local)) == Some(local)
  {
    SplitJoinRoundTrip(local, '@', domain);
    BeforeAbsent(local, '@');
  }

  /** The display name chain: full name, name, preferred user name, the
      e-mail's local part, then 'User'. */
  function DisplayName(u: AuthUser): (r: string)
    ensures Truthy(r)
  {
    var m := MetadataOf(u);
    OrElse(m.fullName, OrElse(m.name, OrElse(m.preferredUsername,
      OrElse(EmailLocalPart(u.email), "User"))))
  }

  /** The first truthy candidate, or the fallback when none is. */
  function FirstTruthy(candidates: seq<Option<string>>, fallback: string): (r: string)
    ensures (exists k :: 0 <= k < |candidates| && PresentAndTruthy(candidates[k]))
            || r == fallback
    decreases |candidates|
  {
    if |candidates| == 0 then fallback
    else if PresentAndTruthy(candidates[0]) then candidates[0].value
    else FirstTruthy(candidates[1..], fallback)
  }

  /** `FirstTruthy` picks the candidate at `k` when it is truthy and none
      before it is. */
  lemma {:induction false} FirstTruthyPicks(candidates: seq<Option<string>>, fallback: string, k: nat)
    requires k < |candidates| && PresentAndTruthy(candidates[k])
    requires forall j :: 0 <= j < k ==> !PresentAndTruthy(candidates[j])
    ensures FirstTruthy(candidates, fallback) == candidates[k].value
    decreases k
  {
    if k > 0 {
      assert !PresentAndTruthy(candidates[0]);
      FirstTruthyPicks(candidates[1..], fallback, k - 1);
    }
  }

  /** `FirstTruthy` falls back exactly when no candidate is truthy. */
  lemma {:induction false} FirstTruthyFallsBack(candidates: seq<Option<string>>, fallback: string)
    requires forall j :: 0 <= j < |candidates| ==> !PresentAndTruthy(candidates[j])
    ensures FirstTruthy(candidates, fallback) == fallback
    decreases |candidates|
  {
    if |candidates| > 0 {
      assert !PresentAndTruthy(candidates[0]);
      FirstTruthyFallsBack(candidates[1..], fallback);
    }
  }

  /** The display name is the first truthy one of the four candidates, in
      order, and 'User' when none is. */
  lemma DisplayNameIsFirstTruthy(u: AuthUser)
    ensures var m := MetadataOf(u);
            DisplayName(u) == FirstTruthy([m.fullName, m.name, m.preferredUsername, EmailLocalPart(u.email)], "User")
  {
    var m := MetadataOf(u);
    var cs := [m.fullName, m.name, m.preferredUsername, EmailLocalPart(u.email)];
    if PresentAndTruthy(cs[0]) {
      FirstTruthyPicks(cs, "User", 0);
    } else if PresentAndTruthy(cs[1]) {
      FirstTruthyPicks(cs, "User", 1);
    } else if PresentAndTruthy(cs[2]) {
      FirstTruthyPicks(cs, "User", 2);
    } else if PresentAndTruthy(cs[3]) {
      FirstTruthyPicks(cs, "User", 3);
    } else {
      FirstTruthyFallsBack(cs, "User");
    }
  }

  /** A user with no names in the metadata is named after the local part of
      the address. */
  lemma DisplayNameFromEmail(id: string, local: string, domain: string)
    requires '@' !in local && |local| > 0
    ensures DisplayName(AuthUser(id, Some(local + "@" + domain), None, None)) == local
  {
    assert local + "@" + domain == local + ['@'] + domain;
    SplitJoinRoundTrip(local, '@', domain);
    BeforeAbsent(local, '@');
  }

  /** `avatar_url || picture || null`. */
  function AvatarUrl(m: UserMetadata): (r: Option<string>)
    ensures PresentAndTruthy(m.avatarUrl) ==> r == m.avatarUrl
    ensures !PresentAndTruthy(m.avatarUrl) && PresentAndTruthy(m.picture) ==> r == m.picture
    ensures !PresentAndTruthy(m.avatarUrl) && !PresentAndTruthy(m.picture) ==> r == None
  {
    if PresentAndTruthy(m.avatarUrl) then m.avatarUrl else OrNull(m.picture)
  }

  /** `app_metadata?.provider || 'email'`. */
  function Provider(u: AuthUser): (r: string)
    ensures PresentAndTruthy(u.provider) ==> r == u.provider.value
    ensures !PresentAndTruthy(u.provider) ==> r == "email"
  {
    OrElse(u.provider, "email")
  }

  /** The profile `syncFromAuth` creates. */
  datatype NewProfile = NewProfile(id: string, displayName: string, avatarUrl: Option<string>,
                                   authProvider: string)

  /** What `syncFromAuth` does: return the stored profile, create one, or
      throw the lookup's error. */
  datatype Sync<P> = Existing(profile: P) | Create(created: NewProfile) | Thrown(error: BackendError)

  /** `syncFromAuth(authUser)`: a profile that exists is returned as is;
      otherwise one is created from the auth user's data. */
  function SyncFromAuth<P>(u: AuthUser, lookup: Response<P>): (r: Sync<P>)
    ensures GetProfile(lookup).Err? <==> r.Thrown?
    ensures GetProfile(lookup) == Ok(None) <==> r.Create?
    ensures r.Existing? <==> GetProfile(lookup).Ok? && lookup.data.Some?
    ensures r.Existing? ==> r.profile == lookup.data.value
    ensures r.Create? ==> r.created.id == u.id && r.created.displayName == DisplayName(u)
    ensures r.Create? ==> Truthy(r.created.displayName)
    ensures r.Create? ==> r.created.avatarUrl == AvatarUrl(MetadataOf(u))
    ensures r.Create? ==> r.created.authProvider == Provider(u)
  {
    match GetProfile(lookup)
    case Err(e) => Thrown(e)
    case Ok(Some(p)) => Existing(p)
    case Ok(None) => Create(NewProfile(u.id, DisplayName(u), AvatarUrl(MetadataOf(u)), Provider(u)))
  }

  /** `createProfile`'s insert row. */
  function ProfileRow(p: NewProfile): (row: Row)
    ensures row.Keys == {"id", "display_name", "avatar_url", "auth_provider"}
    ensures row["id"] == Text(p.id)
    ensures row["display_name"] == Text(p.displayName) && row["auth_provider"] == Text(p.authProvider)
    ensures p.avatarUrl.Some? ==> row["avatar_url"] == Text(p.avatarUrl.value)
    ensures p.avatarUrl.None? ==> row["avatar_url"] == Null
  {
    map["id" := Text(p.id), "display_name" := Text(p.displayName),
        "avatar_url" := if p.avatarUrl.Some? then Text(p.avatarUrl.value) else Null,
        "auth_provider" := Text(p.authProvider)]
  }
}
