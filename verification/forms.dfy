/** The modal forms: the node details editor, the add-node form, the new-topic
    form, the sign-in form and the profile form. Each form is a record of its
    fields; each handler returns the next record together with what it hands
    to its caller. */
module Forms {
  import opened Wrappers
  import opened Strings
  import opened Seqs
  import opened Graph

  // ---------------------------------------------------------------------------
  // Membership toggle, shared by the details editor and the add-node form

  /** `prev.includes(id) ? prev.filter(x => x !== id) : [...prev, id]`. */
  function Toggle(prev: seq<Id>, id: Id): (r: seq<Id>)
    ensures id in r <==> id !in prev
    ensures forall x :: x != id ==> (x in r <==> x in prev)
    ensures id in prev ==> SubsequenceOf(r, prev)
    ensures id !in prev ==> r == prev + [id]
  {
    if id in prev then Filter(prev, (x: Id) => x != id) else prev + [id]
  }

  /** A list with no id twice. */
  predicate NoDuplicates(s: seq<Id>) {
    forall i, j :: 0 <= i < j < |s| ==> s[i] != s[j]
  }

  /** Toggling keeps a duplicate-free list duplicate-free. */
  lemma ToggleKeepsNoDuplicates(prev: seq<Id>, id: Id)
    requires NoDuplicates(prev)
    ensures NoDuplicates(Toggle(prev, id))
  {
    if id in prev {
      FilterKeepsNoDuplicates(prev, (x: Id) => x != id);
    }
  }

  lemma {:induction false} FilterKeepsNoDuplicates(s: seq<Id>, p: Id -> bool)
    requires NoDuplicates(s)
    ensures NoDuplicates(Filter(s, p))
    decreases |s|
  {
    if |s| > 0 {
      FilterKeepsNoDuplicates(s[1..], p);
      var rest := Filter(s[1..], p);
      assert s[0] !in s[1..];
      assert s[0] !in rest;
      if p(s[0]) {
        assert Filter(s, p) == [s[0]] + rest;
      }
    }
  }

  /** Toggling the same id twice restores the selection as a set; when the id
      was not selected it restores the list itself. */
  lemma ToggleTwice(prev: seq<Id>, id: Id)
    ensures Elements(Toggle(Toggle(prev, id), id)) == Elements(prev)
    ensures id !in prev ==> Toggle(Toggle(prev, id), id) == prev
  {
    if id !in prev {
      FilterKeepsAll(prev, (x: Id) => x != id);
      assert Filter(prev + [id], (x: Id) => x != id) == prev by {
        FilterAppend(prev, [id], (x: Id) => x != id);
        assert Filter([id], (x: Id) => x != id) == [];
      }
    }
  }

  // ---------------------------------------------------------------------------
  // Node details editor

  /** The editor's fields: edit mode and the edited title, description and
      connection ids. */
  datatype DetailsForm = DetailsForm(editMode: bool, title: string, description: string,
                                     connections: seq<Id>)

  /** `handleCancel` (and the reset effect): the edited fields go back to the
      node's values and its connected ids, and edit mode ends. */
  function DetailsCancel(node: Node, connectedNodes: Option<seq<Node>>): (f: DetailsForm)
    ensures !f.editMode && f.title == node.title
    ensures f.description == OrElse(node.description, "")
    ensures |f.connections| == |connectedNodes.GetOr([])|
    ensures forall i :: 0 <= i < |f.connections| ==> f.connections[i] == connectedNodes.GetOr([])[i].id
  {
    DetailsForm(false, node.title, OrElse(node.description, ""),
                Map(connectedNodes.GetOr([]), (n: Node) => n.id))
  }

  /** What `onSave` receives. */
  datatype DetailsPayload = DetailsPayload(title: string, description: string, connections: seq<Id>)

  /** The outcome of `handleSave`: the form, the payload handed to `onSave` (if
      any), and the alert shown (if any). */
  datatype DetailsSave = DetailsSave(form: DetailsForm, payload: Option<DetailsPayload>,
                                     alert: Option<string>)

  /** `handleSave`: a blank title alerts and saves nothing; otherwise the
      trimmed fields and the edited ids are handed to `onSave`, and edit mode
      ends only if it succeeds. */
  function DetailsSaveHandler(f: DetailsForm, onSave: Outcome): (r: DetailsSave)
    ensures r.payload.Some? <==> !IsBlank(f.title)
    ensures r.payload.Some? ==>
              r.payload.value == DetailsPayload(Trim(f.title), Trim(f.description), f.connections)
    ensures IsBlank(f.title) ==> r.form == f && r.alert == Some("Title cannot be empty")
    ensures !IsBlank(f.title) && onSave.Succeeded? ==> r.form == f.(editMode := false) && r.alert.None?
    ensures !IsBlank(f.title) && onSave.Failed? ==>
              r.form == f && r.alert == Some("Failed to save changes. Please try again.")
  {
    TrimEmptyIffBlank(f.title);
    if Trim(f.title) == [] then DetailsSave(f, None, Some("Title cannot be empty"))
    else
      var payload := Some(DetailsPayload(Trim(f.title), Trim(f.description), f.connections));
      match onSave
      case Succeeded => DetailsSave(f.(editMode := false), payload, None)
      case Failed(_) => DetailsSave(f, payload, Some("Failed to save changes. Please try again."))
  }

  /** A saved title is never blank: it is trimmed and non-empty. */
  lemma SavedTitleNonEmpty(f: DetailsForm, onSave: Outcome)
    ensures var p := DetailsSaveHandler(f, onSave).payload;
            p.Some? ==> |p.value.title| > 0 && Trim(p.value.title) == p.value.title
  {
    TrimEmptyIffBlank(f.title);
    TrimIdempotent(f.title);
  }

  /** `selectableNodes`: the available nodes other than the node itself. */
  function SelectableNodes(available: Option<seq<Node>>, self: Node): (r: seq<Node>)
    ensures forall n :: n in r <==> n in available.GetOr([]) && n.id != self.id
    ensures SubsequenceOf(r, available.GetOr([]))
  {
    Filter(available.GetOr([]), (n: Node) => n.id != self.id)
  }

  /** Save is disabled exactly when the trimmed title is empty. */
  predicate DetailsSaveDisabled(f: DetailsForm) {
    Trim(f.title) == []
  }

  /** The button and the handler agree: save is enabled exactly when a
      payload would be produced. */
  lemma DetailsButtonMatchesHandler(f: DetailsForm, onSave: Outcome)
    ensures DetailsSaveDisabled(f) <==> DetailsSaveHandler(f, onSave).payload.None?
  {
    TrimEmptyIffBlank(f.title);
  }

  // ---------------------------------------------------------------------------
  // Add-node form

  datatype AddNodeForm = AddNodeForm(title: string, notes: string, selected: seq<Id>)

  const EmptyAddNodeForm := AddNodeForm("", "", [])

  datatype AddNodePayload = AddNodePayload(title: string, notes: string, connections: seq<Id>)

  /** `handleSubmit`: a blank title does nothing; otherwise the trimmed title
      and notes and the selected ids go to `onSubmit`, the form empties and the
      modal closes. */
  function AddNodeSubmit(f: AddNodeForm): (r: (AddNodeForm, Option<AddNodePayload>, bool))
    ensures r.1.Some? <==> !IsBlank(f.title)
    ensures IsBlank(f.title) ==> r.0 == f && !r.2
    ensures !IsBlank(f.title) ==>
              r.1.value == AddNodePayload(Trim(f.title), Trim(f.notes), f.selected)
              && r.0 == EmptyAddNodeForm && r.2
  {
    TrimEmptyIffBlank(f.title);
    if Trim(f.title) == [] then (f, None, false)
    else (EmptyAddNodeForm, Some(AddNodePayload(Trim(f.title), Trim(f.notes), f.selected)), true)
  }

  /** `handleCancel`: the form empties and the modal closes. */
  function AddNodeCancel(f: AddNodeForm): (r: (AddNodeForm, bool))
    ensures r.0.title == "" && r.0.notes == "" && r.0.selected == [] && r.1
  {
    (EmptyAddNodeForm, true)
  }

  /** `toggleConnection`. */
  function AddNodeToggle(f: AddNodeForm, id: Id): (r: AddNodeForm)
    ensures r.title == f.title && r.notes == f.notes
    ensures id in r.selected <==> id !in f.selected
    ensures forall x :: x != id ==> (x in r.selected <==> x in f.selected)
  {
    f.(selected := Toggle(f.selected, id))
  }

  /** `disabled={!title.trim()}`. */
  predicate AddNodeSubmitDisabled(f: AddNodeForm) {
    Trim(f.title) == []
  }

  lemma AddNodeButtonMatchesHandler(f: AddNodeForm)
    ensures AddNodeSubmitDisabled(f) <==> AddNodeSubmit(f).1.None?
  {
    TrimEmptyIffBlank(f.title);
  }

  // ---------------------------------------------------------------------------
  // New-topic form

  datatype ColorTheme = ColorTheme(name: string, color: string, bgColor: string)

  /** `COLOR_THEMES`, in order. */
  const ColorThemes: seq<ColorTheme> := [
    ColorTheme("blue", "#3b82f6", "rgba(59, 130, 246, 0.13)"),
    ColorTheme("violet", "#8b5cf6", "rgba(139, 92, 246, 0.13)"),
    ColorTheme("pink", "#ec4899", "rgba(236, 72, 153, 0.13)"),
    ColorTheme("amber", "#f59e0b", "rgba(245, 158, 11, 0.13)"),
    ColorTheme("emerald", "#10b981", "rgba(16, 185, 129, 0.13)"),
    ColorTheme("cyan", "#06b6d4", "rgba(6, 182, 212, 0.13)"),
    ColorTheme("red", "#ef4444", "rgba(239, 68, 68, 0.13)"),
    ColorTheme("indigo", "#6366f1", "rgba(99, 102, 241, 0.13)")
  ]

  datatype TopicForm = TopicForm(name: string, description: string, theme: ColorTheme, isPublic: bool)

  /** The initial form: empty text, the first colour theme, private. */
  const InitialTopicForm := TopicForm("", "", ColorThemes[0], false)

  /** What `onSubmit` receives. */
  datatype TopicPayload = TopicPayload(title: string, description: string, iconBgColor: string,
                                       iconColor: string, isPublic: bool, nodeCount: nat)

  /** `isFormValid`. */
  predicate TopicFormValid(f: TopicForm) {
    |Trim(f.name)| > 0
  }

  /** `handleSubmit`: only a non-blank name submits; the payload carries the
      trimmed text, the theme's colours, the visibility and a zero node count;
      the form then returns to its initial state and the modal closes. */
  function TopicSubmit(f: TopicForm): (r: (TopicForm, Option<TopicPayload>, bool))
    ensures r.1.Some? <==> !IsBlank(f.name)
    ensures r.1.Some? <==> TopicFormValid(f)
    ensures IsBlank(f.name) ==> r.0 == f && !r.2
    ensures !IsBlank(f.name) ==>
              r.1.value == TopicPayload(Trim(f.name), Trim(f.description), f.theme.bgColor,
                                        f.theme.color, f.isPublic, 0)
              && r.0 == InitialTopicForm && r.2
  {
    TrimEmptyIffBlank(f.name);
    if Trim(f.name) == [] then (f, None, false)
    else (InitialTopicForm,
          Some(TopicPayload(Trim(f.name), Trim(f.description), f.theme.bgColor, f.theme.color,
                            f.isPublic, 0)),
          true)
  }

  /** `handleClose`: back to the initial form. */
  function TopicClose(f: TopicForm): (r: TopicForm)
    ensures r.name == "" && r.description == "" && r.theme == ColorThemes[0] && !r.isPublic
  {
    InitialTopicForm
  }

  lemma InitialTopicFormIsBlueAndPrivate()
    ensures InitialTopicForm.theme.name == "blue" && !InitialTopicForm.isPublic
    ensures !TopicFormValid(InitialTopicForm)
  {
    assert Trim("") == [];
  }

  // ---------------------------------------------------------------------------
  // Sign-in form

  datatype AuthForm = AuthForm(email: string, password: string, error: string, loading: bool)

  /** The outcome of `handleSubmit`: the form, whether `signIn` was called, and
      whether the modal closed. */
  datatype AuthSubmit = AuthSubmit(form: AuthForm, signedIn: bool, closed: bool)

  /** `handleSubmit`: the required check comes first, then the length check on
      the password's UTF-16 length, then one `signIn`; success closes the modal,
      failure shows the error message or a generic one. The validation paths
      leave `loading` alone; the `finally` of the sign-in path clears it. */
  function AuthSubmitHandler(f: AuthForm, signIn: Outcome): (r: AuthSubmit)
    ensures r.signedIn ==> !r.form.loading
    ensures r.form.email == f.email && r.form.password == f.password
    ensures |f.email| == 0 || |f.password| == 0 ==>
              r == AuthSubmit(f.(error := "Email and password are required"), false, false)
    ensures |f.email| > 0 && 0 < Utf16Length(f.password) < 6 ==>
              r == AuthSubmit(f.(error := "Password must be at least 6 characters"), false, false)
    ensures r.signedIn <==> |f.email| > 0 && Utf16Length(f.password) >= 6
    ensures r.closed <==> r.signedIn && signIn.Succeeded?
    ensures r.signedIn && signIn.Failed? ==>
              r.form.error == OrElse(Some(signIn.message), "An error occurred")
    ensures r.signedIn && signIn.Succeeded? ==> r.form.error == ""
  {
    if |f.email| == 0 || |f.password| == 0 then
      AuthSubmit(f.(error := "Email and password are required"), false, false)
    else if Utf16Length(f.password) < 6 then
      AuthSubmit(f.(error := "Password must be at least 6 characters"), false, false)
    else
      var done := f.(error := "", loading := false);
      match signIn
      case Succeeded => AuthSubmit(done, true, true)
      case Failed(m) => AuthSubmit(done.(error := OrElse(Some(m), "An error occurred")), true, false)
  }

  /** Four characters, two of them astral, make a six-unit password: enough to
      sign in, while three BMP characters are not. */
  lemma AuthCountsCodeUnits(signIn: Outcome)
    ensures AuthSubmitHandler(AuthForm("a", "ab\U{1F600}\U{1F600}", "", false), signIn).signedIn
    ensures !AuthSubmitHandler(AuthForm("a", "abc", "", false), signIn).signedIn
  {
    assert Utf16Length("ab\U{1F600}\U{1F600}") == 6 by {
      Utf16LengthAppend("ab", "\U{1F600}\U{1F600}");
    }
  }

  /** `handleClose`: email, password and error are cleared. */
  function AuthClose(f: AuthForm): (r: AuthForm)
    ensures r.email == "" && r.password == "" && r.error == "" && r.loading == f.loading
  {
    f.(email := "", password := "", error := "")
  }

  // ---------------------------------------------------------------------------
  // Profile form

  /** The stored profile, as far as the form reads it. */
  datatype StoredProfile = StoredProfile(displayName: Option<string>, provider: string)

  datatype ProfileForm = ProfileForm(localDisplayName: Option<string>, error: string, success: string)

  /** `localDisplayName ?? profile?.displayName ?? ''`. */
  function ShownName(f: ProfileForm, profile: Option<StoredProfile>): (r: string)
    ensures f.localDisplayName.Some? ==> r == f.localDisplayName.value
    ensures f.localDisplayName.None? && profile.Some? && profile.value.displayName.Some? ==>
              r == profile.value.displayName.value
    ensures f.localDisplayName.None? && (profile.None? || profile.value.displayName.None?) ==> r == ""
  {
    if f.localDisplayName.Some? then f.localDisplayName.value
    else if profile.Some? && profile.value.displayName.Some? then profile.value.displayName.value
    else ""
  }

  /** `handleSubmit`: a blank name sets the required error and sends nothing;
      otherwise the trimmed name is sent; success drops the local edit and
      sets the success message, failure shows the error. */
  function ProfileSubmit(f: ProfileForm, profile: Option<StoredProfile>, update: Outcome)
    : (r: (ProfileForm, Option<string>))
    ensures r.1.Some? <==> !IsBlank(ShownName(f, profile))
    ensures r.1.Some? ==> r.1.value == Trim(ShownName(f, profile))
    ensures IsBlank(ShownName(f, profile)) ==>
              r.0 == f.(error := "Display name is required", success := "")
    ensures r.1.Some? && update.Succeeded? ==>
              r.0 == ProfileForm(None, "", "Profile updated successfully")
    ensures r.1.Some? && update.Failed? ==>
              r.0 == f.(error := OrElse(Some(update.message), "Failed to update profile"), success := "")
  {
    var name := ShownName(f, profile);
    TrimEmptyIffBlank(name);
    var cleared := f.(error := "", success := "");
    if Trim(name) == [] then (cleared.(error := "Display name is required"), None)
    else
      match update
      case Succeeded => (ProfileForm(None, "", "Profile updated successfully"), Some(Trim(name)))
      case Failed(m) => (cleared.(error := OrElse(Some(m), "Failed to update profile")), Some(Trim(name)))
  }

  /** `handleClose`: the local edit and both messages are cleared. */
  function ProfileClose(f: ProfileForm): (r: ProfileForm)
    ensures r.localDisplayName.None? && r.error == "" && r.success == ""
  {
    ProfileForm(None, "", "")
  }

  /** `getProviderLabel`. */
  function ProviderLabel(provider: string): (r: string)
    ensures provider == "google" ==> r == "Google"
    ensures provider == "github" ==> r == "GitHub"
    ensures provider != "google" && provider != "github" ==> r == "Email"
  {
    if provider == "google" then "Google"
    else if provider == "github" then "GitHub"
    else "Email"
  }

  /** `isUpdating || displayName === profile?.displayName`: saving is disabled
      while an update runs, or when the shown name is the stored one. */
  predicate ProfileSaveDisabled(f: ProfileForm, profile: Option<StoredProfile>, isUpdating: bool) {
    isUpdating
    || (profile.Some? && profile.value.displayName.Some?
        && ShownName(f, profile) == profile.value.displayName.value)
  }

  /** Without a local edit the shown name is the stored one, so saving is
      disabled; without a stored name it never equals, so only an update in
      progress disables it. */
  lemma ProfileSaveDisabledCases(f: ProfileForm, profile: Option<StoredProfile>, isUpdating: bool)
    ensures f.localDisplayName.None? && profile.Some? && profile.value.displayName.Some? ==>
              ProfileSaveDisabled(f, profile, isUpdating)
    ensures profile.None? ==> (ProfileSaveDisabled(f, profile, isUpdating) <==> isUpdating)
  {
  }
}
