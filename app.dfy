/**
 * The application shell's session and view state: who is signed in, which
 * group is open, the formatted details of that group, and which of the three
 * screens (sign-in, group, dashboard) is shown.
 */
module App {
  import opened Wrappers
  import opened JsValues
  import opened Records

  /** The object the sign-in page hands over; a missing field is `Undefined`. */
  datatype AuthData = AuthData(username: JsValue, email: JsValue, token: JsValue)

  /** `data?.username || data?.email || "guest"` */
  function UsernameOf(data: Option<AuthData>): (r: JsValue)
    ensures Truthy(r)
    ensures data.Some? && Truthy(data.value.username) ==> r == data.value.username
    ensures data.Some? && !Truthy(data.value.username) && Truthy(data.value.email) ==> r == data.value.email
    ensures (data.None? || (!Truthy(data.value.username) && !Truthy(data.value.email))) ==> r == Str("guest")
  {
    var username := if data.Some? then data.value.username else Undefined;
    var email := if data.Some? then data.value.email else Undefined;
    Or(Or(username, email), Str("guest"))
  }

  /** A group as the dashboard lists it; `fields` holds its properties other than `id` and `name`. */
  datatype Group = Group(id: JsValue, name: JsValue, fields: map<string, JsValue>)

  /** The `groupDetails` object handed to the group view. */
  datatype Details = Details(id: JsValue, name: JsValue, fields: map<string, JsValue>, members: seq<Member>)

  /** The role literal the shell gives every member. */
  const ShellRole := "MEMBER"

  /**
   * The details `handleSelect` stores once its request settles: on success the
   * group's id and name and one member per location row, in order, with the
   * raw timestamp; on any failure `{ ...group, members: [] }`.
   */
  function FormatGroup(group: Group, response: Snapshot): (r: Details)
    ensures r.id == group.id && r.name == group.name
    ensures (response.Rows? && forall i :: 0 <= i < |response.rows| ==> response.rows[i].Record?) ==>
      && r.fields == map[]
      && |r.members| == |response.rows|
      && forall i :: 0 <= i < |response.rows| ==>
        r.members[i] == Member(response.rows[i].rec.email, ShellRole, response.rows[i].rec.latitude,
                              response.rows[i].rec.longitude, response.rows[i].rec.timestamp)
    ensures !(response.Rows? && forall i :: 0 <= i < |response.rows| ==> response.rows[i].Record?) ==>
      r == Fallback(group)
  {
    match response
    case FetchFailed => Fallback(group)
    case Rows(rows) =>
      match DecodeRows(rows, ShellRole, t => t)
      case None => Fallback(group)
      case Some(members) => Details(group.id, group.name, map[], members)
  }

  /** `{ ...group, members: [] }`: every property of the group is kept and `members` is empty. */
  function Fallback(group: Group): (r: Details)
    ensures r.members == [] && r.id == group.id && r.name == group.name
    ensures "members" !in r.fields
    ensures forall k :: k in group.fields && k != "members" ==> k in r.fields && r.fields[k] == group.fields[k]
    ensures forall k :: k in r.fields ==> k in group.fields
  {
    Details(group.id, group.name, group.fields - {"members"}, [])
  }

  /** The three screens; the group and dashboard screens each have a loading variant. */
  datatype Screen = SignIn | GroupView(loading: bool) | Dashboard(loading: bool)

  /**
   * The top-level render: with no user the sign-in page; else with a truthy
   * selected group the group screen; else the dashboard.
   */
  function ScreenFor(user: Option<JsValue>, selectedGroup: JsValue, loadingGroupDetails: bool, loadingGroups: bool): (r: Screen)
    ensures r.SignIn? <==> user.None?
    ensures r.GroupView? <==> user.Some? && Truthy(selectedGroup)
    ensures r.Dashboard? <==> user.Some? && !Truthy(selectedGroup)
    ensures r.GroupView? ==> r.loading == loadingGroupDetails
    ensures r.Dashboard? ==> r.loading == loadingGroups
  {
    if user.None? then SignIn
    else if Truthy(selectedGroup) then GroupView(loadingGroupDetails)
    else Dashboard(loadingGroups)
  }

  /** A group whose name is the empty string is never shown: the name is the selection flag. */
  lemma EmptyGroupNameShowsDashboard(user: JsValue, loadingGroupDetails: bool, loadingGroups: bool)
    ensures ScreenFor(Some(user), Str(""), loadingGroupDetails, loadingGroups) == Dashboard(loadingGroups)
  {
  }

  /** The state fields of the `App` component that the core reads and writes. */
  class AppState {
    var user: Option<JsValue>        // `{ username }`, or null
    var token: JsValue
    var groups: seq<Group>
    var selectedGroup: JsValue       // the selected group's name, or null
    var groupDetails: Option<Details>
    var loadingGroupDetails: bool
    var loadingGroups: bool

    /** The group screen, once it stops loading, always has details to show. */
    predicate Valid()
      reads this
    {
      Truthy(selectedGroup) && !loadingGroupDetails ==> groupDetails.Some?
    }

    function CurrentScreen(): Screen
      reads this
    {
      ScreenFor(user, selectedGroup, loadingGroupDetails, loadingGroups)
    }

    constructor ()
      ensures Valid()
      ensures user.None? && token == Null && groups == [] && selectedGroup == Null
      ensures groupDetails.None? && !loadingGroupDetails && !loadingGroups
      ensures CurrentScreen() == SignIn
    {
      user, token, groups := None, Null, [];
      selectedGroup, groupDetails := Null, None;
      loadingGroupDetails, loadingGroups := false, false;
    }

    /**
     * `handleAuth`: the user is set first; reading `data.token` then throws
     * when there is no data, which leaves the token as it was.
     */
    method HandleAuth(data: Option<AuthData>)
      requires Valid()
      modifies this
      ensures Valid()
      ensures user == Some(UsernameOf(data))
      ensures token == if data.Some? then data.value.token else old(token)
      ensures groups == old(groups) && selectedGroup == old(selectedGroup) && groupDetails == old(groupDetails)
      ensures loadingGroupDetails == old(loadingGroupDetails) && loadingGroups == old(loadingGroups)
    {
      user := Some(UsernameOf(data));
      if data.Some? {
        token := data.value.token;
      }
    }

    /**
     * `handleSelect` up to its `await`: select the group by name and start
     * loading.  With no user, building the request URL throws inside the
     * `try`, so the fallback details are stored at once and no request is
     * made (`requested` is false).
     */
    method BeginSelect(group: Group) returns (requested: bool)
      requires Valid()
      modifies this
      ensures Valid()
      ensures requested <==> old(user).Some?
      ensures selectedGroup == group.name
      ensures requested ==> loadingGroupDetails && groupDetails == old(groupDetails)
      ensures !requested ==> !loadingGroupDetails && groupDetails == Some(Fallback(group))
      ensures user == old(user) && token == old(token) && groups == old(groups) && loadingGroups == old(loadingGroups)
      ensures requested && Truthy(group.name) ==> CurrentScreen() == GroupView(true)
    {
      selectedGroup := group.name;
      loadingGroupDetails := true;
      requested := user.Some?;
      if !requested {
        groupDetails := Some(Fallback(group));
        loadingGroupDetails := false;
      }
    }

    /** `handleSelect` after its `await`: store the formatted details (or the fallback) and stop loading. */
    method EndSelect(group: Group, response: Snapshot)
      requires Valid()
      modifies this
      ensures Valid()
      ensures groupDetails == Some(FormatGroup(group, response))
      ensures !loadingGroupDetails
      ensures user == old(user) && token == old(token) && groups == old(groups)
      ensures selectedGroup == old(selectedGroup) && loadingGroups == old(loadingGroups)
    {
      groupDetails := Some(FormatGroup(group, response));
      loadingGroupDetails := false;
    }

    /** `handleLogout`: clears the session and the selection; the loading flags are left alone. */
    method HandleLogout()
      requires Valid()
      modifies this
      ensures Valid()
      ensures user.None? && groups == [] && token == Null && selectedGroup == Null && groupDetails.None?
      ensures loadingGroupDetails == old(loadingGroupDetails) && loadingGroups == old(loadingGroups)
      ensures CurrentScreen() == SignIn
    {
      user := None;
      groups := [];
      token := Null;
      selectedGroup := Null;
      groupDetails := None;
    }

    /** The group view's `onBack`: clears only the selection and its details. */
    method Back()
      requires Valid()
      modifies this
      ensures Valid()
      ensures selectedGroup == Null && groupDetails.None?
      ensures user == old(user) && token == old(token) && groups == old(groups)
      ensures loadingGroupDetails == old(loadingGroupDetails) && loadingGroups == old(loadingGroups)
      ensures user.Some? ==> CurrentScreen() == Dashboard(loadingGroups)
    {
      selectedGroup := Null;
      groupDetails := None;
    }
  }
}
