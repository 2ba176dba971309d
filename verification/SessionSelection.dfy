/** The community and group selected in a dashboard session. */
module SessionSelection {
  import opened Wrappers

  type Id = nat

  /** One entry of the user's group list: a community and the groups the user may manage in it. */
  datatype CommunityGroups = CommunityGroups(community: Id, groups: seq<Id>)
  type Listing = seq<CommunityGroups>

  /** Which community every group belongs to. */
  type Directory = map<Id, Id>

  datatype Selection = Selection(community: Option<Id>, group: Option<Id>)

  datatype Policy = Optional | Required

  datatype Permission = Read | Other(name: string)

  /** The group list tells the truth about membership. */
  ghost predicate Truthful(dir: Directory, groups: Listing) {
    forall i, j :: 0 <= i < |groups| && 0 <= j < |groups[i].groups| ==>
      groups[i].groups[j] in dir && dir[groups[i].groups[j]] == groups[i].community
  }

  /** The selected group lies inside the selected community. */
  ghost predicate Inside(dir: Directory, s: Selection) {
    s.group.Some? ==> s.community.Some? && s.group.value in dir && dir[s.group.value] == s.community.value
  }

  /** The entry at `i` is for this community and no earlier one is. */
  predicate FirstOf(groups: Listing, community: Id, i: int) {
    0 <= i < |groups| && groups[i].community == community && forall j :: 0 <= j < i ==> groups[j].community != community
  }

  /** The first entry for a community, if the list has one. */
  function FindCommunity(groups: Listing, community: Id): (r: Option<CommunityGroups>)
    ensures r.Some? ==> exists i :: FirstOf(groups, community, i) && groups[i] == r.value
    ensures r.None? <==> forall i :: 0 <= i < |groups| ==> groups[i].community != community
  {
    if groups == [] then None
    else if groups[0].community == community then Some(groups[0])
    else
      assert forall i :: 1 <= i < |groups| ==> groups[i] == groups[1..][i - 1];
      FindCommunity(groups[1..], community)
  }

  /** The entry at `i` has groups and no earlier one has. */
  predicate FirstListed(groups: Listing, i: int) {
    0 <= i < |groups| && groups[i].groups != [] && forall j :: 0 <= j < i ==> groups[j].groups == []
  }

  function FirstWithGroups(groups: Listing): (r: Option<CommunityGroups>)
    ensures r.Some? ==> exists i :: FirstListed(groups, i) && groups[i] == r.value
    ensures r.None? <==> forall i :: 0 <= i < |groups| ==> groups[i].groups == []
  {
    if groups == [] then None
    else if groups[0].groups != [] then Some(groups[0])
    else
      assert forall i :: 1 <= i < |groups| ==> groups[i] == groups[1..][i - 1];
      FirstWithGroups(groups[1..])
  }

  function FirstGroupOf(groups: Listing, community: Id): (r: Option<Id>)
    ensures r.Some? <==> exists i :: FirstOf(groups, community, i) && groups[i].groups != []
    ensures forall i :: FirstOf(groups, community, i) && groups[i].groups != [] ==> r == Some(groups[i].groups[0])
  {
    var c := FindCommunity(groups, community);
    if c.Some? && c.value.groups != [] then Some(c.value.groups[0]) else None
  }

  lemma FirstGroupInside(dir: Directory, groups: Listing, community: Id)
    requires Truthful(dir, groups)
    ensures Inside(dir, Selection(Some(community), FirstGroupOf(groups, community)))
  {
    var c := FindCommunity(groups, community);
    if c.Some? && c.value.groups != [] {
      var i :| 0 <= i < |groups| && groups[i] == c.value;
      assert groups[i].groups[0] in dir;
    }
  }

  /** A session whose two keys the helpers insert and remove. */
  class Session {
    var community: Option<Id>
    var group: Option<Id>

    ghost function Value(): Selection
      reads this
    {
      Selection(community, group)
    }

    /** Selection at login. */
    method SelectFirstCommunityAndGroup(groups: Result<Listing>, communities: Result<seq<Id>>) returns (ok: bool)
      modifies this
      ensures Value() == LogInSelection(old(Value()), groups, communities)
      ensures ok <==> groups.Ok? && (groups.value == [] ==> communities.Ok?)
      ensures ok && groups.value != [] ==>
        && community == Some(groups.value[0].community)
        && group == if groups.value[0].groups != [] then Some(groups.value[0].groups[0]) else old(group)
      ensures ok && groups.value == [] ==>
        group == old(group) && community == if communities.value != [] then Some(communities.value[0]) else old(community)
      ensures !ok ==> Value() == old(Value())
    {
      if groups.Err? {
        return false;
      }
      if groups.value != [] {
        community := Some(groups.value[0].community);
        if groups.value[0].groups != [] {
          group := Some(groups.value[0].groups[0]);
        }
      } else {
        if communities.Err? {
          return false;
        }
        if communities.value != [] {
          community := Some(communities.value[0]);
        }
      }
      ok := true;
    }

    /** Selects a community and aligns the group with it. */
    method SyncSelectedCommunityAndGroup(groups: Result<Listing>, selected: Id, policy: Policy) returns (r: Result<()>)
      modifies this
      ensures Value() == SyncSelection(old(Value()), groups, selected, policy)
      ensures r.Ok? <==> groups.Ok? && (policy == Required ==> FirstGroupOf(groups.value, selected).Some?)
      ensures r.Ok? ==> community == Some(selected) && group == FirstGroupOf(groups.value, selected)
      ensures r.Err? ==> Value() == old(Value())
    {
      if groups.Err? {
        return Err(groups.error);
      }
      var first := FirstGroupOf(groups.value, selected);
      if policy == Required && first.None? {
        return Err("forbidden");
      }
      community := Some(selected);
      if first.Some? {
        group := first;
      } else {
        group := None;
      }
      r := Ok(());
    }

    /** Repairs an incomplete pair, preferring the selected community. */
    method SelectFirstAccessibleGroup(groups: Result<Listing>, selected: Option<Id>) returns (r: Result<Option<(Id, Id)>>)
      modifies this
      ensures Value() == RepairedGroup(old(Value()), groups, selected)
      ensures r.Ok? && r.value.Some? ==> Value() == Selection(Some(r.value.value.0), Some(r.value.value.1))
      ensures r.Err? <==> groups.Err?
      ensures r.Ok? && selected.Some? && FirstGroupOf(groups.value, selected.value).Some? ==>
        Value() == Selection(selected, FirstGroupOf(groups.value, selected.value))
      ensures r.Ok? && (selected.Some? ==> FirstGroupOf(groups.value, selected.value).None?) ==>
        forall i :: FirstListed(groups.value, i) ==>
          Value() == Selection(Some(groups.value[i].community), Some(groups.value[i].groups[0]))
      ensures r.Err? || r.value.None? ==> Value() == old(Value())
      ensures r.Ok? && r.value.None? <==> groups.Ok? && forall i :: 0 <= i < |groups.value| ==> groups.value[i].groups == []
    {
      if groups.Err? {
        return Err(groups.error);
      }
      var preferred := if selected.Some? then FindCommunity(groups.value, selected.value) else None;
      if preferred.Some? && preferred.value.groups == [] {
        preferred := None;
      }
      var first := if preferred.Some? then preferred else FirstWithGroups(groups.value);
      if first.None? {
        return Ok(None);
      }
      community := Some(first.value.community);
      group := Some(first.value.groups[0]);
      r := Ok(Some((first.value.community, first.value.groups[0])));
    }

    /** Repairs a missing community. */
    method SelectFirstAccessibleCommunity(communities: Result<seq<Id>>, groups: Result<Listing>) returns (r: Result<Option<Id>>)
      modifies this
      ensures Value() == RepairedCommunity(old(Value()), communities, groups)
      ensures r.Err? <==> communities.Err? || (communities.value != [] && groups.Err?)
      ensures r.Ok? ==> r.value == if communities.value == [] then None else Some(communities.value[0])
      ensures r.Ok? && r.value.Some? ==> community == r.value && group == FirstGroupOf(groups.value, communities.value[0])
      ensures r.Err? || r.value.None? ==> Value() == old(Value())
    {
      if communities.Err? {
        return Err(communities.error);
      }
      if communities.value == [] {
        return Ok(None);
      }
      var synced := SyncSelectedCommunityAndGroup(groups, communities.value[0], Optional);
      r := if synced.Ok? then Ok(Some(communities.value[0])) else Err(synced.error);
    }

    /**
     The selected-group middleware. It hands a request on only with the pair the session holds, and
     only if the permission query answered true for exactly that pair.
     */
    method CheckSelectedGroupPermission(loggedIn: bool, groups: Result<Listing>, permitted: (Id, Id, Permission) -> Result<bool>, permission: Permission)
      returns (r: Passage)
      modifies this
      ensures r.Handed? ==>
        && Value() == Selection(Some(r.community), Some(r.group)) && loggedIn
        && permitted(r.community, r.group, permission) == Ok(true)
      ensures loggedIn && community.Some? && group.Some? && permitted(community.value, group.value, permission) == Ok(true)
        ==> r.Handed?
      ensures Value() == MiddlewareSelection(old(Value()), loggedIn, groups, permitted, permission)
      ensures old(community).Some? && old(group).Some? && loggedIn ==>
        r == Verdict(permitted(old(community).value, old(group).value, permission), permitted(old(community).value, old(group).value, Read), Handed(old(community).value, old(group).value))
      ensures r.LoggedOut? ==> Value() == Selection(None, None)
      ensures !loggedIn ==> r == Refused(403)
    {
      if !loggedIn {
        return Refused(403);
      }
      if community.None? || group.None? {
        var repaired := SelectFirstAccessibleGroup(groups, community);
        if repaired.Err? {
          return Refused(500);
        }
        if repaired.value.None? {
          return Redirected;
        }
      }
      var c, g := community.value, group.value;
      var has := permitted(c, g, permission);
      if has.Err? {
        return Refused(500);
      }
      if has.value {
        return Handed(c, g);
      }
      if permission != Read {
        var canRead := permitted(c, g, Read);
        if canRead.Err? {
          return Refused(500);
        }
        if canRead.value {
          return Refused(403);
        }
      }
      community, group := None, None;
      r := LoggedOut;
    }

    /**
     The path-group middleware and the selection behind it: a group is selected exactly if the query says
     it belongs to the selected community and the user has the permission there.
     */
    method SelectGroup(loggedIn: bool, g: Id, belongs: (Id, Id) -> Result<bool>, permitted: (Id, Id, Permission) -> Result<bool>, permission: Permission)
      returns (r: Passage)
      modifies this
      ensures Value() == PathGroupSelection(old(Value()), loggedIn, g, belongs, permitted, permission)
      ensures r.Handed? ==> r.group == g && Value() == Selection(Some(r.community), Some(r.group))
      ensures !r.Handed? ==> Value() == old(Value())
      ensures r.Handed? <==>
        loggedIn && community.Some? && belongs(community.value, g) == permitted(community.value, g, permission) == Ok(true)
      ensures r.Redirected? <==> loggedIn && community.None?
    {
      if !loggedIn {
        return Refused(403);
      }
      if community.None? {
        return Redirected;
      }
      var c := community.value;
      var belonging := belongs(c, g);
      if belonging.Err? {
        return Refused(500);
      }
      if !belonging.value {
        return Refused(403);
      }
      var has := permitted(c, g, permission);
      if has.Err? {
        return Refused(500);
      }
      if !has.value {
        return Refused(403);
      }
      group := Some(g);
      r := Handed(c, g);
    }

    /** After a group was added to the selected community: it is selected if none was. */
    method SelectAddedGroup(g: Id)
      modifies this
      ensures Value() == AddedSelection(old(Value()), g)
      ensures community == old(community) && group == if old(group).None? then Some(g) else old(group)
    {
      if group.None? {
        group := Some(g);
      }
    }

    /** After a group of the selected community was deleted: another one of it takes its place, or none. */
    method ReplaceDeletedGroup(g: Id, groups: Result<Listing>) returns (ok: bool)
      requires community.Some?
      modifies this
      ensures Value() == DeletedSelection(old(Value()), g, groups)
      ensures ok <==> old(group) == Some(g) ==> groups.Ok?
      ensures community == old(community) && (old(group) != Some(g) || groups.Err? ==> group == old(group))
      ensures old(group) == Some(g) && groups.Ok? ==> group == FirstGroupOf(groups.value, community.value)
    {
      if group == Some(g) {
        if groups.Err? {
          return false;
        }
        group := FirstGroupOf(groups.value, community.value);
      }
      ok := true;
    }

    /** After an invitation was accepted: a session without a community selects as at login. */
    method SelectAfterInvitation(groups: Result<Listing>, communities: Result<seq<Id>>) returns (ok: bool)
      modifies this
      ensures Value() == InvitedSelection(old(Value()), groups, communities)
      ensures old(community).Some? ==> ok && Value() == old(Value())
      ensures old(community).None? ==> Value() == LogInSelection(old(Value()), groups, communities)
    {
      if community.Some? {
        return true;
      }
      ok := SelectFirstCommunityAndGroup(groups, communities);
    }

    /** The selected-community middleware: it hands on the session's community, for which the query answered true. */
    method CheckSelectedCommunityPermission(loggedIn: bool, communities: Result<seq<Id>>, groups: Result<Listing>, permitted: (Id, Permission) -> Result<bool>, permission: Permission)
      returns (r: Passage)
      modifies this
      ensures r.HandedCommunity? ==>
        && community == Some(r.selected) && loggedIn && permitted(r.selected, permission) == Ok(true)
      ensures loggedIn && community.Some? && permitted(community.value, permission) == Ok(true) ==> r.HandedCommunity?
      ensures Value() == CommunityMiddlewareSelection(old(Value()), loggedIn, communities, groups, permitted, permission)
      ensures old(community).Some? && loggedIn ==>
        r == Verdict(permitted(old(community).value, permission), permitted(old(community).value, Read), HandedCommunity(old(community).value))
      ensures r.LoggedOut? ==> Value() == Selection(None, None)
      ensures !loggedIn ==> r == Refused(403)
      ensures !r.Handed?
    {
      if !loggedIn {
        return Refused(403);
      }
      if community.None? {
        var repaired := SelectFirstAccessibleCommunity(communities, groups);
        if repaired.Err? {
          return Refused(500);
        }
        if repaired.value.None? {
          return Redirected;
        }
      }
      var c := community.value;
      var has := permitted(c, permission);
      if has.Err? {
        return Refused(500);
      }
      if has.value {
        return HandedCommunity(c);
      }
      if permission != Read {
        var canRead := permitted(c, Read);
        if canRead.Err? {
          return Refused(500);
        }
        if canRead.value {
          return Refused(403);
        }
      }
      community, group := None, None;
      r := LoggedOut;
    }
  }

  datatype Passage =
    | Handed(community: Id, group: Id)
    | HandedCommunity(selected: Id)
    | Refused(code: nat)
    | Redirected
    | LoggedOut

  /** Handed on with the permission; forbidden if reading is still allowed; logged out if even that is not. */
  function Verdict(has: Result<bool>, canRead: Result<bool>, handed: Passage): Passage {
    match has
    case Err(_) => Refused(500)
    case Ok(true) => handed
    case Ok(false) =>
      match canRead
      case Err(_) => Refused(500)
      case Ok(read) => if read then Refused(403) else LoggedOut
  }

  // ---- What the helpers do to the selection ---------------------------------------------------------

  function LogInSelection(s: Selection, groups: Result<Listing>, communities: Result<seq<Id>>): Selection {
    if groups.Err? then s
    else if groups.value != [] then
      Selection(Some(groups.value[0].community),
                if groups.value[0].groups != [] then Some(groups.value[0].groups[0]) else s.group)
    else if communities.Ok? && communities.value != [] then s.(community := Some(communities.value[0]))
    else s
  }

  function SyncSelection(s: Selection, groups: Result<Listing>, selected: Id, policy: Policy): Selection {
    if groups.Ok? && (policy == Required ==> FirstGroupOf(groups.value, selected).Some?)
    then Selection(Some(selected), FirstGroupOf(groups.value, selected))
    else s
  }

  function RepairedGroup(s: Selection, groups: Result<Listing>, selected: Option<Id>): Selection {
    if groups.Err? then s
    else if selected.Some? && FirstGroupOf(groups.value, selected.value).Some? then
      Selection(selected, FirstGroupOf(groups.value, selected.value))
    else
      var first := FirstWithGroups(groups.value);
      if first.Some? then Selection(Some(first.value.community), Some(first.value.groups[0])) else s
  }

  function RepairedCommunity(s: Selection, communities: Result<seq<Id>>, groups: Result<Listing>): Selection {
    if communities.Ok? && communities.value != [] then SyncSelection(s, groups, communities.value[0], Optional) else s
  }

  function MiddlewareSelection(s: Selection, loggedIn: bool, groups: Result<Listing>, permitted: (Id, Id, Permission) -> Result<bool>, permission: Permission): Selection {
    if !loggedIn then s
    else
      var t := if s.community.None? || s.group.None? then RepairedGroup(s, groups, s.community) else s;
      if t.community.None? || t.group.None? then t
      else
        var has := permitted(t.community.value, t.group.value, permission);
        var canRead := permitted(t.community.value, t.group.value, Read);
        if has == Ok(false) && canRead == Ok(false) then Selection(None, None) else t
  }

  function PathGroupSelection(s: Selection, loggedIn: bool, g: Id, belongs: (Id, Id) -> Result<bool>, permitted: (Id, Id, Permission) -> Result<bool>, permission: Permission): Selection {
    if loggedIn && s.community.Some? && belongs(s.community.value, g) == Ok(true) && permitted(s.community.value, g, permission) == Ok(true)
    then s.(group := Some(g))
    else s
  }

  function AddedSelection(s: Selection, g: Id): Selection {
    if s.group.None? then s.(group := Some(g)) else s
  }

  function DeletedSelection(s: Selection, g: Id, groups: Result<Listing>): Selection
    requires s.community.Some?
  {
    if s.group == Some(g) && groups.Ok? then s.(group := FirstGroupOf(groups.value, s.community.value)) else s
  }

  function InvitedSelection(s: Selection, groups: Result<Listing>, communities: Result<seq<Id>>): Selection {
    if s.community.None? then LogInSelection(s, groups, communities) else s
  }

  function CommunityMiddlewareSelection(s: Selection, loggedIn: bool, communities: Result<seq<Id>>, groups: Result<Listing>, permitted: (Id, Permission) -> Result<bool>, permission: Permission): Selection {
    if !loggedIn then s
    else
      var t := if s.community.None? then RepairedCommunity(s, communities, groups) else s;
      if t.community.None? then t
      else
        var has := permitted(t.community.value, permission);
        var canRead := permitted(t.community.value, Read);
        if has == Ok(false) && canRead == Ok(false) then Selection(None, None) else t
  }

  // ---- Runs -------------------------------------------------------------------------------------------

  /** A request that may touch the selection, with the database replies it gets. */
  datatype Action =
    | LogIn(groups: Result<Listing>, communities: Result<seq<Id>>)
    | LogOut
    | SelectCommunity(groups: Result<Listing>, selected: Id, policy: Policy)
    | SelectGroup(group: Id, belongs: (Id, Id) -> Result<bool>, permitted: (Id, Id, Permission) -> Result<bool>, permission: Permission)
    | AcceptInvitation(groups: Result<Listing>, communities: Result<seq<Id>>)
    | UseCommunityDashboard(communities: Result<seq<Id>>, groups: Result<Listing>, allowed: (Id, Permission) -> Result<bool>, permission: Permission)
    | UseGroupDashboard(groups: Result<Listing>, permitted: (Id, Id, Permission) -> Result<bool>, permission: Permission)
    | AddGroup(group: Id)
    | DeleteGroup(group: Id, groups: Result<Listing>)

  datatype State = State(session: Selection, dir: Directory)

  ghost predicate TruthfulReply(dir: Directory, groups: Result<Listing>) {
    groups.Ok? ==> Truthful(dir, groups.value)
  }

  /** A query that says yes to a group and a community is right. */
  ghost predicate TruthfulQuery(dir: Directory, belongs: (Id, Id) -> Result<bool>) {
    forall c, g :: belongs(c, g) == Ok(true) ==> g in dir && dir[g] == c
  }

  /** The database replies are truthful; adding and deleting a group needs a selected community. */
  ghost predicate Enabled(s: State, a: Action) {
    match a
    case LogIn(groups, _) => TruthfulReply(s.dir, groups)
    case LogOut => true
    case SelectCommunity(groups, _, _) => TruthfulReply(s.dir, groups)
    case SelectGroup(_, belongs, _, _) => TruthfulQuery(s.dir, belongs)
    case AcceptInvitation(groups, _) => TruthfulReply(s.dir, groups)
    case UseCommunityDashboard(_, groups, _, _) => TruthfulReply(s.dir, groups)
    case UseGroupDashboard(groups, _, _) => TruthfulReply(s.dir, groups)
    case AddGroup(g) => s.session.community.Some? && g !in s.dir
    case DeleteGroup(_, groups) => s.session.community.Some? && TruthfulReply(s.dir, groups)
  }

  ghost function Apply(s: State, a: Action): State
    requires Enabled(s, a)
  {
    match a
    case LogIn(groups, communities) => s.(session := LogInSelection(s.session, groups, communities))
    case LogOut => s.(session := Selection(None, None))
    case SelectCommunity(groups, c, policy) => s.(session := SyncSelection(s.session, groups, c, policy))
    case SelectGroup(g, belongs, permitted, permission) =>
      s.(session := PathGroupSelection(s.session, true, g, belongs, permitted, permission))
    case AcceptInvitation(groups, communities) => s.(session := InvitedSelection(s.session, groups, communities))
    case UseCommunityDashboard(communities, groups, allowed, permission) =>
      s.(session := CommunityMiddlewareSelection(s.session, true, communities, groups, allowed, permission))
    case UseGroupDashboard(groups, permitted, permission) =>
      s.(session := MiddlewareSelection(s.session, true, groups, permitted, permission))
    case AddGroup(g) => State(AddedSelection(s.session, g), s.dir[g := s.session.community.value])
    case DeleteGroup(g, groups) => s.(session := DeletedSelection(s.session, g, groups))
  }

  /** The community a login would select. */
  function LogInCommunity(groups: Result<Listing>, communities: Result<seq<Id>>): Option<Id> {
    if groups.Err? then None
    else if groups.value != [] then Some(groups.value[0].community)
    else if communities.Ok? && communities.value != [] then Some(communities.value[0])
    else None
  }

  /** A login selects a community without a group of its own. */
  predicate LogInLeavesGroup(groups: Result<Listing>, communities: Result<seq<Id>>) {
    LogInCommunity(groups, communities).Some? && (groups.value == [] || groups.value[0].groups == [])
  }

  /**
   Exact condition for a login: a group selected before stays selected when the login finds a
   community but no group, so the selection is sound afterwards unless that old group lies elsewhere.
   */
  lemma {:induction false} LogInKeepsInsideIff(dir: Directory, s: Selection, groups: Result<Listing>, communities: Result<seq<Id>>)
    requires Inside(dir, s) && TruthfulReply(dir, groups)
    ensures Inside(dir, LogInSelection(s, groups, communities)) <==>
      !(LogInLeavesGroup(groups, communities) && s.group.Some? && s.community != LogInCommunity(groups, communities))
  {
    if groups.Ok? && groups.value != [] && groups.value[0].groups != [] {
      assert groups.value[0].groups[0] in dir;
    }
  }

  /** Group 7 of community 1 stays selected when a login finds only community 2. */
  lemma LogInWitness()
    ensures var dir, s := map[7 := 1], Selection(Some(1), Some(7));
            var t := LogInSelection(s, Ok([]), Ok([2]));
            Inside(dir, s) && t == Selection(Some(2), Some(7)) && !Inside(dir, t)
  {
  }

  lemma RepairedGroupInside(dir: Directory, s: Selection, groups: Result<Listing>, selected: Option<Id>)
    requires Inside(dir, s) && TruthfulReply(dir, groups)
    ensures Inside(dir, RepairedGroup(s, groups, selected))
  {
    if groups.Ok? {
      if selected.Some? { FirstGroupInside(dir, groups.value, selected.value); }
      var first := FirstWithGroups(groups.value);
      if first.Some? {
        var i :| 0 <= i < |groups.value| && groups.value[i] == first.value;
        assert groups.value[i].groups[0] in dir;
      }
    }
  }

  lemma SyncInside(dir: Directory, s: Selection, groups: Result<Listing>, selected: Id, policy: Policy)
    requires Inside(dir, s) && TruthfulReply(dir, groups)
    ensures Inside(dir, SyncSelection(s, groups, selected, policy))
  {
    if groups.Ok? { FirstGroupInside(dir, groups.value, selected); }
  }

  /** A login in a session without a selected group; anything else at any time. */
  ghost predicate Orderly(s: State, a: Action) {
    Enabled(s, a) && (a.LogIn? ==> s.session.group.None?)
  }

  lemma {:induction false} StepKeepsInside(s: State, a: Action)
    requires Inside(s.dir, s.session) && Orderly(s, a)
    ensures Inside(Apply(s, a).dir, Apply(s, a).session)
  {
    hide FirstGroupOf, Truthful;
    match a
    case LogIn(groups, communities) => LogInKeepsInsideIff(s.dir, s.session, groups, communities);
    case AcceptInvitation(groups, communities) => LogInKeepsInsideIff(s.dir, s.session, groups, communities);
    case SelectCommunity(groups, c, policy) => SyncInside(s.dir, s.session, groups, c, policy);
    case UseCommunityDashboard(communities, groups, _, _) =>
      if communities.Ok? && communities.value != [] { SyncInside(s.dir, s.session, groups, communities.value[0], Optional); }
    case UseGroupDashboard(groups, _, _) => RepairedGroupInside(s.dir, s.session, groups, s.session.community);
    case DeleteGroup(_, groups) =>
      if groups.Ok? { FirstGroupInside(s.dir, groups.value, s.session.community.value); }
    case _ =>
  }

  ghost predicate IsRun(s: State, run: seq<Action>)
    decreases |run|
  {
    run == [] || (Orderly(s, run[0]) && IsRun(Apply(s, run[0]), run[1..]))
  }

  ghost function Final(s: State, run: seq<Action>): State
    requires IsRun(s, run)
    decreases |run|
  {
    if run == [] then s else Final(Apply(s, run[0]), run[1..])
  }

  /**
   In every run of logins into sessions without a selected group, dashboard selections, syncs, repairs,
   group additions and deletions, the selected group stays inside the selected community.
   */
  lemma {:induction false} SelectionStaysInside(s: State, run: seq<Action>)
    requires IsRun(s, run) && Inside(s.dir, s.session)
    ensures Inside(Final(s, run).dir, Final(s, run).session)
    decreases |run|
  {
    hide Apply, Enabled;
    if run != [] {
      StepKeepsInside(s, run[0]);
      SelectionStaysInside(Apply(s, run[0]), run[1..]);
    }
  }
}
