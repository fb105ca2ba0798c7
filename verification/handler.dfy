/**
  The `interactionCreate` handler (src/index.ts, lines 132-220) as a transition
  function: given the configuration, the state and one invocation, `Step` gives
  the next state and what the handler answers. The bot class in module `RoleBot`
  runs the same decisions imperatively and is proved to agree with `Step`.
 */
module Handler {
  import opened Options
  import opened OrderedSet
  import opened Authorization
  import Listing

  /** The `user` option: the user's id and its mention text, which the platform renders. */
  datatype UserOption = UserOption(id: string, mention: string)

  /**
    One interaction event. `chatInput` is false for events that are not slash
    commands. `invokerId` is the invoking member and `administrator` says whether
    its permissions include the Administrator flag; `user` and `role` are the
    command's options when given.
   */
  datatype Invocation = Invocation(
    chatInput: bool,
    command: string,
    invokerId: string,
    administrator: bool,
    user: Option<UserOption>,
    role: Option<string>)

  /**
    What the handler does in the end: nothing at all, an ephemeral reply, or a
    rejected handler promise (a required option missing, or the target user not
    a member of the guild, so that fetching the member fails).
   */
  datatype Outcome = Ignored | Reply(content: string) | Rejected

  /**
    `allowed` is the `ALLOWED_ROLES` set in iteration order, `persisted` the
    `db.allowed_roles` array, `members` each guild member's role ids.
   */
  datatype State = State(
    allowed: seq<string>,
    persisted: seq<string>,
    members: map<string, set<string>>)

  const AccessDenied: string := "Access denied"
  const RoleNotAllowed: string := "Role not allowed"
  const AdminOnly: string := "Admin only"

  /**
    What every reachable state satisfies: the allow-list holds each id once,
    and the persisted array holds the same ids (it may repeat some of them
    until the first `add` or `remove` rewrites it).
   */
  predicate Inv(s: State) {
    NoDups(s.allowed) && Elements(s.persisted) == Elements(s.allowed)
  }

  /** The state at start-up: `db.allowed_roles` as loaded, and the set built from it. */
  function Load(loaded: seq<string>, members: map<string, set<string>>): (s: State)
    ensures Inv(s)
    ensures Elements(s.allowed) == Elements(loaded)
    ensures s.persisted == loaded && s.members == members
    ensures NoDups(loaded) ==> s.allowed == loaded
  {
    DedupOfNoDups(loaded);
    State(Dedup(loaded), loaded, members)
  }

  /**
    The invoking member as authorization sees it: the roles it holds in the guild
    right now (the same roles `grant` and `ungrant` change), and its Administrator
    flag. An id the guild does not know holds no role.
   */
  function InvokerOf(s: State, inv: Invocation): Invoker {
    Invoker(if inv.invokerId in s.members then s.members[inv.invokerId] else {}, inv.administrator)
  }

  /** The whole handler. */
  function Step(cfg: Config, s: State, inv: Invocation): (State, Outcome) {
    if !inv.chatInput then (s, Ignored)
    else if inv.command == "grant" || inv.command == "ungrant" then Membership(cfg, s, inv)
    else if inv.command == "roles" then (s, Reply(Listing.RolesContent(s.allowed)))
    else if inv.command == "add" || inv.command == "remove" then Administer(cfg, s, inv)
    else (s, Ignored)
  }

  /** `grant` and `ungrant`: change one member's roles, gated by authority and the allow-list. */
  function Membership(cfg: Config, s: State, inv: Invocation): (State, Outcome) {
    if !IsSupport(cfg, InvokerOf(s, inv)) && !IsAdmin(cfg, InvokerOf(s, inv)) then (s, Reply(AccessDenied))
    else if inv.user.None? || inv.role.None? then (s, Rejected)
    else
      var user, role := inv.user.value, inv.role.value;
      if role !in s.allowed then (s, Reply(RoleNotAllowed))
      else if user.id !in s.members then (s, Rejected)
      else if inv.command == "grant" then
        (s.(members := s.members[user.id := s.members[user.id] + {role}]),
         Reply("Granted " + Listing.Mention(role) + " to " + user.mention))
      else
        (s.(members := s.members[user.id := s.members[user.id] - {role}]),
         Reply("Removed " + Listing.Mention(role) + " from " + user.mention))
  }

  /** `add` and `remove`: edit the allow-list and persist it, admins only. */
  function Administer(cfg: Config, s: State, inv: Invocation): (State, Outcome) {
    if !IsAdmin(cfg, InvokerOf(s, inv)) then (s, Reply(AdminOnly))
    else if inv.role.None? then (s, Rejected)
    else
      var role := inv.role.value;
      if inv.command == "add" then
        var allowed := Insert(s.allowed, role);
        (s.(allowed := allowed, persisted := allowed),
         Reply("Added " + Listing.Mention(role) + " to allowed roles"))
      else
        var allowed := Delete(s.allowed, role);
        (s.(allowed := allowed, persisted := allowed),
         Reply("Removed " + Listing.Mention(role) + " from allowed roles"))
  }

  /** The five command names the bot registers. */
  predicate Known(command: string) {
    command in {"grant", "ungrant", "roles", "add", "remove"}
  }

  // ---------------------------------------------------------------------------
  // Properties of the handler
  // ---------------------------------------------------------------------------

  /** Every step keeps the state invariant. */
  lemma StepPreservesInv(cfg: Config, s: State, inv: Invocation)
    requires Inv(s)
    ensures Inv(Step(cfg, s, inv).0)
  {
  }

  /** Events that are not slash commands, and unknown command names, get no reply and change nothing. */
  lemma IgnoredEvents(cfg: Config, s: State, inv: Invocation)
    requires !inv.chatInput || !Known(inv.command)
    ensures Step(cfg, s, inv) == (s, Ignored)
  {
  }

  /** `grant`/`ungrant` from a member that is neither support nor admin is denied, and nothing changes. */
  lemma MembershipNeedsAuthority(cfg: Config, s: State, inv: Invocation)
    requires inv.chatInput && inv.command in {"grant", "ungrant"}
    requires !IsSupport(cfg, InvokerOf(s, inv)) && !IsAdmin(cfg, InvokerOf(s, inv))
    ensures Step(cfg, s, inv) == (s, Reply(AccessDenied))
  {
  }

  /**
    A role outside the allow-list is refused whoever asks, admins and members
    with the Administrator permission included; nothing changes.
   */
  lemma AllowListGatesEveryone(cfg: Config, s: State, inv: Invocation)
    requires inv.chatInput && inv.command in {"grant", "ungrant"}
    requires IsSupport(cfg, InvokerOf(s, inv)) || IsAdmin(cfg, InvokerOf(s, inv))
    requires inv.user.Some? && inv.role.Some? && inv.role.value !in s.allowed
    ensures Step(cfg, s, inv) == (s, Reply(RoleNotAllowed))
  {
  }

  /**
    An authorised `grant` of an allowed role gives it to the target member and
    changes nothing else; an `ungrant` takes it away.
   */
  lemma MembershipEffect(cfg: Config, s: State, inv: Invocation)
    requires inv.chatInput && inv.command in {"grant", "ungrant"}
    requires IsSupport(cfg, InvokerOf(s, inv)) || IsAdmin(cfg, InvokerOf(s, inv))
    requires inv.user.Some? && inv.role.Some? && inv.role.value in s.allowed
    requires inv.user.value.id in s.members
    ensures var (t, out) := Step(cfg, s, inv);
      var u, r := inv.user.value.id, inv.role.value;
      && t.allowed == s.allowed && t.persisted == s.persisted
      && t.members.Keys == s.members.Keys
      && (forall v | v in s.members && v != u :: t.members[v] == s.members[v])
      && (inv.command == "grant" ==>
            && t.members[u] == s.members[u] + {r} && r in t.members[u]
            && out == Reply("Granted <@&" + r + "> to " + inv.user.value.mention))
      && (inv.command == "ungrant" ==>
            && t.members[u] == s.members[u] - {r} && r !in t.members[u]
            && out == Reply("Removed <@&" + r + "> from " + inv.user.value.mention))
  {
  }

  /** `add`/`remove` from a non-admin, support-only members included, is refused; nothing changes. */
  lemma AllowListEditsAdminOnly(cfg: Config, s: State, inv: Invocation)
    requires inv.chatInput && inv.command in {"add", "remove"}
    requires !IsAdmin(cfg, InvokerOf(s, inv))
    ensures Step(cfg, s, inv) == (s, Reply(AdminOnly))
  {
  }

  /**
    An admin's `add` puts the role on the allow-list (last, if it was new) and
    keeps every other entry and every member's roles; a second identical `add`
    leaves the state as the first one left it.
   */
  lemma AddEffect(cfg: Config, s: State, inv: Invocation)
    requires inv.chatInput && inv.command == "add" && IsAdmin(cfg, InvokerOf(s, inv)) && inv.role.Some?
    ensures var t := Step(cfg, s, inv).0;
      && Elements(t.allowed) == Elements(s.allowed) + {inv.role.value}
      && t.allowed[..|s.allowed|] == s.allowed
      && t.members == s.members
      && Step(cfg, s, inv).1 == Reply("Added <@&" + inv.role.value + "> to allowed roles")
      && Step(cfg, t, inv).0 == t
  {
    InsertIdempotent(s.allowed, inv.role.value);
  }

  /**
    An admin's `remove` takes exactly that role off the allow-list: the other
    entries stay in their order, and no member's roles change.
   */
  lemma {:induction false} RemoveEffect(cfg: Config, s: State, inv: Invocation)
    requires Inv(s)
    requires inv.chatInput && inv.command == "remove" && IsAdmin(cfg, InvokerOf(s, inv)) && inv.role.Some?
    ensures var t := Step(cfg, s, inv).0;
      && Elements(t.allowed) == Elements(s.allowed) - {inv.role.value}
      && t.members == s.members
      && (forall i | 0 <= i < |s.allowed| && s.allowed[i] == inv.role.value ::
            t.allowed == s.allowed[..i] + s.allowed[i + 1..])
      && (inv.role.value !in s.allowed ==> t.allowed == s.allowed)
      && Step(cfg, s, inv).1 == Reply("Removed <@&" + inv.role.value + "> from allowed roles")
  {
    var r := inv.role.value;
    var d := Delete(s.allowed, r);
    assert "Removed " + Listing.Mention(r) + " from allowed roles" == "Removed <@&" + r + "> from allowed roles";
    assert Step(cfg, s, inv) == (s.(allowed := d, persisted := d), Reply("Removed <@&" + r + "> from allowed roles"));
    DeleteShape(s.allowed, r);
  }

  /**
    After an admin's `add` or `remove`, the persisted array is a duplicate-free
    copy of the allow-list, and loading it again at start-up rebuilds the same
    allow-list, in the same order.
   */
  lemma PersistedMirrorsAllowList(cfg: Config, s: State, inv: Invocation, members: map<string, set<string>>)
    requires Inv(s)
    requires inv.chatInput && inv.command in {"add", "remove"} && IsAdmin(cfg, InvokerOf(s, inv)) && inv.role.Some?
    ensures var t := Step(cfg, s, inv).0;
      && t.persisted == t.allowed
      && NoDups(t.persisted)
      && Elements(t.persisted) == Elements(t.allowed)
      && Load(t.persisted, members).allowed == t.allowed
  {
    var t := Step(cfg, s, inv).0;
    DedupOfNoDups(t.allowed);
  }

  /**
    `roles` changes nothing. Its reply lists each allowed id exactly once, in the
    set's order (reading the reply back gives the allow-list), or shows the
    placeholder when the list is empty.
   */
  lemma RolesReply(cfg: Config, s: State, inv: Invocation)
    requires Inv(s)
    requires forall i | 0 <= i < |s.allowed| :: Listing.OneLine(s.allowed[i])
    requires inv.chatInput && inv.command == "roles"
    ensures var (t, out) := Step(cfg, s, inv);
      && t == s
      && out.Reply?
      && Listing.ParseRolesContent(out.content) == Some(s.allowed)
      && NoDups(s.allowed)
      && (out.content == Listing.Header + Listing.Placeholder <==> s.allowed == [])
  {
    Listing.RolesContentRoundTrip(s.allowed);
    Listing.PlaceholderIffEmpty(s.allowed);
  }

  /** After an admin adds a role, `roles` lists it, and lists it once. */
  lemma AddThenRolesListsOnce(cfg: Config, s: State, add: Invocation, roles: Invocation)
    requires Inv(s)
    requires forall i | 0 <= i < |s.allowed| :: Listing.OneLine(s.allowed[i])
    requires add.chatInput && add.command == "add" && IsAdmin(cfg, InvokerOf(s, add))
    requires add.role.Some? && Listing.OneLine(add.role.value)
    requires roles.chatInput && roles.command == "roles"
    ensures var t := Step(cfg, s, add).0;
      var out := Step(cfg, t, roles).1;
      && out.Reply?
      && Listing.ParseRolesContent(out.content) == Some(t.allowed)
      && add.role.value in t.allowed
      && NoDups(t.allowed)
  {
    var t := Step(cfg, s, add).0;
    var r := add.role.value;
    assert t.allowed == Insert(s.allowed, r);
    forall i | 0 <= i < |t.allowed| ensures Listing.OneLine(t.allowed[i]) {
      if i < |s.allowed| {
        assert t.allowed[i] == s.allowed[i];
      } else {
        assert t.allowed[i] == r;
      }
    }
    RolesReply(cfg, t, roles);
  }

  /** After an admin removes a role, `roles` no longer lists it. */
  lemma RemoveThenRolesOmits(cfg: Config, s: State, remove: Invocation, roles: Invocation)
    requires Inv(s)
    requires forall i | 0 <= i < |s.allowed| :: Listing.OneLine(s.allowed[i])
    requires remove.chatInput && remove.command == "remove" && IsAdmin(cfg, InvokerOf(s, remove))
    requires remove.role.Some?
    requires roles.chatInput && roles.command == "roles"
    ensures var t := Step(cfg, s, remove).0;
      var out := Step(cfg, t, roles).1;
      && out.Reply?
      && Listing.ParseRolesContent(out.content) == Some(t.allowed)
      && remove.role.value !in t.allowed
  {
    var t := Step(cfg, s, remove).0;
    assert t.allowed == Delete(s.allowed, remove.role.value);
    forall i | 0 <= i < |t.allowed| ensures Listing.OneLine(t.allowed[i]) {
      assert t.allowed[i] in Elements(t.allowed);
      assert t.allowed[i] in Elements(s.allowed);
      var j :| 0 <= j < |s.allowed| && s.allowed[j] == t.allowed[i];
    }
    RolesReply(cfg, t, roles);
  }

  /**
    Authority is read from the invoker's current guild roles, which `grant`
    changes. So once the admin role is on the allow-list, a member that holds
    only the support role can grant the admin role to itself, and its next
    `add` then succeeds where it was refused before.
   */
  lemma SelfGrantMakesAdmin(cfg: Config, s: State, grant: Invocation, add: Invocation)
    requires cfg.admin != cfg.support
    requires grant.chatInput && grant.command == "grant" && !grant.administrator
    requires grant.invokerId in s.members && s.members[grant.invokerId] == {cfg.support}
    requires grant.user.Some? && grant.user.value.id == grant.invokerId
    requires grant.role == Some(cfg.admin) && cfg.admin in s.allowed
    requires add.chatInput && add.command == "add" && !add.administrator && add.role.Some?
    requires add.invokerId == grant.invokerId
    ensures Step(cfg, s, add) == (s, Reply(AdminOnly))
    ensures var t := Step(cfg, s, grant).0;
      && t.members[grant.invokerId] == {cfg.support, cfg.admin}
      && IsAdmin(cfg, InvokerOf(t, add))
      && Step(cfg, t, add).0.allowed == Insert(t.allowed, add.role.value)
      && Step(cfg, t, add).1 == Reply("Added <@&" + add.role.value + "> to allowed roles")
  {
  }

  /** Once an admin removes a role, a later authorised `grant` of it is refused. */
  lemma RemoveThenGrantRefused(cfg: Config, s: State, remove: Invocation, grant: Invocation)
    requires Inv(s)
    requires remove.chatInput && remove.command == "remove" && IsAdmin(cfg, InvokerOf(s, remove)) && remove.role.Some?
    requires grant.chatInput && grant.command == "grant"
    requires IsSupport(cfg, InvokerOf(s, grant)) || IsAdmin(cfg, InvokerOf(s, grant))
    requires grant.user.Some? && grant.role == remove.role
    ensures var t := Step(cfg, s, remove).0;
      Step(cfg, t, grant) == (t, Reply(RoleNotAllowed))
  {
  }

  /**
    With "R1" the only allowed role, an admin grants R1 to member U, who gains
    it; a grant of R2, which is not allowed, is refused and U keeps its roles.
   */
  lemma GrantScenario(cfg: Config, roles: set<string>)
    ensures var s := State(["R1"], ["R1"], map["U" := roles]);
      var u := UserOption("U", "<@U>");
      var (t, out) := Step(cfg, s, Invocation(true, "grant", "A", true, Some(u), Some("R1")));
      && t.members["U"] == roles + {"R1"}
      && out == Reply("Granted <@&R1> to <@U>")
      && Step(cfg, t, Invocation(true, "grant", "A", true, Some(u), Some("R2"))) == (t, Reply(RoleNotAllowed))
  {
  }
}
