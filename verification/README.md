# Superintendent role bot: a verified model of its command handler

Superintendent is a chat-platform bot. Members with the support or admin role can
grant and revoke a restricted set of roles. Admins decide which roles are on that
allow-list. Everything happens in one `interactionCreate` listener over two pieces of
state:

- the allow-list, a JavaScript `Set` of role ids (`ALLOWED_ROLES`) mirrored into the
  `db.allowed_roles` array of the database file;
- the guild members' roles, which `grant` and `ungrant` change through the platform.

This Dafny project models that listener and proves its gating rules.

- `OrderedSet` (ordered_set.dfy) models the JavaScript `Set` as a duplicate-free
  sequence in insertion order. The order matters: spreading the set gives both the
  order of the `roles` reply and the persisted array. `Insert` is `add`, `Delete` is
  `delete`, and `Dedup` is `new Set(array)`.
- `Authorization` (authorization.dfy) derives the `isAdmin` and `isSupport` flags. The
  invoker's roles are its current roles in the members' role map, so a `grant` to
  oneself changes one's own authority.
- `Listing` (listing.dfy) formats the `roles` reply. It also defines how to read such
  a reply back into role ids, and proves that reading recovers the listed ids.
- `Handler` (handler.dfy) is the listener as a pure transition function
  `Step(config, state, invocation) -> (state', outcome)`, with the lemmas about it.
- `RoleBot` (bot.dfy) is the running bot as a class. Its fields are `allowed`,
  `persisted` and `memberRoles`. `Bot.Handle` follows the listener branch by branch
  and is proved to agree with `Step`.

An outcome is one of three things:

- `Ignored`: no reply.
- `Reply(content)`: an ephemeral reply.
- `Rejected`: the handler's promise rejects. This happens when a required option is
  missing (`getUser`/`getRole` with `required = true` throw), or when the target user
  is not a guild member (fetching the member fails).

## Model

| member | source | states |
|---|---|---|
| `OrderedSet.Insert` | src/index.ts:201 | `add` puts the id in the set and keeps existing entries in place (the new one goes last); the set stays duplicate-free |
| `OrderedSet.Delete` | src/index.ts:210 | `delete` removes exactly that id and keeps every other one; the set stays duplicate-free |
| `OrderedSet.Dedup` | src/index.ts:55 | `new Set(array)` holds exactly the array's ids, each once |
| `OrderedSet.InsertIdempotent` | src/index.ts:201 | adding an id twice gives the same set as adding it once; adding a present id changes nothing |
| `OrderedSet.DeleteAt` | src/index.ts:210 | on a duplicate-free list, `delete` cuts out just the one entry holding the id, keeping the order of the rest |
| `OrderedSet.DeleteAbsent` | src/index.ts:210 | deleting an id that is not in the set leaves it unchanged |
| `OrderedSet.DedupOfNoDups` | src/index.ts:55 | building a set from a duplicate-free array gives back that array, in the same order |
| `Authorization.AdministratorImpliesBoth` | src/index.ts:138-144 | the Administrator permission makes the invoker both admin and support |
| `Authorization.RolesDecideWithoutAdministrator` | src/index.ts:138-144 | without that permission, `isAdmin` holds exactly when the invoker has the ADMIN role and `isSupport` exactly when it has the SUPPORT role; a support-only member is not admin |
| `Listing.PlaceholderIffEmpty` | src/index.ts:182-187 | the `roles` reply shows "*No roles configured*" exactly when the allow-list is empty |
| `Listing.SplitJoin` | src/index.ts:182-184 | cutting the newline-joined list at its newlines gives back the lines |
| `Listing.MentionRoundTrip` | src/index.ts:183 | the id can be read back out of its mention |
| `Listing.MentionsRoundTrip` | src/index.ts:183 | the ids can be read back out of the list of mentions, in order |
| `Listing.RolesContentRoundTrip` | src/index.ts:181-189 | reading the `roles` reply back gives exactly the listed ids, in order and with their multiplicity |
| `Handler.Load` | src/index.ts:41-55 | at start-up the allow-list holds exactly the loaded ids, each once; a duplicate-free loaded array is kept in its order; the persisted array is the loaded one and the members' roles are as given |
| `Handler.StepPreservesInv` | src/index.ts:132-220 | every invocation keeps the allow-list duplicate-free and the persisted array holding the same ids |
| `Handler.IgnoredEvents` | src/index.ts:132-220 | non-command events and unknown command names get no reply and change no state |
| `Handler.MembershipNeedsAuthority` | src/index.ts:148-151 | `grant`/`ungrant` from a member who is neither support nor admin replies "Access denied" and changes nothing |
| `Handler.AllowListGatesEveryone` | src/index.ts:153-159 | `grant`/`ungrant` of a role not on the allow-list replies "Role not allowed" and changes nothing, even for admins |
| `Handler.MembershipEffect` | src/index.ts:161-178 | an authorized `grant` of an allowed role adds it to the target member and `ungrant` removes it; the allow-list, the persisted array and all other members are unchanged; the reply names the role and the user |
| `Handler.AllowListEditsAdminOnly` | src/index.ts:192-195 | `add`/`remove` from a non-admin, including a support-only member, replies "Admin only" and changes neither the allow-list nor the persisted array |
| `Handler.AddEffect` | src/index.ts:200-208 | an admin's `add` inserts the id and keeps every other entry in order and every member's roles; the reply is "Added <@&id> to allowed roles"; repeating the same `add` changes nothing more |
| `Handler.RemoveEffect` | src/index.ts:209-217 | an admin's `remove` deletes exactly that id and keeps the other entries in order; member roles are unchanged; removing an absent id leaves the allow-list unchanged; the reply is "Removed <@&id> from allowed roles" |
| `Handler.PersistedMirrorsAllowList` | src/index.ts:200-212 | after an admin's `add`/`remove`, the persisted array is a duplicate-free copy of the allow-list, and loading it again rebuilds the same allow-list |
| `Handler.RolesReply` | src/index.ts:181-189 | `roles` changes nothing; its reply lists each allowed id exactly once, in set order, or shows the placeholder when the list is empty |
| `Handler.AddThenRolesListsOnce` | src/index.ts:181-208 | after an admin adds a role, `roles` lists it, and lists it exactly once |
| `Handler.RemoveThenRolesOmits` | src/index.ts:181-217 | after an admin removes a role, `roles` lists the remaining allow-list and no longer lists that role |
| `Handler.SelfGrantMakesAdmin` | src/index.ts:138-172 | authority is read from the invoker's current guild roles: with the admin role on the allow-list, a support-only member is refused `add`, can grant itself the admin role, and its next `add` then succeeds |
| `Handler.RemoveThenGrantRefused` | src/index.ts:148-217 | after an admin removes a role, an authorized `grant` of it replies "Role not allowed" and changes nothing |
| `Handler.GrantScenario` | src/index.ts:148-178 | with only R1 allowed, an admin's grant of R1 to U gives U the role with the confirmation reply; a grant of R2 is refused and U's roles stay as they were |
| `RoleBot.Bot.constructor` | src/index.ts:16-55 | the bot starts only with the admin and support ids configured; it starts from the loaded array and the set built from it |
| `RoleBot.Bot.Handle` | src/index.ts:132-220 | each event updates the fields and returns the outcome exactly as `Handler.Step` prescribes, and keeps the state invariant |

## Left out

- Client construction, login and the `ready` handler that registers the slash commands (src/index.ts:24-29, 115-130, 222). These are network plumbing over the platform library.
- The command schema built with `SlashCommandBuilder` (src/index.ts:57-113). It is declarative library configuration. The model still gives every command's options as optional, and a missing required option rejects the handler.
- File I/O and JSON (src/index.ts:41-52). The loaded `db.allowed_roles` array is a parameter of the constructor. Writing the file is the assignment to `persisted`. A file that parses but has no `allowed_roles` array is not modelled.
- The `TOKEN` and `GUILD_ID` variables. Only the check that `ADMIN` and `SUPPORT` are set remains, as the constructor's precondition.
- A failing database write (src/index.ts:51). If `saveDB` throws, the handler rejects after the set and `db.allowed_roles` were already updated (src/index.ts:201-202, 210-211). The model always completes `add`/`remove` with its reply.
- Failures of the platform's role add/remove calls (src/index.ts:165, 172). These are foreign asynchronous calls, so only their success is modelled. Fetching a user who is not a guild member is modelled, as `Rejected`.
- The text of the user mention in `grant`/`ungrant` replies. The platform renders it, so the invocation carries it as an opaque string.
- An invoking member that is missing from the members' role map. The platform always reports the invoker as a guild member; the model gives such an id no roles.
- Outside changes to member roles, and the source of the Administrator flag. `memberRoles` changes only through `grant` and `ungrant`; roles changed by moderators or other bots between events are not modelled. The Administrator flag is a free input of each event, while the platform derives it from the member's roles and guild ownership, so granting a role that carries that permission would also change it. Both let the model do more than the source, so no proved property is weakened by them.
- The `ephemeral` flag. Every reply sets it, so `Outcome` does not carry it.
- A missing `interaction.member` or `interaction.guild`. The commands are registered for one guild, so these are always present.
- Interleaving of concurrent invocations at their `await` points. Each invocation is one atomic step.
- Listing.RolesContentRoundTrip: the read-back is proved only for role ids with no newline. Platform role ids are numeric, so they have none.
- Handler.RolesReply: the read-back part needs the same condition, that no allowed id holds a newline.
- Handler.AddThenRolesListsOnce: this needs the same condition, for the allowed ids and the added one.
- Handler.RemoveThenRolesOmits: this needs the same condition, that no allowed id holds a newline.
- OrderedSet.Delete: this removes every occurrence of the id. `Set.delete` removes its single entry. The two agree on every duplicate-free list, and the allow-list always is one.
