/**
  The running bot: the module-level `ALLOWED_ROLES` set and `db` object of
  src/index.ts, and the guild members' roles that `grant` and `ungrant` change
  through the platform, as the fields of one object. `Handle` is the
  `interactionCreate` listener.
 */
module RoleBot {
  import opened Options
  import opened OrderedSet
  import opened Authorization
  import opened Handler
  import Listing

  class Bot {
    /** The `ADMIN` and `SUPPORT` role ids from the environment. */
    const config: Config
    /** `ALLOWED_ROLES`, in iteration order. */
    var allowed: seq<string>
    /** `db.allowed_roles`, the array written to the database file. */
    var persisted: seq<string>
    /** Each guild member's role ids, as the platform holds them. */
    var memberRoles: map<string, set<string>>

    /** The bot's state as a value. */
    function Snapshot(): State
      reads this
    {
      State(allowed, persisted, memberRoles)
    }

    ghost predicate Valid()
      reads this
    {
      Inv(Snapshot())
    }

    /**
      Start-up: the environment must name the admin and support roles (the
      source stops otherwise); the allow-list is built from the loaded array.
     */
    constructor (config: Config, loaded: seq<string>, members: map<string, set<string>>)
      requires config.admin != "" && config.support != ""
      ensures Valid()
      ensures this.config == config
      ensures Snapshot() == Load(loaded, members)
    {
      this.config := config;
      allowed := Dedup(loaded);
      persisted := loaded;
      memberRoles := members;
    }

    /** Handles one interaction event, following the listener branch by branch. */
    method Handle(inv: Invocation) returns (out: Outcome)
      requires Valid()
      modifies this
      ensures Valid()
      ensures (Snapshot(), out) == Step(config, old(Snapshot()), inv)
    {
      if !inv.chatInput {
        return Ignored;
      }
      var invokerRoles := if inv.invokerId in memberRoles then memberRoles[inv.invokerId] else {};
      var isAdmin := config.admin in invokerRoles || inv.administrator;
      var isSupport := config.support in invokerRoles || inv.administrator;
      var cmd := inv.command;

      if cmd == "grant" || cmd == "ungrant" {
        if !isSupport && !isAdmin {
          return Reply(AccessDenied);
        }
        if inv.user.None? || inv.role.None? {
          return Rejected;
        }
        var user, roleId := inv.user.value, inv.role.value;
        if roleId !in allowed {
          return Reply(RoleNotAllowed);
        }
        if user.id !in memberRoles {
          return Rejected;
        }
        if cmd == "grant" {
          memberRoles := memberRoles[user.id := memberRoles[user.id] + {roleId}];
          return Reply("Granted " + Listing.Mention(roleId) + " to " + user.mention);
        } else {
          memberRoles := memberRoles[user.id := memberRoles[user.id] - {roleId}];
          return Reply("Removed " + Listing.Mention(roleId) + " from " + user.mention);
        }
      }

      if cmd == "roles" {
        return Reply(Listing.RolesContent(allowed));
      }

      if cmd == "add" || cmd == "remove" {
        if !isAdmin {
          return Reply(AdminOnly);
        }
        if inv.role.None? {
          return Rejected;
        }
        var roleId := inv.role.value;
        if cmd == "add" {
          allowed := Insert(allowed, roleId);
          persisted := allowed;
          return Reply("Added " + Listing.Mention(roleId) + " to allowed roles");
        } else {
          allowed := Delete(allowed, roleId);
          persisted := allowed;
          return Reply("Removed " + Listing.Mention(roleId) + " from allowed roles");
        }
      }
      return Ignored;
    }
  }
}
