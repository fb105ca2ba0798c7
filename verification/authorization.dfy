/**
  Who may do what. Every command invocation derives two flags from the invoking
  member: `isAdmin` and `isSupport` (src/index.ts, lines 138-144). The admin and
  support role ids come from the environment at start-up.
 */
module Authorization {

  /** The configured admin and support role ids (the `ADMIN` and `SUPPORT` variables). */
  datatype Config = Config(admin: string, support: string)

  /**
    The invoking guild member as the platform reports it: the ids of the roles it
    holds, and whether its permissions include the platform's Administrator flag.
   */
  datatype Invoker = Invoker(roles: set<string>, administrator: bool)

  /** `isAdmin`: holds the admin role, or has the Administrator permission. */
  predicate IsAdmin(cfg: Config, who: Invoker) {
    cfg.admin in who.roles || who.administrator
  }

  /** `isSupport`: holds the support role, or has the Administrator permission. */
  predicate IsSupport(cfg: Config, who: Invoker) {
    cfg.support in who.roles || who.administrator
  }

  /** The Administrator permission makes a member both admin and support. */
  lemma AdministratorImpliesBoth(cfg: Config, who: Invoker)
    requires who.administrator
    ensures IsAdmin(cfg, who) && IsSupport(cfg, who)
  {
  }

  /**
    Without the Administrator permission, each flag is decided by its own role
    alone: holding the support role does not make a member admin, and the other
    way round, unless the two configured ids coincide.
   */
  lemma RolesDecideWithoutAdministrator(cfg: Config, who: Invoker)
    requires !who.administrator
    ensures IsAdmin(cfg, who) <==> cfg.admin in who.roles
    ensures IsSupport(cfg, who) <==> cfg.support in who.roles
    ensures cfg.admin != cfg.support && who.roles == {cfg.support} ==> IsSupport(cfg, who) && !IsAdmin(cfg, who)
  {
  }
}
