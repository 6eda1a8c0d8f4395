/** Start-up of the API server (backend/src/server.js): connect to the store,
    seed the administrator if absent, then listen. */
module Server {
  import opened Wrappers
  import opened Auth
  import Keyed

  const DefaultAdminEmail := "admin@example.com"
  const DefaultAdminPassword := "admin123"

  /** The seeding configuration: `ADMIN_EMAIL` and `ADMIN_PASSWORD`. */
  datatype SeedEnv = SeedEnv(adminEmail: Option<string>, adminPassword: Option<string>)

  /** `process.env.ADMIN_EMAIL || "admin@example.com"`. */
  function SeedEmail(env: SeedEnv): (e: string)
    ensures e != ""
    ensures env.adminEmail.None? || env.adminEmail.value == "" ==> e == DefaultAdminEmail
  {
    if env.adminEmail.Some? && env.adminEmail.value != "" then env.adminEmail.value
    else DefaultAdminEmail
  }

  /** `process.env.ADMIN_PASSWORD || "admin123"`. */
  function SeedPassword(env: SeedEnv): (pw: string)
    ensures pw != ""
    ensures env.adminPassword.None? || env.adminPassword.value == "" ==> pw == DefaultAdminPassword
  {
    if env.adminPassword.Some? && env.adminPassword.value != "" then env.adminPassword.value
    else DefaultAdminPassword
  }

  /** `ensureAdminUser()` on a table: unchanged when an administrator with the
      seed email exists, and otherwise one new record (id `newId`) holding
      `hash(password)`. `hash` stands for the salted bcrypt hash. */
  function Seed(users: seq<AdminUser>, env: SeedEnv, hash: string -> string, newId: nat)
    : (r: seq<AdminUser>)
    ensures FindByEmail(r, SeedEmail(env)).Some?
    ensures |users| <= |r| <= |users| + 1 && r[..|users|] == users
    ensures |r| == |users| + 1 <==> FindByEmail(users, SeedEmail(env)).None?
    ensures |r| == |users| + 1 ==>
              r[|users|] == AdminUser(newId, SeedEmail(env), hash(SeedPassword(env)))
  {
    var email := SeedEmail(env);
    if FindByEmail(users, email).Some? then users
    else
      var u := AdminUser(newId, email, hash(SeedPassword(env)));
      assert u in users + [u];
      assert (users + [u])[..|users|] == users;
      users + [u]
  }

  /** The administrator table. */
  class AdminTable {
    var rows: seq<AdminUser>

    constructor ()
      ensures rows == []
    {
      rows := [];
    }

    /** `ensureAdminUser()`: look the seed email up, and create the
        administrator only when it is absent. */
    method EnsureAdminUser(env: SeedEnv, hash: string -> string, newId: nat)
      modifies this
      ensures rows == Seed(old(rows), env, hash, newId)
    {
      var email := SeedEmail(env);
      var password := SeedPassword(env);
      var existing := FindByEmail(rows, email);
      if existing.Some? {
        return;
      }
      var passwordHash := hash(password);
      rows := rows + [AdminUser(newId, email, passwordHash)];
    }
  }

  /** How `start()` ends: the server listens, or the process exits. */
  datatype StartOutcome = Listening | Exit(code: int)

  /** `start()`: `connectOk` and `seedOk` are the outcomes of the store
      connection and of the seeding queries; any failure exits with status 1,
      and seeding happens only after a successful connection. */
  method Start(admins: AdminTable, connectOk: bool, seedOk: bool, env: SeedEnv,
               hash: string -> string, newId: nat)
    returns (outcome: StartOutcome)
    modifies admins
    ensures !connectOk ==> outcome == Exit(1) && admins.rows == old(admins.rows)
    ensures connectOk && !seedOk ==> outcome == Exit(1) && admins.rows == old(admins.rows)
    ensures connectOk && seedOk ==>
              outcome == Listening && admins.rows == Seed(old(admins.rows), env, hash, newId)
  {
    if !connectOk {
      return Exit(1);
    }
    if !seedOk {
      return Exit(1);
    }
    admins.EnsureAdminUser(env, hash, newId);
    outcome := Listening;
  }

  // ---------------------------------------------------------------------------
  // Properties

  /** Seeding is idempotent: a second seed, with any id, changes nothing. */
  lemma SeedIdempotent(users: seq<AdminUser>, env: SeedEnv, hash: string -> string, id1: nat, id2: nat)
    ensures Seed(Seed(users, env, hash, id1), env, hash, id2) == Seed(users, env, hash, id1)
  {
  }

  /** Seeding a table without an administrator for the seed email leaves
      exactly one for it. */
  lemma SeedLeavesOne(users: seq<AdminUser>, env: SeedEnv, hash: string -> string, newId: nat)
    requires Keyed.Count(users, Email, SeedEmail(env)) == 0
    ensures Keyed.Count(Seed(users, env, hash, newId), Email, SeedEmail(env)) == 1
  {
    var email := SeedEmail(env);
    var u := AdminUser(newId, email, hash(SeedPassword(env)));
    Keyed.CountZeroIffAbsent(users, Email, email);
    Keyed.CountAppend(users, u, Email, email);
  }

  /** The stored record holds the hash of the seed password, and the seed
      email and password default to "admin@example.com" and "admin123". */
  lemma SeedDefaults(hash: string -> string, newId: nat)
    ensures Seed([], SeedEnv(None, None), hash, newId) ==
              [AdminUser(newId, "admin@example.com", hash("admin123"))]
  {
  }
}
