/** Registration and login over the account tables (services/auth_service.py). */
module Registration {
  import opened Prelude
  import opened Text
  import opened Slugs

  datatype User = User(email: string, name: string, passwordHash: string, isActive: bool)

  datatype Organization = Organization(name: string, slug: string)

  datatype Member = Member(org: nat, user: nat, role: string)

  datatype Accounts = Accounts(users: map<nat, User>, orgs: map<nat, Organization>, members: map<nat, Member>,
                               nextUser: nat, nextOrg: nat, nextMember: nat)

  const NOBODY := Accounts(map[], map[], map[], 1, 1, 1)

  datatype RegisterRequest = RegisterRequest(email: string, name: string, organizationName: Option<string>)

  datatype Context = Context(user: nat, org: nat, role: string)

  datatype AuthError = EmailTaken | InvalidCredentials | Disabled | NotAMember | OrganizationGone

  /** `normalize_email` */
  function Normalize(lower: Lowering, email: string): string {
    lower(Strip(email))
  }

  /** The rows `get_by_email` selects. */
  function UsersWith(lower: Lowering, a: Accounts, email: string): set<nat> {
    set u | u in a.users && a.users[u].email == Normalize(lower, email)
  }

  function SlugsOf(a: Accounts): set<string> {
    set o | o in a.orgs :: a.orgs[o].slug
  }

  function OrganizationName(p: RegisterRequest): string {
    Strip(if p.organizationName.Some? && p.organizationName.value != "" then p.organizationName.value
          else p.name + "'s Organization")
  }

  /** The three rows that one registration commits together. The email is normalised once more on insert. */
  function Insert(lower: Lowering, a: Accounts, p: RegisterRequest, hash: string, slug: string): Accounts {
    Accounts(a.users[a.nextUser := User(Normalize(lower, Normalize(lower, p.email)), Strip(p.name), hash, true)],
             a.orgs[a.nextOrg := Organization(Strip(OrganizationName(p)), slug)],
             a.members[a.nextMember := Member(a.nextOrg, a.nextUser, "owner")],
             a.nextUser + 1, a.nextOrg + 1, a.nextMember + 1)
  }

  /** What a registration may do to the tables: nothing at all, or one insert under the first free slug of its name. */
  ghost predicate Registers(lower: Lowering, a: Accounts, p: RegisterRequest, hash: string, b: Accounts,
                            r: Result<Context, AuthError>) {
    if UsersWith(lower, a, Normalize(lower, p.email)) != {} then b == a && r == Err(EmailTaken)
    else
      && r == Ok(Context(a.nextUser, a.nextOrg, "owner"))
      && exists slug :: FirstFree(SlugsOf(a), Slugify(lower, OrganizationName(p)), slug) && b == Insert(lower, a, p, hash, slug)
  }

  class AuthService {
    const lower: Lowering
    var accounts: Accounts

    constructor (lower: Lowering)
      ensures this.lower == lower && accounts == NOBODY
    {
      this.lower, this.accounts := lower, NOBODY;
    }

    method Register(p: RegisterRequest, hash: string) returns (r: Result<Context, AuthError>)
      modifies this
      ensures Registers(lower, old(accounts), p, hash, accounts, r)
    {
      hide IsLowering, Normalize, OrganizationName, Slugify, SlugsOf;
      var email := Normalize(lower, p.email);
      if UsersWith(lower, accounts, email) != {} {
        return Err(EmailTaken);
      }
      var a, taken := accounts, SlugsOf(accounts);
      var user := a.nextUser;
      a := a.(users := a.users[user := User(Normalize(lower, email), Strip(p.name), hash, true)], nextUser := user + 1);
      var name := OrganizationName(p);
      var slug := UniqueSlug(taken, Slugify(lower, name));
      var org := a.nextOrg;
      a := a.(orgs := a.orgs[org := Organization(Strip(name), slug)], nextOrg := org + 1);
      a := a.(members := a.members[a.nextMember := Member(org, user, "owner")], nextMember := a.nextMember + 1);
      accounts := a;
      assert a == Insert(lower, old(accounts), p, hash, slug);
      return Ok(Context(user, org, "owner"));
    }
  }

  function MembershipsOf(a: Accounts, user: nat): set<nat> {
    set m | m in a.members && a.members[m].user == user
  }

  lemma {:induction false} LeastExists(s: set<nat>)
    requires s != {}
    ensures exists m :: m in s && forall x :: x in s ==> m <= x
  {
    var y :| y in s;
    LeastBelow(s, y);
  }

  lemma {:induction false} LeastBelow(s: set<nat>, y: nat)
    requires y in s
    ensures exists m :: m in s && forall x :: x in s ==> m <= x
    decreases y
  {
    if x :| x in s && x < y {
      LeastBelow(s, x);
    } else {
      assert forall x :: x in s ==> y <= x;
    }
  }

  /** `_context_for_user`: the user's first membership, by id. */
  ghost function ContextFor(a: Accounts, user: nat): Result<Context, AuthError> {
    var ms := MembershipsOf(a, user);
    if ms == {} then Err(NotAMember)
    else
      LeastExists(ms);
      var m :| m in ms && forall x :: x in ms ==> m <= x;
      if a.members[m].org !in a.orgs then Err(OrganizationGone)
      else Ok(Context(user, a.members[m].org, a.members[m].role))
  }

  /** `login`, with the password check as a function of stored hash and password. */
  ghost function Login(lower: Lowering, check: (string, string) -> bool, a: Accounts, email: string, password: string)
    : Result<Context, AuthError>
  {
    var found := UsersWith(lower, a, email);
    if found == {} then Err(InvalidCredentials)
    else
      var u :| u in found;
      if !check(a.users[u].passwordHash, password) then Err(InvalidCredentials)
      else if !a.users[u].isActive then Err(Disabled)
      else ContextFor(a, u)
  }

  /** Emails are normalised and unique. */
  predicate EmailsSound(lower: Lowering, a: Accounts) {
    && (forall u :: u in a.users ==> u < a.nextUser && Normalize(lower, a.users[u].email) == a.users[u].email)
    && (forall u, v :: u in a.users && v in a.users && a.users[u].email == a.users[v].email ==> u == v)
  }

  /** Slugs are unique. */
  predicate SlugsSound(a: Accounts) {
    && (forall o :: o in a.orgs ==> o < a.nextOrg)
    && (forall o, p :: o in a.orgs && p in a.orgs && a.orgs[o].slug == a.orgs[p].slug ==> o == p)
  }

  /** Every user is active and has exactly one membership, in an existing organization. */
  predicate MembersSound(a: Accounts) {
    && (forall m :: m in a.members ==> m < a.nextMember && a.members[m].user in a.users && a.members[m].org in a.orgs)
    && (forall m, n :: m in a.members && n in a.members && a.members[m].user == a.members[n].user ==> m == n)
    && (forall u :: u in a.users ==> u < a.nextUser && a.users[u].isActive && MembershipsOf(a, u) != {})
  }

  predicate Sound(lower: Lowering, a: Accounts) {
    EmailsSound(lower, a) && SlugsSound(a) && MembersSound(a)
  }

  lemma NormalizeTwice(lower: Lowering, email: string)
    ensures Normalize(lower, Normalize(lower, email)) == Normalize(lower, email)
  {
    LowerTwice(lower, Strip(email));
  }

  lemma InsertKeepsEmails(lower: Lowering, a: Accounts, p: RegisterRequest, hash: string, slug: string)
    requires EmailsSound(lower, a) && UsersWith(lower, a, Normalize(lower, p.email)) == {}
    ensures EmailsSound(lower, Insert(lower, a, p, hash, slug))
  {
    NormalizeTwice(lower, p.email);
    hide Normalize, IsLowering, OrganizationName;
    var email := Normalize(lower, p.email);
    assert forall u :: u in UsersWith(lower, a, email) <==> u in a.users && a.users[u].email == email;
  }

  lemma InsertKeepsSlugs(lower: Lowering, a: Accounts, p: RegisterRequest, hash: string, slug: string)
    requires SlugsSound(a) && slug !in SlugsOf(a)
    ensures SlugsSound(Insert(lower, a, p, hash, slug))
  {
    assert forall o :: o in a.orgs ==> a.orgs[o].slug in SlugsOf(a);
  }

  lemma MembershipsGrow(b: Accounts, user: nat, m: nat)
    requires m in b.members && b.members[m].user == user
    ensures MembershipsOf(b, user) != {}
  {
    assert m in MembershipsOf(b, user);
  }

  lemma EveryoneBelongs(lower: Lowering, a: Accounts, p: RegisterRequest, hash: string, slug: string, u: nat)
    requires MembersSound(a) && u in Insert(lower, a, p, hash, slug).users
    ensures MembershipsOf(Insert(lower, a, p, hash, slug), u) != {}
  {
    var b := Insert(lower, a, p, hash, slug);
    if u == a.nextUser {
      MembershipsGrow(b, u, a.nextMember);
    } else {
      var m :| m in MembershipsOf(a, u);
      MembershipsGrow(b, u, m);
    }
  }

  lemma InsertKeepsMembers(lower: Lowering, a: Accounts, p: RegisterRequest, hash: string, slug: string)
    requires MembersSound(a) && SlugsSound(a)
    ensures MembersSound(Insert(lower, a, p, hash, slug))
  {
    hide IsLowering, Normalize, OrganizationName, Strip, MembershipsOf;
    forall u | u in Insert(lower, a, p, hash, slug).users
      ensures MembershipsOf(Insert(lower, a, p, hash, slug), u) != {}
    {
      EveryoneBelongs(lower, a, p, hash, slug, u);
    }
  }

  lemma RegisterKeepsSound(lower: Lowering, a: Accounts, p: RegisterRequest, hash: string, b: Accounts,
                           r: Result<Context, AuthError>)
    requires Sound(lower, a) && Registers(lower, a, p, hash, b, r)
    ensures Sound(lower, b)
  {
    if r.Ok? {
      var slug :| FirstFree(SlugsOf(a), Slugify(lower, OrganizationName(p)), slug) && b == Insert(lower, a, p, hash, slug);
      InsertKeepsEmails(lower, a, p, hash, slug);
      InsertKeepsSlugs(lower, a, p, hash, slug);
      InsertKeepsMembers(lower, a, p, hash, slug);
    }
  }

  // ----- runs -----

  datatype Step = Step(request: RegisterRequest, hash: string, result: Result<Context, AuthError>)

  /** `states[i]` is the database after `i` registrations; logins in between change nothing. */
  ghost predicate IsRun(lower: Lowering, states: seq<Accounts>, steps: seq<Step>) {
    && |states| == |steps| + 1 && states[0] == NOBODY
    && forall i :: 0 <= i < |steps| ==>
         Registers(lower, states[i], steps[i].request, steps[i].hash, states[i + 1], steps[i].result)
  }

  lemma {:induction false} AlwaysSound(lower: Lowering, states: seq<Accounts>, steps: seq<Step>, n: nat)
    requires IsRun(lower, states, steps) && n < |states|
    ensures Sound(lower, states[n])
  {
    if n > 0 {
      AlwaysSound(lower, states, steps, n - 1);
      RegisterKeepsSound(lower, states[n - 1], steps[n - 1].request, steps[n - 1].hash, states[n], steps[n - 1].result);
    }
  }

  lemma SoundContext(a: Accounts, user: nat, m: nat)
    requires MembersSound(a) && m in a.members && a.members[m].user == user
    ensures ContextFor(a, user) == Ok(Context(user, a.members[m].org, a.members[m].role))
  {
    assert m in MembershipsOf(a, user);
    assert MembershipsOf(a, user) == {m};
  }

  /** After every run, login never reports a missing membership, a missing organization or a disabled account. */
  lemma LoginNeverOrphaned(lower: Lowering, check: (string, string) -> bool, states: seq<Accounts>, steps: seq<Step>,
                           n: nat, email: string, password: string)
    requires IsRun(lower, states, steps) && n < |states|
    ensures var r := Login(lower, check, states[n], email, password);
            r.Ok? || r == Err(InvalidCredentials)
  {
    AlwaysSound(lower, states, steps, n);
    var a := states[n];
    forall u | u in UsersWith(lower, a, email)
      ensures ContextFor(a, u).Ok? && a.users[u].isActive
    {
      var m :| m in MembershipsOf(a, u);
      SoundContext(a, u, m);
    }
  }

  /** The account that a successful registration created, as it stands in a later state. */
  predicate HasAccount(lower: Lowering, a: Accounts, s: Step) {
    && s.result.Ok?
    && s.result.value.user in a.users
    && a.users[s.result.value.user].email == Normalize(lower, s.request.email)
    && a.users[s.result.value.user].passwordHash == s.hash
    && exists m :: m in a.members && a.members[m] == Member(s.result.value.org, s.result.value.user, s.result.value.role)
  }

  lemma FreshAccount(lower: Lowering, a: Accounts, s: Step, b: Accounts)
    requires Registers(lower, a, s.request, s.hash, b, s.result) && s.result.Ok?
    ensures HasAccount(lower, b, s)
  {
    NormalizeTwice(lower, s.request.email);
    assert b.members[a.nextMember] == Member(a.nextOrg, a.nextUser, "owner");
  }

  lemma {:induction false} AccountPersists(lower: Lowering, states: seq<Accounts>, steps: seq<Step>, i: nat, n: nat)
    requires IsRun(lower, states, steps) && i < n < |states| && steps[i].result.Ok?
    ensures HasAccount(lower, states[n], steps[i])
  {
    hide IsLowering, Registers, HasAccount, Sound;
    var s := steps[n - 1];
    assert Registers(lower, states[n - 1], s.request, s.hash, states[n], s.result);
    if i == n - 1 {
      FreshAccount(lower, states[i], s, states[n]);
    } else {
      AccountPersists(lower, states, steps, i, n - 1);
      AlwaysSound(lower, states, steps, n - 1);
      RegisterKeepsAccount(lower, states[n - 1], s, states[n], steps[i]);
    }
  }

  lemma RegisterKeepsAccount(lower: Lowering, a: Accounts, s: Step, b: Accounts, earlier: Step)
    requires Sound(lower, a) && Registers(lower, a, s.request, s.hash, b, s.result) && HasAccount(lower, a, earlier)
    ensures HasAccount(lower, b, earlier)
  {
    hide IsLowering, Normalize, EmailsSound, SlugsSound, MembersSound, Insert;
    if b != a {
      var slug :| b == Insert(lower, a, s.request, s.hash, slug);
      InsertKeepsRows(lower, a, s.request, s.hash, slug);
      var ctx := earlier.result.value;
      var m :| m in a.members && a.members[m] == Member(ctx.org, ctx.user, ctx.role);
      assert m in b.members && b.members[m] == a.members[m];
    }
  }

  lemma InsertKeepsRows(lower: Lowering, a: Accounts, p: RegisterRequest, hash: string, slug: string)
    requires MembersSound(a)
    ensures var b := Insert(lower, a, p, hash, slug);
            && (forall u :: u in a.users ==> u in b.users && b.users[u] == a.users[u])
            && (forall m :: m in a.members ==> m in b.members && b.members[m] == a.members[m])
  {
    hide IsLowering, Normalize, OrganizationName, MembershipsOf, Strip;
  }

  /**
   * At any later time, logging in with the right password and any spelling of the email that
   * normalises alike returns the context that registration returned.
   */
  lemma LoginReturnsRegistered(lower: Lowering, check: (string, string) -> bool, states: seq<Accounts>, steps: seq<Step>,
                               i: nat, n: nat, email: string, password: string)
    requires IsRun(lower, states, steps) && i < n < |states| && steps[i].result.Ok?
    requires Normalize(lower, email) == Normalize(lower, steps[i].request.email)
    requires check(steps[i].hash, password)
    ensures Login(lower, check, states[n], email, password) == steps[i].result
  {
    hide Sound, HasAccount, Login, Normalize, Registers;
    AlwaysSound(lower, states, steps, n);
    AccountPersists(lower, states, steps, i, n);
    AccountLogsIn(lower, check, states[n], steps[i], email, password);
  }

  lemma AccountLogsIn(lower: Lowering, check: (string, string) -> bool, a: Accounts, s: Step, email: string, password: string)
    requires Sound(lower, a) && HasAccount(lower, a, s)
    requires Normalize(lower, email) == Normalize(lower, s.request.email) && check(s.hash, password)
    ensures Login(lower, check, a, email, password) == s.result
  {
    hide Normalize, ContextFor, IsLowering;
    var user := s.result.value.user;
    var m :| m in a.members && a.members[m] == Member(s.result.value.org, user, s.result.value.role);
    SoundContext(a, user, m);
    assert user in UsersWith(lower, a, email);
    assert forall u :: u in UsersWith(lower, a, email) ==> u == user;
  }

  /** A registration is refused exactly when some account has the same normalised email. */
  lemma RefusedIffTaken(lower: Lowering, states: seq<Accounts>, steps: seq<Step>, n: nat)
    requires IsRun(lower, states, steps) && n < |steps|
    ensures steps[n].result == Err(EmailTaken)
       <==> exists u :: u in states[n].users && states[n].users[u].email == Normalize(lower, steps[n].request.email)
  {
    NormalizeTwice(lower, steps[n].request.email);
    var a, email := states[n], Normalize(lower, steps[n].request.email);
    var found := UsersWith(lower, a, email);
    assert forall u :: u in found <==> u in a.users && a.users[u].email == email;
    if found != {} {
      var u :| u in found;
    }
    assert Registers(lower, a, steps[n].request, steps[n].hash, states[n + 1], steps[n].result);
  }

  // ----- the rows of a registration -----

  /** The organization's name: the one asked for, or one made from the user's, without outer whitespace. */
  predicate NameAsAsked(p: RegisterRequest, name: string) {
    && (p.organizationName.Some? && p.organizationName.value != "" ==> name == Strip(p.organizationName.value))
    && (p.organizationName == None || p.organizationName == Some("") ==> name == Strip(p.name + "'s Organization"))
  }

  /** The slug is that of the name: its words joined by hyphens, or "org", cut and counted up to the first free one. */
  ghost predicate SlugOfName(lower: Lowering, taken: set<string>, name: string, slug: string) {
    var words := Words(lower(Strip(name)));
    exists base :: IsSlug(base) && Words(base) == (if words == [] then ["org"] else words) && FirstFree(taken, base, slug)
  }

  /** What a registration adds: a user, an organization and the user's membership in it as owner. */
  ghost predicate AddsAccount(lower: Lowering, a: Accounts, p: RegisterRequest, hash: string, b: Accounts, ctx: Context) {
    && ctx.user !in a.users && ctx.org !in a.orgs && ctx.role == "owner"
    && b.users.Keys == a.users.Keys + {ctx.user} && (forall u :: u in a.users ==> b.users[u] == a.users[u])
    && b.orgs.Keys == a.orgs.Keys + {ctx.org} && (forall o :: o in a.orgs ==> b.orgs[o] == a.orgs[o])
    && b.users[ctx.user].email == Normalize(lower, p.email) && b.users[ctx.user].name == Strip(p.name)
    && b.users[ctx.user].passwordHash == hash && b.users[ctx.user].isActive
    && NameAsAsked(p, b.orgs[ctx.org].name)
    && SlugOfName(lower, SlugsOf(a), b.orgs[ctx.org].name, b.orgs[ctx.org].slug)
    && exists m: nat :: m !in a.members && b.members == a.members[m := Member(ctx.org, ctx.user, ctx.role)]
  }

  lemma FreshIds(lower: Lowering, a: Accounts)
    requires Sound(lower, a)
    ensures a.nextUser !in a.users && a.nextOrg !in a.orgs && a.nextMember !in a.members
  {
  }

  lemma NamedAsAsked(p: RegisterRequest)
    ensures Strip(OrganizationName(p)) == OrganizationName(p) && NameAsAsked(p, OrganizationName(p))
  {
    hide Strip;
    StripTwice(if p.organizationName.Some? && p.organizationName.value != "" then p.organizationName.value
               else p.name + "'s Organization");
  }

  lemma SlugifiedName(lower: Lowering, taken: set<string>, name: string, slug: string)
    requires FirstFree(taken, Slugify(lower, name), slug)
    ensures SlugOfName(lower, taken, name, slug)
  {
    hide Slugify, FirstFree, Words, IsSlug;
    SlugifyIsSlug(lower, name);
    SlugKeepsWords(lower, name);
  }

  lemma InsertAddsAccount(lower: Lowering, a: Accounts, p: RegisterRequest, hash: string, slug: string)
    requires a.nextUser !in a.users && a.nextOrg !in a.orgs && a.nextMember !in a.members
    requires FirstFree(SlugsOf(a), Slugify(lower, OrganizationName(p)), slug)
    ensures AddsAccount(lower, a, p, hash, Insert(lower, a, p, hash, slug), Context(a.nextUser, a.nextOrg, "owner"))
  {
    NormalizeTwice(lower, p.email);
    NamedAsAsked(p);
    SlugifiedName(lower, SlugsOf(a), OrganizationName(p), slug);
    hide Slugify, FirstFree, Normalize, IsLowering, SlugOfName, NameAsAsked, OrganizationName, Strip, SlugsOf;
    var b := Insert(lower, a, p, hash, slug);
    AddedKeys(a.users, a.nextUser, b.users[a.nextUser]);
    AddedKeys(a.orgs, a.nextOrg, b.orgs[a.nextOrg]);
    assert a.nextMember !in a.members
      && b.members == a.members[a.nextMember := Member(a.nextOrg, a.nextUser, "owner")];
  }

  lemma AddedKeys<V>(m: map<nat, V>, k: nat, v: V)
    requires k !in m
    ensures m[k := v].Keys == m.Keys + {k}
    ensures forall x :: x in m ==> m[k := v][x] == m[x]
  {
  }

  /** In every run, a registration that succeeds adds these three rows and changes no other. */
  lemma RegisteredRows(lower: Lowering, states: seq<Accounts>, steps: seq<Step>, i: nat)
    requires IsRun(lower, states, steps) && i < |steps| && steps[i].result.Ok?
    ensures AddsAccount(lower, states[i], steps[i].request, steps[i].hash, states[i + 1], steps[i].result.value)
  {
    hide Slugify, FirstFree, Normalize, IsLowering, SlugsOf, OrganizationName, Insert, AddsAccount, Sound;
    var a, p, hash := states[i], steps[i].request, steps[i].hash;
    AlwaysSound(lower, states, steps, i);
    FreshIds(lower, a);
    assert Registers(lower, a, p, hash, states[i + 1], steps[i].result);
    var slug :| FirstFree(SlugsOf(a), Slugify(lower, OrganizationName(p)), slug) && states[i + 1] == Insert(lower, a, p, hash, slug);
    InsertAddsAccount(lower, a, p, hash, slug);
  }

  lemma StripTwice(s: string)
    ensures Strip(Strip(s)) == Strip(s)
  {
  }

  // ----- login, exactly -----

  /** The registration that created a user. */
  ghost predicate CameFrom(lower: Lowering, a: Accounts, steps: seq<Step>, n: nat, u: nat, i: nat) {
    && i < n <= |steps| && steps[i].result.Ok? && steps[i].result.value.user == u && HasAccount(lower, a, steps[i])
  }

  lemma RegisterAddsOne(lower: Lowering, a: Accounts, s: Step, b: Accounts, u: nat)
    requires Registers(lower, a, s.request, s.hash, b, s.result) && u in b.users && u !in a.users
    ensures s.result.Ok? && s.result.value.user == u
  {
    hide Normalize, IsLowering, Slugify, FirstFree;
  }

  /** Nobody has an account who did not register. */
  lemma {:induction false} UserRegistered(lower: Lowering, states: seq<Accounts>, steps: seq<Step>, n: nat, u: nat)
    requires IsRun(lower, states, steps) && n < |states| && u in states[n].users
    ensures exists i: nat :: CameFrom(lower, states[n], steps, n, u, i)
  {
    hide HasAccount, Registers, IsLowering;
    if n > 0 {
      var s := steps[n - 1];
      assert Registers(lower, states[n - 1], s.request, s.hash, states[n], s.result);
      if u in states[n - 1].users {
        UserRegistered(lower, states, steps, n - 1, u);
        var i: nat :| CameFrom(lower, states[n - 1], steps, n - 1, u, i);
        AccountPersists(lower, states, steps, i, n);
        assert CameFrom(lower, states[n], steps, n, u, i);
      } else {
        RegisterAddsOne(lower, states[n - 1], s, states[n], u);
        AccountPersists(lower, states, steps, n - 1, n);
        assert CameFrom(lower, states[n], steps, n, u, n - 1);
      }
    }
  }

  /** Registration `i` succeeded under this email, up to spelling, with this context and a hash that the password meets. */
  predicate Proves(lower: Lowering, check: (string, string) -> bool, s: Step, email: string, password: string, ctx: Context) {
    && s.result == Ok(ctx) && Normalize(lower, s.request.email) == Normalize(lower, email) && check(s.hash, password)
  }

  /** A login that succeeds found a user of this email whose hash the password meets. */
  lemma LoginFound(lower: Lowering, check: (string, string) -> bool, a: Accounts, email: string, password: string)
    requires Login(lower, check, a, email, password).Ok?
    ensures exists u :: u in a.users && a.users[u].email == Normalize(lower, email) && check(a.users[u].passwordHash, password)
  {
    hide Normalize, ContextFor;
  }

  /**
   * After every run, login returns a context exactly if some earlier registration under the same normalised
   * email returned it and the password meets the hash stored then. Every other login is refused alike.
   */
  lemma LoginExact(lower: Lowering, check: (string, string) -> bool, states: seq<Accounts>, steps: seq<Step>,
                   n: nat, email: string, password: string)
    requires IsRun(lower, states, steps) && n < |states|
    ensures var r := Login(lower, check, states[n], email, password);
            && (forall ctx: Context :: r == Ok(ctx) <==>
                  exists i: nat :: i < n && Proves(lower, check, steps[i], email, password, ctx))
            && (r.Ok? || r == Err(InvalidCredentials))
  {
    hide Login, Normalize, IsRun, IsLowering;
    var r := Login(lower, check, states[n], email, password);
    assert |states| == |steps| + 1 by { RunLengths(lower, states, steps); }
    LoginNeverOrphaned(lower, check, states, steps, n, email, password);
    if r.Ok? {
      LoginFound(lower, check, states[n], email, password);
      var u :| u in states[n].users && states[n].users[u].email == Normalize(lower, email)
               && check(states[n].users[u].passwordHash, password);
      UserRegistered(lower, states, steps, n, u);
      var i: nat :| CameFrom(lower, states[n], steps, n, u, i);
      LoginReturnsRegistered(lower, check, states, steps, i, n, email, password);
      assert Proves(lower, check, steps[i], email, password, r.value);
    }
    forall ctx: Context, i: nat | i < n && Proves(lower, check, steps[i], email, password, ctx)
      ensures r == Ok(ctx)
    {
      LoginReturnsRegistered(lower, check, states, steps, i, n, email, password);
    }
  }

  lemma RunLengths(lower: Lowering, states: seq<Accounts>, steps: seq<Step>)
    requires IsRun(lower, states, steps)
    ensures |states| == |steps| + 1
  {
  }
}
