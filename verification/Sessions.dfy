/** Application sessions and one-shot tokens: service.ts, session.ts and repository.ts of packages/identity.
    The repository's statements are atomic; its clients interleave in any order. */
module Sessions {
  import opened Wrappers

  /** What entitles a client to one effect: rotating a session, a login transaction, a webhook event. */
  datatype Token = OfSession(sid: nat) | OfLogin(transaction: string) | OfEvent(id: string)

  datatype Who = Who(user: string, tenant: string, provider: Option<string>)

  /** A row of application_sessions. Identifiers are fresh, so rows are numbered in insertion order;
      `origin` is the session it was rotated from or the login transaction that opened it. */
  datatype Session = Session(who: Who, origin: Token, createdAt: int, lastSeenAt: int, idleAt: int, absoluteAt: int,
                             revokedAt: Option<int>)

  /** A row of identity_oauth_transactions, keyed by its token hash. */
  datatype OAuth = OAuth(stateHash: string, expiresAt: int, consumedAt: Option<int>)

  datatype Environment = Environment(idleTimeout: nat, absoluteTimeout: nat)

  datatype ServiceError = CallbackInvalid | RotationReplayed | InsertRefused

  // ---------------------------------------------------------------- atomic statements

  predicate Live(sessions: seq<Session>, sid: nat) {
    sid < |sessions| && sessions[sid].revokedAt.None?
  }

  function Revoked(s: Session, at: int): Session {
    if s.revokedAt.None? then s.(revokedAt := Some(at)) else s
  }

  function Revoke(sessions: seq<Session>, sid: nat, at: int): seq<Session> {
    if Live(sessions, sid) then sessions[sid := Revoked(sessions[sid], at)] else sessions
  }

  /** Which rows a bulk revocation takes: those of a provider session, or of a user (in one tenant). */
  datatype Scope = ProviderSession(id: string) | User(user: string) | Member(user: string, tenant: string)

  predicate InScope(s: Session, scope: Scope) {
    match scope
    case ProviderSession(id) => s.who.provider == Some(id)
    case User(user) => s.who.user == user
    case Member(user, tenant) => s.who.user == user && s.who.tenant == tenant
  }

  function RevokeScope(sessions: seq<Session>, scope: Scope, at: int): (r: seq<Session>)
    ensures |r| == |sessions|
    ensures forall k :: 0 <= k < |r| ==> r[k] == if InScope(sessions[k], scope) then Revoked(sessions[k], at) else sessions[k]
    decreases |sessions|
  {
    if sessions == [] then []
    else [if InScope(sessions[0], scope) then Revoked(sessions[0], at) else sessions[0]]
         + RevokeScope(sessions[1..], scope, at)
  }

  function Least(a: int, b: int): int {
    if a < b then a else b
  }

  function Touch(sessions: seq<Session>, sid: nat, seen: int, idle: int): seq<Session> {
    if Live(sessions, sid)
    then sessions[sid := sessions[sid].(lastSeenAt := seen, idleAt := Least(idle, sessions[sid].absoluteAt))]
    else sessions
  }

  /** The checks of application_sessions. */
  predicate Insertable(sessions: seq<Session>, s: Session) {
    s.idleAt > s.createdAt && s.absoluteAt >= s.idleAt && (s.origin.OfSession? ==> s.origin.sid < |sessions|)
  }

  type Transactions = map<string, OAuth>

  predicate Consumable(transactions: Transactions, token: string, stateHash: string, at: int) {
    token in transactions && transactions[token].stateHash == stateHash
    && transactions[token].consumedAt.None? && transactions[token].expiresAt > at
  }

  function Consume(transactions: Transactions, token: string, stateHash: string, at: int): Transactions {
    if Consumable(transactions, token, stateHash, at)
    then transactions[token := transactions[token].(consumedAt := Some(at))] else transactions
  }

  /** `issueApplicationSession`: the new row. */
  function Issue(environment: Environment, who: Who, origin: Token, at: int): Session {
    Session(who, origin, at, at, at + environment.idleTimeout, at + environment.absoluteTimeout, None)
  }

  /** s is a session just opened for that identity: live, last seen now, its limits the two timeouts away. */
  predicate JustOpened(s: Session, environment: Environment, who: Who, origin: Token, at: int) {
    && s.who == who && s.origin == origin && s.revokedAt.None?
    && s.createdAt == at && s.lastSeenAt == at
    && s.idleAt - at == environment.idleTimeout && s.absoluteAt - at == environment.absoluteTimeout
  }

  predicate Expired(s: Session, at: int) {
    s.idleAt <= at || s.absoluteAt <= at
  }

  /** The idle limit a resolved session slides to. */
  function SlidIdle(environment: Environment, s: Session, at: int): int {
    Least(at + environment.idleTimeout, s.absoluteAt)
  }

  // ---------------------------------------------------------------- the repository and its services

  class Repository {
    var sessions: seq<Session>
    var transactions: Transactions
    var receipts: set<string>

    constructor ()
      ensures sessions == [] && transactions == map[] && receipts == {}
    {
      sessions, transactions, receipts := [], map[], {};
    }

    method RevokeSession(sid: nat, at: int) returns (won: bool)
      modifies `sessions
      ensures won <==> sid < |old(sessions)| && old(sessions)[sid].revokedAt.None?
      ensures sessions == if won then old(sessions)[sid := old(sessions)[sid].(revokedAt := Some(at))] else old(sessions)
      ensures sessions == Revoke(old(sessions), sid, at)
    {
      won := sid < |sessions| && sessions[sid].revokedAt.None?;
      if won {
        sessions := sessions[sid := sessions[sid].(revokedAt := Some(at))];
      }
    }

    method RevokeSessions(scope: Scope, at: int) returns (count: nat)
      modifies `sessions
      ensures sessions == RevokeScope(old(sessions), scope, at)
      ensures count == |set k | 0 <= k < |sessions| && InScope(sessions[k], scope) && Live(old(sessions), k)|
    {
      count := |set k | 0 <= k < |sessions| && InScope(sessions[k], scope) && Live(sessions, k)|;
      ghost var before := sessions;
      sessions := RevokeScope(sessions, scope, at);
      assert (set k | 0 <= k < |before| && InScope(before[k], scope) && Live(before, k))
          == (set k | 0 <= k < |sessions| && InScope(sessions[k], scope) && Live(before, k));
    }

    method TouchSession(sid: nat, seen: int, idle: int) returns (touched: bool)
      modifies `sessions
      ensures touched <==> sid < |old(sessions)| && old(sessions)[sid].revokedAt.None?
      ensures touched ==>
                var s := old(sessions)[sid];
                sessions == old(sessions)[sid := s.(lastSeenAt := seen, idleAt := if idle < s.absoluteAt then idle else s.absoluteAt)]
      ensures sessions == Touch(old(sessions), sid, seen, idle)
    {
      touched := sid < |sessions| && sessions[sid].revokedAt.None?;
      if touched {
        var s := sessions[sid];
        sessions := sessions[sid := s.(lastSeenAt := seen, idleAt := if idle < s.absoluteAt then idle else s.absoluteAt)];
      }
    }

    method CreateSession(s: Session) returns (r: Result<nat, ServiceError>)
      modifies `sessions
      ensures r == if Insertable(old(sessions), s) then Ok(|old(sessions)|) else Err(InsertRefused)
      ensures sessions == if r.Ok? then old(sessions) + [s] else old(sessions)
    {
      if s.idleAt > s.createdAt && s.absoluteAt >= s.idleAt && (s.origin.OfSession? ==> s.origin.sid < |sessions|) {
        r := Ok(|sessions|);
        sessions := sessions + [s];
      } else {
        r := Err(InsertRefused);
      }
    }

    method ConsumeOAuthTransaction(token: string, stateHash: string, at: int) returns (won: bool)
      modifies `transactions
      ensures won <==>
        && token in old(transactions) && old(transactions)[token].stateHash == stateHash
        && old(transactions)[token].consumedAt.None? && at < old(transactions)[token].expiresAt
      ensures transactions == if won then old(transactions)[token := old(transactions)[token].(consumedAt := Some(at))]
                              else old(transactions)
      ensures transactions == Consume(old(transactions), token, stateHash, at)
    {
      won := token in transactions && transactions[token].stateHash == stateHash
             && transactions[token].consumedAt.None? && transactions[token].expiresAt > at;
      if won {
        transactions := transactions[token := transactions[token].(consumedAt := Some(at))];
      }
    }

    method SaveWebhookReceipt(id: string) returns (saved: bool)
      modifies `receipts
      ensures saved <==> id !in old(receipts)
      ensures receipts == old(receipts) + {id}
    {
      saved := id !in receipts;
      receipts := receipts + {id};
    }

    /** `rotateApplicationSession` without interference. */
    method RotateApplicationSession(environment: Environment, sid: nat, who: Who,
            at: int) returns (r: Result<nat, ServiceError>)
      modifies `sessions
      ensures !Live(old(sessions), sid) ==> r == Err(RotationReplayed) && sessions == old(sessions)
      ensures Live(old(sessions), sid) ==>
                var revoked := Revoke(old(sessions), sid, at);
                if environment.idleTimeout > 0 && environment.absoluteTimeout >= environment.idleTimeout
                then r == Ok(|revoked|) && sessions == revoked + [Issue(environment, who, OfSession(sid), at)]
                else r == Err(InsertRefused) && sessions == revoked
      ensures r.Ok? ==>
        && r.value == |old(sessions)| && |sessions| == |old(sessions)| + 1
        && JustOpened(sessions[r.value], environment, who, OfSession(sid), at)
        && sessions[sid] == old(sessions)[sid].(revokedAt := Some(at))
        && forall k :: 0 <= k < |old(sessions)| && k != sid ==> sessions[k] == old(sessions)[k]
    {
      var won := RevokeSession(sid, at);
      if !won {
        return Err(RotationReplayed);
      }
      r := CreateSession(Issue(environment, who, OfSession(sid), at));
    }

    /** `completeIdentityLogin` without interference, from consuming the transaction to the new session. */
    method CompleteIdentityLogin(environment: Environment, token: string, stateHash: string, who: Who, at: int)
      returns (r: Result<nat, ServiceError>)
      modifies `sessions, `transactions
      ensures transactions == Consume(old(transactions), token, stateHash, at)
      ensures !Consumable(old(transactions), token, stateHash, at) ==> r == Err(CallbackInvalid) && sessions == old(sessions)
      ensures r.Ok? ==> sessions == old(sessions) + [Issue(environment, who, OfLogin(token), at)] && r.value == |old(sessions)|
      ensures r.Ok? ==>
        && token in transactions && transactions[token].consumedAt == Some(at) && transactions[token].stateHash == stateHash
        && JustOpened(sessions[r.value], environment, who, OfLogin(token), at) && sessions[..r.value] == old(sessions)
      ensures r.Err? ==> sessions == old(sessions)
    {
      var won := ConsumeOAuthTransaction(token, stateHash, at);
      if !won {
        return Err(CallbackInvalid);
      }
      r := CreateSession(Issue(environment, who, OfLogin(token), at));
    }

    /** `processIdentityWebhook` without interference: a receipt decides whether the event takes effect. */
    method ProcessIdentityWebhook(id: string, kind: EventKind, at: int) returns (duplicate: bool)
      modifies `sessions, `receipts
      ensures duplicate <==> id in old(receipts)
      ensures receipts == old(receipts) + {id}
      ensures sessions == if duplicate then old(sessions)
                          else WebhookEffect(Store(old(sessions), transactions, receipts), kind, at).sessions
    {
      var saved := SaveWebhookReceipt(id);
      if !saved {
        return true;
      }
      match kind {
        case SessionRevoked(Some(session)) => var _ := RevokeSessions(ProviderSession(session), at);
        case UserDeleted(Some(user)) => var _ := RevokeSessions(User(user), at);
        case _ =>
      }
      duplicate := false;
    }

    /** `resolveApplicationSession` down to its session writes, without interference: it accepts exactly a
        live session within both limits, and slides its idle limit without passing the absolute one. */
    method ResolveApplicationSession(environment: Environment, sid: nat, at: int) returns (accepted: bool)
      modifies `sessions
      ensures accepted <==> Live(old(sessions), sid) && at < old(sessions)[sid].idleAt && at < old(sessions)[sid].absoluteAt
      ensures accepted ==> Live(sessions, sid) && sessions[sid].idleAt <= sessions[sid].absoluteAt == old(sessions)[sid].absoluteAt
      ensures accepted ==>
                var s, slid := old(sessions)[sid], at + environment.idleTimeout;
                sessions == old(sessions)[sid := s.(lastSeenAt := at, idleAt := if slid < s.absoluteAt then slid else s.absoluteAt)]
      ensures !accepted ==> sessions == Revoke(old(sessions), sid, at)
    {
      if sid >= |sessions| || sessions[sid].revokedAt.Some? {
        return false;
      }
      var s := sessions[sid];
      if s.idleAt <= at || s.absoluteAt <= at {
        var _ := RevokeSession(sid, at);
        return false;
      }
      var _ := TouchSession(sid, at, if at + environment.idleTimeout < s.absoluteAt then at + environment.idleTimeout else s.absoluteAt);
      accepted := true;
    }
  }

  // ---------------------------------------------------------------- interleaved clients

  datatype EventKind = SessionRevoked(session: Option<string>) | UserDeleted(user: Option<string>) | Other

  datatype Store = Store(sessions: seq<Session>, transactions: Transactions, receipts: set<string>)

  /** A running call, at the statement it executes next. */
  datatype Client =
    | Rotate(sid: nat) | Rotated(sid: nat)
    | Login(token: string, stateHash: string, who: Who) | LoggedIn(token: string, who: Who)
    | Logout(sid: nat)
    | Resolve(sid: nat) | Expire(sid: nat) | Renew(sid: nat, idle: int)
    | Webhook(id: string, kind: EventKind) | Received(id: string, kind: EventKind)
    | Finished

  /** The whole system: tables, running calls, and the webhook events that took effect, in order. */
  datatype System = System(store: Store, clients: seq<Client>, effects: seq<string>)

  /** A call starts, a running call executes its next statement, a login transaction is opened, or an
      access change revokes sessions. */
  datatype Action =
    | Start(client: Client)
    | Run(index: nat, at: int)
    | Open(token: string, stateHash: string, expiresAt: int)
    | AccessChange(scope: Scope, at: int)

  /** Calls begin at their first statement. */
  predicate Initial(client: Client) {
    client.Rotate? || client.Login? || client.Logout? || client.Resolve? || client.Webhook?
  }

  function Insert(store: Store, s: Session): Store {
    if Insertable(store.sessions, s) then store.(sessions := store.sessions + [s]) else store
  }

  function WebhookEffect(store: Store, kind: EventKind, at: int): Store {
    match kind
    case SessionRevoked(Some(id)) => store.(sessions := RevokeScope(store.sessions, ProviderSession(id), at))
    case UserDeleted(Some(user)) => store.(sessions := RevokeScope(store.sessions, User(user), at))
    case _ => store
  }

  /** One statement of one call: the new tables and where the call goes next. */
  function Statement(environment: Environment, store: Store, client: Client, at: int): (Store, Client) {
    match client
    case Rotate(sid) =>
      (store.(sessions := Revoke(store.sessions, sid, at)), if Live(store.sessions, sid) then Rotated(sid) else Finished)
    case Rotated(sid) =>
      if sid < |store.sessions|
      then (Insert(store, Issue(environment, store.sessions[sid].who, OfSession(sid), at)), Finished)
      else (store, Finished)
    case Login(token, stateHash, who) =>
      (store.(transactions := Consume(store.transactions, token, stateHash, at)),
       if Consumable(store.transactions, token, stateHash, at) then LoggedIn(token, who) else Finished)
    case LoggedIn(token, who) => (Insert(store, Issue(environment, who, OfLogin(token), at)), Finished)
    case Logout(sid) => (store.(sessions := Revoke(store.sessions, sid, at)), Finished)
    case Resolve(sid) =>
      (store, if !Live(store.sessions, sid) then Finished
              else if Expired(store.sessions[sid], at) then Expire(sid)
              else Renew(sid, SlidIdle(environment, store.sessions[sid], at)))
    case Expire(sid) => (store.(sessions := Revoke(store.sessions, sid, at)), Finished)
    case Renew(sid, idle) => (store.(sessions := Touch(store.sessions, sid, at, idle)), Finished)
    case Webhook(id, kind) =>
      (store.(receipts := store.receipts + {id}), if id !in store.receipts then Received(id, kind) else Finished)
    case Received(id, kind) => (WebhookEffect(store, kind, at), Finished)
    case Finished => (store, Finished)
  }

  function Apply(environment: Environment, system: System, action: Action): System {
    match action
    case Start(client) => if Initial(client) then system.(clients := system.clients + [client]) else system
    case Run(i, at) =>
      if i >= |system.clients| then system
      else
        var client := system.clients[i];
        var (store, next) := Statement(environment, system.store, client, at);
        System(store, system.clients[i := next], if client.Received? then system.effects + [client.id] else system.effects)
    case Open(token, stateHash, expiresAt) =>
      if token in system.store.transactions then system
      else system.(store := system.store.(transactions :=
                     system.store.transactions[token := OAuth(stateHash, expiresAt, None)]))
    case AccessChange(scope, at) =>
      system.(store := system.store.(sessions := RevokeScope(system.store.sessions, scope, at)))
  }

  function After(environment: Environment, actions: seq<Action>): System
    decreases |actions|
  {
    if actions == [] then System(Store([], map[], {}), [], [])
    else Apply(environment, After(environment, actions[..|actions| - 1]), actions[|actions| - 1])
  }

  // ---------------------------------------------------------------- the invariant

  /** The one-shot mark of a token is set. */
  predicate Spent(store: Store, t: Token) {
    match t
    case OfSession(sid) => sid < |store.sessions| && store.sessions[sid].revokedAt.Some?
    case OfLogin(token) => token in store.transactions && store.transactions[token].consumedAt.Some?
    case OfEvent(id) => id in store.receipts
  }

  /** The token a call holds between winning it and using it. */
  function Holds(client: Client): Option<Token> {
    match client
    case Rotated(sid) => Some(OfSession(sid))
    case LoggedIn(token, _) => Some(OfLogin(token))
    case Received(id, _) => Some(OfEvent(id))
    case _ => None
  }

  predicate Unused(system: System, t: Token) {
    (forall k :: 0 <= k < |system.store.sessions| ==> system.store.sessions[k].origin != t)
    && (t.OfEvent? ==> t.id !in system.effects)
  }

  predicate OriginSound(store: Store, k: nat)
    requires k < |store.sessions|
  {
    var origin := store.sessions[k].origin;
    Spent(store, origin) && (origin.OfSession? ==> origin.sid < k) && !origin.OfEvent?
  }

  predicate OriginsSound(store: Store) {
    forall k :: 0 <= k < |store.sessions| ==> OriginSound(store, k)
  }

  predicate OriginsDistinct(store: Store) {
    forall j, k :: 0 <= j < k < |store.sessions| ==> store.sessions[j].origin != store.sessions[k].origin
  }

  predicate EffectsSound(system: System) {
    (forall i :: 0 <= i < |system.effects| ==> system.effects[i] in system.store.receipts)
    && (forall i, j :: 0 <= i < j < |system.effects| ==> system.effects[i] != system.effects[j])
  }

  predicate ClaimSound(system: System, c: nat)
    requires c < |system.clients|
  {
    var t := Holds(system.clients[c]);
    t.Some? ==> Spent(system.store, t.value) && Unused(system, t.value)
  }

  predicate ClaimsSound(system: System) {
    forall c :: 0 <= c < |system.clients| ==> ClaimSound(system, c)
  }

  predicate ClaimsDistinct(clients: seq<Client>) {
    forall c, d :: 0 <= c < d < |clients| && Holds(clients[c]).Some? ==> Holds(clients[c]) != Holds(clients[d])
  }

  predicate TimesSound(store: Store) {
    forall k :: 0 <= k < |store.sessions| ==> store.sessions[k].idleAt <= store.sessions[k].absoluteAt
  }

  predicate Inv(system: System) {
    && OriginsSound(system.store) && OriginsDistinct(system.store) && TimesSound(system.store)
    && EffectsSound(system) && ClaimsSound(system) && ClaimsDistinct(system.clients)
  }

  /** What statements other than inserts do to the tables: marks are set and never cleared, idle limits
      move below absolute ones, and nothing else changes. */
  predicate RowSettles(s: Session, u: Session) {
    u.origin == s.origin && u.who == s.who && u.createdAt == s.createdAt && u.absoluteAt == s.absoluteAt
    && (s.revokedAt.Some? ==> u == s) && (s.idleAt <= s.absoluteAt ==> u.idleAt <= u.absoluteAt)
  }

  predicate Settles(a: Store, b: Store) {
    && |a.sessions| == |b.sessions|
    && (forall k :: 0 <= k < |a.sessions| ==> RowSettles(a.sessions[k], b.sessions[k]))
    && (forall t :: t in a.transactions && a.transactions[t].consumedAt.Some?
                    ==> t in b.transactions && b.transactions[t] == a.transactions[t])
    && a.receipts <= b.receipts
  }

  lemma SpentStays(a: Store, b: Store, t: Token)
    requires Settles(a, b) && Spent(a, t)
    ensures Spent(b, t)
  {
  }

  lemma SettlesKeepsTables(a: Store, b: Store)
    requires Settles(a, b) && OriginsSound(a) && OriginsDistinct(a) && TimesSound(a)
    ensures OriginsSound(b) && OriginsDistinct(b) && TimesSound(b)
  {
    forall k | 0 <= k < |b.sessions|
      ensures OriginSound(b, k)
    {
      assert OriginSound(a, k);
      SpentStays(a, b, a.sessions[k].origin);
    }
  }

  /** A claim survives whatever leaves its token's uses alone. */
  lemma ClaimStays(before: System, after: System, c: nat)
    requires c < |before.clients| && c < |after.clients| && after.clients[c] == before.clients[c]
    requires ClaimSound(before, c) && Settles(before.store, after.store)
    requires Holds(before.clients[c]).Some? && Holds(before.clients[c]).value.OfEvent? ==>
               (Holds(before.clients[c]).value.id in after.effects ==> Holds(before.clients[c]).value.id in before.effects)
    ensures ClaimSound(after, c)
  {
    var t := Holds(before.clients[c]);
    if t.Some? {
      SpentStays(before.store, after.store, t.value);
    }
  }

  /** A used token is spent, so a token that is not spent is unused and unclaimed. */
  lemma UnspentIsUnused(system: System, t: Token)
    requires Inv(system) && !Spent(system.store, t)
    ensures Unused(system, t)
    ensures forall c :: 0 <= c < |system.clients| ==> Holds(system.clients[c]) != Some(t)
  {
    forall k | 0 <= k < |system.store.sessions|
      ensures system.store.sessions[k].origin != t
    {
      assert OriginSound(system.store, k);
    }
    forall c | 0 <= c < |system.clients|
      ensures Holds(system.clients[c]) != Some(t)
    {
      assert ClaimSound(system, c);
    }
  }

  /** A statement that inserts nothing: its call ends up holding nothing, or a token it just spent. */
  lemma SettlingStep(system: System, i: nat, store: Store, next: Client)
    requires Inv(system) && i < |system.clients| && Settles(system.store, store)
    requires Holds(next).Some? ==> !Spent(system.store, Holds(next).value) && Spent(store, Holds(next).value)
    ensures Inv(System(store, system.clients[i := next], system.effects))
  {
    hide Spent, Settles;
    var after := System(store, system.clients[i := next], system.effects);
    SettlesKeepsTables(system.store, store);
    ReceiptsStay(system.store, store);
    if Holds(next).Some? {
      UnspentIsUnused(system, Holds(next).value);
      OriginsStay(system.store, store);
    }
    forall c | 0 <= c < |after.clients|
      ensures ClaimSound(after, c)
    {
      if c != i {
        assert ClaimSound(system, c);
        ClaimStays(system, after, c);
      }
    }
  }

  lemma ReceiptsStay(a: Store, b: Store)
    requires Settles(a, b)
    ensures a.receipts <= b.receipts
  {
  }

  lemma OriginsStay(a: Store, b: Store)
    requires Settles(a, b)
    ensures |a.sessions| == |b.sessions|
    ensures forall k :: 0 <= k < |a.sessions| ==> b.sessions[k].origin == a.sessions[k].origin
  {
  }

  lemma InsertKeepsSpent(store: Store, s: Session, t: Token)
    ensures Spent(store.(sessions := store.sessions + [s]), t) ==>
              Spent(store, t) || (t.OfSession? && t.sid == |store.sessions|)
    ensures Spent(store, t) ==> Spent(store.(sessions := store.sessions + [s]), t)
  {
  }

  lemma InsertKeepsTables(store: Store, s: Session)
    requires OriginsSound(store) && OriginsDistinct(store) && TimesSound(store)
    requires Spent(store, s.origin) && !s.origin.OfEvent? && Insertable(store.sessions, s)
    requires forall k :: 0 <= k < |store.sessions| ==> store.sessions[k].origin != s.origin
    ensures var after := store.(sessions := store.sessions + [s]);
      OriginsSound(after) && OriginsDistinct(after) && TimesSound(after)
  {
    var after := store.(sessions := store.sessions + [s]);
    forall k | 0 <= k < |after.sessions|
      ensures OriginSound(after, k)
    {
      InsertKeepsSpent(store, s, after.sessions[k].origin);
      if k < |store.sessions| {
        assert OriginSound(store, k);
      }
    }
  }

  /** The holder of a token inserts the session it stands for and stops holding it. */
  lemma InsertingStep(system: System, i: nat, s: Session)
    requires Inv(system) && i < |system.clients| && Holds(system.clients[i]) == Some(s.origin) && !s.origin.OfEvent?
    requires Insertable(system.store.sessions, s)
    ensures Inv(System(system.store.(sessions := system.store.sessions + [s]), system.clients[i := Finished], system.effects))
  {
    hide Spent, OriginsSound, OriginsDistinct, TimesSound, Insertable;
    var after := System(system.store.(sessions := system.store.sessions + [s]), system.clients[i := Finished], system.effects);
    assert ClaimSound(system, i);
    InsertKeepsTables(system.store, s);
    forall c | 0 <= c < |after.clients|
      ensures ClaimSound(after, c)
    {
      if c != i {
        assert ClaimSound(system, c);
        if Holds(system.clients[c]).Some? {
          InsertKeepsSpent(system.store, s, Holds(system.clients[c]).value);
        }
      }
    }
  }

  /** The holder of a webhook event carries out its effect. */
  lemma EffectStep(system: System, i: nat, store: Store)
    requires Inv(system) && i < |system.clients| && system.clients[i].Received? && Settles(system.store, store)
    ensures Inv(System(store, system.clients[i := Finished], system.effects + [system.clients[i].id]))
  {
    hide Settles;
    var after := System(store, system.clients[i := Finished], system.effects + [system.clients[i].id]);
    assert ClaimSound(system, i);
    SettlesKeepsTables(system.store, store);
    ReceiptsStay(system.store, store);
    forall c | 0 <= c < |after.clients|
      ensures ClaimSound(after, c)
    {
      if c != i {
        assert ClaimSound(system, c);
        assert Holds(system.clients[c]) != Holds(system.clients[i]);
        ClaimStays(system, after, c);
      }
    }
  }

  // ---------------------------------------------------------------- every statement is one of these steps

  lemma RevokeSettles(store: Store, sid: nat, at: int)
    ensures Settles(store, store.(sessions := Revoke(store.sessions, sid, at)))
  {
  }

  lemma ScopeSettles(store: Store, scope: Scope, at: int)
    ensures Settles(store, store.(sessions := RevokeScope(store.sessions, scope, at)))
  {
  }

  lemma TouchSettles(store: Store, sid: nat, seen: int, idle: int)
    ensures Settles(store, store.(sessions := Touch(store.sessions, sid, seen, idle)))
  {
  }

  lemma ConsumeSettles(store: Store, token: string, stateHash: string, at: int)
    ensures Settles(store, store.(transactions := Consume(store.transactions, token, stateHash, at)))
  {
  }

  lemma EffectSettles(store: Store, kind: EventKind, at: int)
    ensures Settles(store, WebhookEffect(store, kind, at))
  {
    match kind
    case SessionRevoked(Some(id)) => ScopeSettles(store, ProviderSession(id), at);
    case UserDeleted(Some(user)) => ScopeSettles(store, User(user), at);
    case _ =>
  }

  lemma RunStep(environment: Environment, system: System, i: nat, at: int)
    requires Inv(system) && i < |system.clients|
    ensures Inv(Apply(environment, system, Run(i, at)))
  {
    hide Inv, Settles;
    var store := system.store;
    var next := Statement(environment, store, system.clients[i], at).0;
    match system.clients[i]
    case Rotate(sid) =>
      RevokeSettles(store, sid, at);
      SettlingStep(system, i, next, if Live(store.sessions, sid) then Rotated(sid) else Finished);
    case Rotated(sid) =>
      if sid < |store.sessions| {
        InsertStep(system, i, Issue(environment, store.sessions[sid].who, OfSession(sid), at));
      } else {
        SameSettles(store);
        SettlingStep(system, i, store, Finished);
      }
    case Login(token, stateHash, who) =>
      ConsumeSettles(store, token, stateHash, at);
      SettlingStep(system, i, next, if Consumable(store.transactions, token, stateHash, at) then LoggedIn(token, who) else Finished);
    case LoggedIn(token, who) => InsertStep(system, i, Issue(environment, who, OfLogin(token), at));
    case Logout(sid) =>
      RevokeSettles(store, sid, at);
      SettlingStep(system, i, next, Finished);
    case Resolve(sid) =>
      SameSettles(store);
      SettlingStep(system, i, store, Statement(environment, store, system.clients[i], at).1);
    case Expire(sid) =>
      RevokeSettles(store, sid, at);
      SettlingStep(system, i, next, Finished);
    case Renew(sid, idle) =>
      TouchSettles(store, sid, at, idle);
      SettlingStep(system, i, next, Finished);
    case Webhook(id, kind) =>
      ReceiptSettles(store, id);
      SettlingStep(system, i, next, if id !in store.receipts then Received(id, kind) else Finished);
    case Received(id, kind) =>
      EffectSettles(store, kind, at);
      EffectStep(system, i, next);
    case Finished =>
      SameSettles(store);
      SettlingStep(system, i, store, Finished);
  }

  lemma SameSettles(store: Store)
    ensures Settles(store, store)
  {
  }

  lemma ReceiptSettles(store: Store, id: string)
    ensures Settles(store, store.(receipts := store.receipts + {id}))
  {
  }

  lemma InsertStep(system: System, i: nat, s: Session)
    requires Inv(system) && i < |system.clients| && Holds(system.clients[i]) == Some(s.origin) && !s.origin.OfEvent?
    ensures Inv(System(Insert(system.store, s), system.clients[i := Finished], system.effects))
  {
    hide Inv;
    if Insertable(system.store.sessions, s) {
      InsertingStep(system, i, s);
    } else {
      SameSettles(system.store);
      SettlingStep(system, i, system.store, Finished);
    }
  }

  /** A table change outside the calls. */
  lemma OutsideStep(system: System, store: Store)
    requires Inv(system) && Settles(system.store, store)
    ensures Inv(system.(store := store))
  {
    hide Settles;
    SettlesKeepsTables(system.store, store);
    ReceiptsStay(system.store, store);
    forall c | 0 <= c < |system.clients|
      ensures ClaimSound(system.(store := store), c)
    {
      assert ClaimSound(system, c);
      ClaimStays(system, system.(store := store), c);
    }
  }

  lemma StartStep(system: System, client: Client)
    requires Inv(system) && Initial(client)
    ensures Inv(system.(clients := system.clients + [client]))
  {
    var after := system.(clients := system.clients + [client]);
    forall c | 0 <= c < |after.clients|
      ensures ClaimSound(after, c)
    {
      if c < |system.clients| {
        assert ClaimSound(system, c);
      }
    }
  }

  lemma ApplyKeepsInv(environment: Environment, system: System, action: Action)
    requires Inv(system)
    ensures Inv(Apply(environment, system, action))
  {
    hide Inv, Statement;
    match action
    case Start(client) =>
      if Initial(client) {
        StartStep(system, client);
      }
    case Run(i, at) =>
      if i < |system.clients| {
        RunStep(environment, system, i, at);
      }
    case Open(token, stateHash, expiresAt) =>
      if token !in system.store.transactions {
        OutsideStep(system, system.store.(transactions := system.store.transactions[token := OAuth(stateHash, expiresAt, None)]));
      }
    case AccessChange(scope, at) =>
      ScopeSettles(system.store, scope, at);
      OutsideStep(system, system.store.(sessions := RevokeScope(system.store.sessions, scope, at)));
  }

  lemma {:induction false} AlwaysInv(environment: Environment, actions: seq<Action>)
    ensures Inv(After(environment, actions))
    decreases |actions|
  {
    if actions != [] {
      AlwaysInv(environment, actions[..|actions| - 1]);
      ApplyKeepsInv(environment, After(environment, actions[..|actions| - 1]), actions[|actions| - 1]);
    }
  }

  // ---------------------------------------------------------------- who a session is for

  /** The call that consumed a transaction: for whom, under which state, and when. */
  datatype Consumption = Consumption(who: Who, stateHash: string, at: int)

  /** The consumption made by an action, if it is the one that set the transaction's mark. */
  function ConsumedNow(before: System, action: Action, after: System, token: string): Option<Consumption> {
    match action
    case Run(i, at) =>
      if i < |before.clients| && before.clients[i].Login? && before.clients[i].token == token
         && !Spent(before.store, OfLogin(token)) && Spent(after.store, OfLogin(token))
      then Some(Consumption(before.clients[i].who, before.clients[i].stateHash, at)) else None
    case _ => None
  }

  /** How a transaction was consumed in a run. */
  function ConsumedBy(environment: Environment, actions: seq<Action>, token: string): Option<Consumption>
    decreases |actions|
  {
    if actions == [] then None
    else
      var before := actions[..|actions| - 1];
      match ConsumedBy(environment, before, token)
      case Some(c) => Some(c)
      case None =>
        ConsumedNow(After(environment, before), actions[|actions| - 1], After(environment, actions), token)
  }

  /** The consumption agrees with the table: same state, before expiry, at the recorded time; and only
      logins consume. */
  ghost predicate Recorded(store: Store, token: string, c: Option<Consumption>) {
    && (c.Some? ==>
        && token in store.transactions && store.transactions[token].consumedAt == Some(c.value.at)
        && store.transactions[token].stateHash == c.value.stateHash && c.value.at < store.transactions[token].expiresAt)
    && (Spent(store, OfLogin(token)) ==> c.Some?)
  }

  /** Sessions and calls that stand for a login are for the identity that consumed its transaction. */
  ghost predicate ForConsumer(system: System, token: string, c: Option<Consumption>) {
    && (forall k :: 0 <= k < |system.store.sessions| && system.store.sessions[k].origin == OfLogin(token)
          ==> c.Some? && system.store.sessions[k].who == c.value.who)
    && (forall i :: 0 <= i < |system.clients| && system.clients[i].LoggedIn? && system.clients[i].token == token
          ==> c.Some? && system.clients[i].who == c.value.who)
  }

  /** A successor is for the identity of its predecessor. */
  ghost predicate InheritsWho(sessions: seq<Session>) {
    forall k :: 0 <= k < |sessions| && sessions[k].origin.OfSession? && sessions[k].origin.sid < k
      ==> sessions[k].who == sessions[sessions[k].origin.sid].who
  }

  lemma SettlingKeepsWho(system: System, i: nat, store: Store, next: Client, token: string, c: Option<Consumption>)
    requires ForConsumer(system, token, c) && InheritsWho(system.store.sessions)
    requires i < |system.clients| && Settles(system.store, store)
    requires next.LoggedIn? && next.token == token ==> c.Some? && next.who == c.value.who
    ensures ForConsumer(System(store, system.clients[i := next], system.effects), token, c) && InheritsWho(store.sessions)
  {
    assert forall k :: 0 <= k < |store.sessions| ==> RowSettles(system.store.sessions[k], store.sessions[k]);
  }

  lemma InsertingKeepsWho(system: System, i: nat, s: Session, token: string, c: Option<Consumption>)
    requires ForConsumer(system, token, c) && InheritsWho(system.store.sessions) && i < |system.clients|
    requires s.origin == OfLogin(token) ==> c.Some? && s.who == c.value.who
    requires s.origin.OfSession? && s.origin.sid < |system.store.sessions| ==> s.who == system.store.sessions[s.origin.sid].who
    ensures var after := System(Insert(system.store, s), system.clients[i := Finished], system.effects);
      ForConsumer(after, token, c) && InheritsWho(after.store.sessions)
  {
  }

  /** Statements other than a login's leave all marks of transactions alone. */
  lemma OnlyLoginsConsume(environment: Environment, store: Store, client: Client, at: int)
    ensures !client.Login? ==> Statement(environment, store, client, at).0.transactions == store.transactions
  {
    match client
    case Received(_, SessionRevoked(Some(id))) =>
    case Received(_, UserDeleted(Some(user))) =>
    case _ =>
  }

  /** The call's next statement consumes that transaction. */
  predicate Consumes(store: Store, client: Client, at: int, token: string) {
    client.Login? && client.token == token && Consumable(store.transactions, token, client.stateHash, at)
  }

  /** A transaction changes in a statement only by being consumed. */
  lemma TransactionsStep(environment: Environment, store: Store, client: Client, at: int, token: string)
    ensures var after := Statement(environment, store, client, at).0.transactions;
      && (token in after <==> token in store.transactions)
      && (token in after ==>
            after[token] == if Consumes(store, client, at, token) then store.transactions[token].(consumedAt := Some(at))
                            else store.transactions[token])
  {
    OnlyLoginsConsume(environment, store, client, at);
  }

  lemma RunKeepsWho(environment: Environment, system: System, i: nat, at: int, token: string, c: Option<Consumption>)
    requires ForConsumer(system, token, c) && InheritsWho(system.store.sessions) && i < |system.clients|
    requires Consumes(system.store, system.clients[i], at, token) ==> c.Some? && system.clients[i].who == c.value.who
    ensures var after := Apply(environment, system, Run(i, at));
      ForConsumer(after, token, c) && InheritsWho(after.store.sessions)
  {
    hide InheritsWho, Settles, Insert, Issue, Revoke, Touch, Consumable, WebhookEffect;
    var store, client := system.store, system.clients[i];
    var (next, later) := Statement(environment, store, client, at);
    match client
    case Rotate(sid) => RevokeSettles(store, sid, at); SettlingKeepsWho(system, i, next, later, token, c);
    case Rotated(sid) =>
      if sid < |store.sessions| {
        var s := Issue(environment, store.sessions[sid].who, OfSession(sid), at);
        IssuedIs(environment, store.sessions[sid].who, OfSession(sid), at);
        InsertingKeepsWho(system, i, s, token, c);
      } else {
        SameSettles(store);
        SettlingKeepsWho(system, i, next, later, token, c);
      }
    case Login(t, stateHash, who) => ConsumeSettles(store, t, stateHash, at); SettlingKeepsWho(system, i, next, later, token, c);
    case LoggedIn(t, who) =>
      IssuedIs(environment, who, OfLogin(t), at);
      InsertingKeepsWho(system, i, Issue(environment, who, OfLogin(t), at), token, c);
    case Logout(sid) => RevokeSettles(store, sid, at); SettlingKeepsWho(system, i, next, later, token, c);
    case Resolve(sid) => SameSettles(store); SettlingKeepsWho(system, i, next, later, token, c);
    case Expire(sid) => RevokeSettles(store, sid, at); SettlingKeepsWho(system, i, next, later, token, c);
    case Renew(sid, idle) => TouchSettles(store, sid, at, idle); SettlingKeepsWho(system, i, next, later, token, c);
    case Webhook(id, kind) => ReceiptSettles(store, id); SettlingKeepsWho(system, i, next, later, token, c);
    case Received(id, kind) =>
      EffectSettles(store, kind, at);
      SettlingKeepsWho(system, i, next, later, token, c);
    case Finished => SameSettles(store); SettlingKeepsWho(system, i, next, later, token, c);
  }

  lemma RunRecords(environment: Environment, system: System, i: nat, at: int, token: string, c: Option<Consumption>)
    requires Recorded(system.store, token, c) && i < |system.clients|
    ensures var action, after := Run(i, at), Apply(environment, system, Run(i, at));
      var now := if c.Some? then c else ConsumedNow(system, action, after, token);
      && Recorded(after.store, token, now)
      && (Consumes(system.store, system.clients[i], at, token) ==> now.Some? && now.value.who == system.clients[i].who)
  {
    hide Statement;
    TransactionsStep(environment, system.store, system.clients[i], at, token);
  }

  /** A login that had no consumption before stood for no session and no call. */
  lemma ConsumerAppears(system: System, token: string, c: Option<Consumption>, now: Option<Consumption>)
    requires ForConsumer(system, token, c) && (c.Some? ==> now == c)
    ensures ForConsumer(system, token, now)
  {
  }

  lemma {:induction false} WhoHistory(environment: Environment, actions: seq<Action>, token: string)
    ensures var system, c := After(environment, actions), ConsumedBy(environment, actions, token);
      Recorded(system.store, token, c) && ForConsumer(system, token, c) && InheritsWho(system.store.sessions)
    decreases |actions|
  {
    if actions != [] {
      hide Statement, Recorded, ForConsumer, InheritsWho;
      var before, last := actions[..|actions| - 1], actions[|actions| - 1];
      var system, c := After(environment, before), ConsumedBy(environment, before, token);
      var now := ConsumedBy(environment, actions, token);
      WhoHistory(environment, before, token);
      match last
      case Run(i, at) =>
        if i < |system.clients| {
          RunRecords(environment, system, i, at, token, c);
          ConsumerAppears(system, token, c, now);
          RunKeepsWho(environment, system, i, at, token, now);
        }
      case Start(client) => StartKeepsWho(system, client, token, c);
      case Open(t, stateHash, expiresAt) => OpenKeepsWho(system, t, stateHash, expiresAt, token, c);
      case AccessChange(scope, at) => AccessKeepsWho(system, scope, at, token, c);
    }
  }

  lemma StartKeepsWho(system: System, client: Client, token: string, c: Option<Consumption>)
    requires ForConsumer(system, token, c)
    ensures Initial(client) ==> ForConsumer(system.(clients := system.clients + [client]), token, c)
  {
  }

  lemma OpenKeepsWho(system: System, t: string, stateHash: string, expiresAt: int, token: string, c: Option<Consumption>)
    requires Recorded(system.store, token, c) && ForConsumer(system, token, c)
    ensures t !in system.store.transactions ==>
      var store := system.store.(transactions := system.store.transactions[t := OAuth(stateHash, expiresAt, None)]);
      Recorded(store, token, c) && ForConsumer(system.(store := store), token, c)
  {
  }

  lemma AccessKeepsWho(system: System, scope: Scope, at: int, token: string, c: Option<Consumption>)
    requires Recorded(system.store, token, c) && ForConsumer(system, token, c) && InheritsWho(system.store.sessions)
    ensures var store := system.store.(sessions := RevokeScope(system.store.sessions, scope, at));
      Recorded(store, token, c) && ForConsumer(system.(store := store), token, c) && InheritsWho(store.sessions)
  {
    hide RevokeScope;
    var store := system.store.(sessions := RevokeScope(system.store.sessions, scope, at));
    ScopeSettles(system.store, scope, at);
    assert forall k :: 0 <= k < |store.sessions| ==> RowSettles(system.store.sessions[k], store.sessions[k]);
  }

  /** Under every interleaving a session opened by a login is for the identity given by the call that consumed
      its transaction; that call named the transaction's state and came before its expiry. */
  lemma LoginOpensForItsCaller(environment: Environment, actions: seq<Action>, token: string, k: nat)
    requires k < |After(environment, actions).store.sessions|
    requires After(environment, actions).store.sessions[k].origin == OfLogin(token)
    ensures var store, c := After(environment, actions).store, ConsumedBy(environment, actions, token);
      && c.Some? && store.sessions[k].who == c.value.who
      && token in store.transactions && store.transactions[token].stateHash == c.value.stateHash
      && store.transactions[token].consumedAt == Some(c.value.at) && c.value.at < store.transactions[token].expiresAt
  {
    WhoHistory(environment, actions, token);
  }

  lemma {:induction false} WhoOfRoot(sessions: seq<Session>, k: nat)
    requires k < |sessions| && InheritsWho(sessions)
    ensures sessions[k].who == sessions[Root(sessions, k)].who
    decreases k
  {
    if sessions[k].origin.OfSession? && sessions[k].origin.sid < k {
      WhoOfRoot(sessions, sessions[k].origin.sid);
    }
  }

  /** Every session of a lineage is for the identity of its root. */
  lemma LineageHasOneIdentity(environment: Environment, actions: seq<Action>, k: nat)
    requires k < |After(environment, actions).store.sessions|
    ensures var sessions := After(environment, actions).store.sessions;
      sessions[k].who == sessions[Root(sessions, k)].who
  {
    WhoHistory(environment, actions, "");
    WhoOfRoot(After(environment, actions).store.sessions, k);
  }

  /** A bulk revocation takes exactly the live sessions of the provider session, user or member named. */
  lemma ScopeExact(sessions: seq<Session>, scope: Scope, at: int, k: nat)
    requires k < |sessions|
    ensures var s, r := sessions[k], RevokeScope(sessions, scope, at)[k];
      var named := match scope {
        case ProviderSession(id) => s.who.provider == Some(id)
        case User(user) => s.who.user == user
        case Member(user, tenant) => s.who.user == user && s.who.tenant == tenant
      };
      r == if named && s.revokedAt.None? then s.(revokedAt := Some(at)) else s
  {
  }

  /** A webhook event revokes the sessions of the provider session or of the deleted user it names, and
      changes nothing else. */
  lemma WebhookEffectExact(store: Store, kind: EventKind, at: int, k: nat)
    requires k < |store.sessions|
    ensures var after := WebhookEffect(store, kind, at);
      && after.transactions == store.transactions && after.receipts == store.receipts
      && |after.sessions| == |store.sessions|
      && (after.sessions[k] != store.sessions[k] <==>
          store.sessions[k].revokedAt.None?
          && ((kind.SessionRevoked? && kind.session.Some? && store.sessions[k].who.provider == kind.session)
              || (kind.UserDeleted? && kind.user == Some(store.sessions[k].who.user))))
      && (after.sessions[k] != store.sessions[k] ==> after.sessions[k] == store.sessions[k].(revokedAt := Some(at)))
  {
    match kind
    case SessionRevoked(Some(id)) => ScopeExact(store.sessions, ProviderSession(id), at, k);
    case UserDeleted(Some(user)) => ScopeExact(store.sessions, User(user), at, k);
    case _ =>
  }

  lemma IssuedIs(environment: Environment, who: Who, origin: Token, at: int)
    ensures JustOpened(Issue(environment, who, origin, at), environment, who, origin, at)
  {
  }

  // ---------------------------------------------------------------- what every interleaving keeps

  /** Each session has at most one successor. */
  lemma AtMostOneSuccessor(environment: Environment, actions: seq<Action>, sid: nat, j: nat, k: nat)
    requires var sessions := After(environment, actions).store.sessions;
      j < |sessions| && k < |sessions| && sessions[j].origin == sessions[k].origin == OfSession(sid)
    ensures j == k
  {
    AlwaysInv(environment, actions);
  }

  /** Each login transaction opens at most one session, and only after it was consumed. */
  lemma AtMostOneSessionPerLogin(environment: Environment, actions: seq<Action>, token: string, j: nat, k: nat)
    requires var sessions := After(environment, actions).store.sessions;
      j < |sessions| && k < |sessions| && sessions[j].origin == sessions[k].origin == OfLogin(token)
    ensures j == k
    ensures Spent(After(environment, actions).store, OfLogin(token))
  {
    AlwaysInv(environment, actions);
    assert OriginSound(After(environment, actions).store, j);
  }

  /** Each webhook event takes effect at most once, however often it is delivered. */
  lemma AtMostOneEffectPerEvent(environment: Environment, actions: seq<Action>, i: nat, j: nat)
    requires var effects := After(environment, actions).effects;
      i < |effects| && j < |effects| && effects[i] == effects[j]
    ensures i == j
  {
    AlwaysInv(environment, actions);
  }

  /** The session at the start of a rotation lineage. */
  function Root(sessions: seq<Session>, k: nat): (r: nat)
    requires k < |sessions|
    ensures r <= k
    decreases k
  {
    match sessions[k].origin
    case OfSession(sid) => if sid < k then Root(sessions, sid) else k
    case _ => k
  }

  /** The number of rotations behind a session. */
  function Depth(sessions: seq<Session>, k: nat): nat
    requires k < |sessions|
    decreases k
  {
    match sessions[k].origin
    case OfSession(sid) => if sid < k then Depth(sessions, sid) + 1 else 0
    case _ => 0
  }

  lemma {:induction false} SameDepthSameSession(store: Store, j: nat, k: nat)
    requires OriginsSound(store) && OriginsDistinct(store) && j < |store.sessions| && k < |store.sessions|
    requires Root(store.sessions, j) == Root(store.sessions, k) && Depth(store.sessions, j) == Depth(store.sessions, k)
    ensures j == k
    decreases j
  {
    assert OriginSound(store, j) && OriginSound(store, k);
    if Depth(store.sessions, j) > 0 {
      SameDepthSameSession(store, store.sessions[j].origin.sid, store.sessions[k].origin.sid);
    }
  }

  lemma {:induction false} ShallowerIsRevoked(store: Store, j: nat, k: nat)
    requires OriginsSound(store) && OriginsDistinct(store) && j < |store.sessions| && k < |store.sessions|
    requires Root(store.sessions, j) == Root(store.sessions, k) && Depth(store.sessions, j) < Depth(store.sessions, k)
    ensures store.sessions[j].revokedAt.Some?
    decreases k
  {
    assert OriginSound(store, k);
    var parent := store.sessions[k].origin.sid;
    if Depth(store.sessions, parent) == Depth(store.sessions, j) {
      SameDepthSameSession(store, j, parent);
    } else {
      ShallowerIsRevoked(store, j, parent);
    }
  }

  /** Each rotation lineage has at most one unrevoked session. */
  lemma OneLivePerLineage(environment: Environment, actions: seq<Action>, j: nat, k: nat)
    requires var sessions := After(environment, actions).store.sessions;
      Live(sessions, j) && Live(sessions, k) && Root(sessions, j) == Root(sessions, k)
    ensures j == k
  {
    AlwaysInv(environment, actions);
    var store := After(environment, actions).store;
    if Depth(store.sessions, j) < Depth(store.sessions, k) {
      ShallowerIsRevoked(store, j, k);
    } else if Depth(store.sessions, k) < Depth(store.sessions, j) {
      ShallowerIsRevoked(store, k, j);
    } else {
      SameDepthSameSession(store, j, k);
    }
  }

  /** A login transaction has at most one unrevoked session among all descendants of what it opened. */
  lemma OneLivePerLogin(environment: Environment, actions: seq<Action>, token: string, j: nat, k: nat)
    requires var sessions := After(environment, actions).store.sessions;
      Live(sessions, j) && Live(sessions, k)
      && sessions[Root(sessions, j)].origin == sessions[Root(sessions, k)].origin == OfLogin(token)
    ensures j == k
  {
    var sessions := After(environment, actions).store.sessions;
    AtMostOneSessionPerLogin(environment, actions, token, Root(sessions, j), Root(sessions, k));
    OneLivePerLineage(environment, actions, j, k);
  }

  /** A row after a run, compared with the same row before it. */
  predicate RowAged(s: Session, u: Session) {
    u.origin == s.origin && u.who == s.who && u.createdAt == s.createdAt && u.absoluteAt == s.absoluteAt
    && (s.revokedAt.Some? ==> u == s)
  }

  predicate Aged(a: Store, b: Store) {
    |a.sessions| <= |b.sessions| && (forall k :: 0 <= k < |a.sessions| ==> RowAged(a.sessions[k], b.sessions[k]))
  }

  lemma StatementAges(environment: Environment, store: Store, client: Client, at: int)
    ensures Aged(store, Statement(environment, store, client, at).0)
  {
    match client
    case Rotate(sid) => RevokeSettles(store, sid, at);
    case Rotated(sid) =>
    case Login(token, stateHash, who) =>
    case LoggedIn(token, who) =>
    case Logout(sid) => RevokeSettles(store, sid, at);
    case Resolve(sid) =>
    case Expire(sid) => RevokeSettles(store, sid, at);
    case Renew(sid, idle) => TouchSettles(store, sid, at, idle);
    case Webhook(id, kind) =>
    case Received(id, kind) => EffectSettles(store, kind, at);
    case Finished =>
  }

  /** Sessions never disappear, revocation is final, and no statement extends an absolute limit. */
  lemma {:induction false} RevocationIsFinal(environment: Environment, actions: seq<Action>, i: nat)
    requires i <= |actions|
    ensures Aged(After(environment, actions[..i]).store, After(environment, actions).store)
    decreases |actions| - i, |actions|
  {
    hide Statement;
    if i == |actions| {
      assert actions[..i] == actions;
    } else {
      var before, last := actions[..|actions| - 1], actions[|actions| - 1];
      assert before[..i] == actions[..i];
      RevocationIsFinal(environment, before, i);
      var system := After(environment, before);
      match last
      case Run(index, at) =>
        if index < |system.clients| {
          StatementAges(environment, system.store, system.clients[index], at);
        }
      case AccessChange(scope, at) =>
      case Start(_) =>
      case Open(_, _, _) =>
    }
  }

  /** In every reachable state a session's idle limit is at most its absolute limit. */
  lemma IdleWithinAbsolute(environment: Environment, actions: seq<Action>, k: nat)
    requires k < |After(environment, actions).store.sessions|
    ensures var s := After(environment, actions).store.sessions[k];
      s.idleAt <= s.absoluteAt
  {
    AlwaysInv(environment, actions);
  }
}
