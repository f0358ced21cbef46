// Refresh tokens: rotation, reuse detection and logout over the stored rows.
module Tokens {
  import opened Prelude

  type Time = nat
  type User = int
  // A row's key; a raw token and its hash are one with the row they name.
  type TokenId = int

  // `login` and `generation` are no columns: they say which login a token
  // descends from and by how many rotations, so that properties can speak of it.
  datatype Row = Row(
    user: User,
    expiresAt: Time,
    revokedAt: Option<Time>,
    replacedBy: Option<TokenId>,
    login: TokenId,
    generation: nat)
  {
    predicate Revoked() { revokedAt.Some? }
  }

  // `used` holds every key ever given out; `life` is how long a token is valid.
  datatype Store = Store(now: Time, life: Time, users: set<User>, rows: map<TokenId, Row>, used: set<TokenId>)

  datatype Outcome = Issued(id: TokenId) | InvalidToken | ReuseDetected | TokenExpired

  function Issue(s: Store, user: User, id: TokenId, login: TokenId, generation: nat): Store {
    s.(rows := s.rows[id := Row(user, s.now + s.life, None, None, login, generation)], used := s.used + {id})
  }

  function LogIn(s: Store, user: User, id: TokenId): Store {
    Issue(s, user, id, id, 0)
  }

  /** Revokes every unrevoked token of a user. */
  function RevokeAll(s: Store, user: User): Store {
    s.(rows := map x | x in s.rows ::
      if s.rows[x].user == user && !s.rows[x].Revoked() then s.rows[x].(revokedAt := Some(s.now)) else s.rows[x])
  }

  /** `id` is the fresh key of the token that is issued, if one is. */
  function Rotate(s: Store, token: TokenId, id: TokenId): (Outcome, Store) {
    if token !in s.rows then (InvalidToken, s)
    else
      var row := s.rows[token];
      if row.Revoked() then (ReuseDetected, RevokeAll(s, row.user))
      else if row.expiresAt < s.now then (TokenExpired, s)
      else if row.user !in s.users then (InvalidToken, s)
      else
        var issued := Issue(s, row.user, id, row.login, row.generation + 1);
        (Issued(id), issued.(rows := issued.rows[token := row.(revokedAt := Some(s.now), replacedBy := Some(id))]))
  }

  function LogOut(s: Store, token: TokenId): Store {
    if token in s.rows && !s.rows[token].Revoked()
    then s.(rows := s.rows[token := s.rows[token].(revokedAt := Some(s.now))])
    else s
  }

  /** Deletes the expired rows. */
  function Purge(s: Store): Store {
    s.(rows := map x | x in s.rows && s.rows[x].expiresAt >= s.now :: s.rows[x])
  }

  // ----- runs -----

  datatype Event =
    | Tick(to: Time)
    | LoginEvent(user: User, id: TokenId)
    | RefreshEvent(token: TokenId, id: TokenId)
    | LogoutEvent(token: TokenId)
    | PurgeEvent
    | UsersEvent(users: set<User>)

  predicate Enabled(s: Store, e: Event) {
    match e
    case Tick(to) => s.now <= to
    case LoginEvent(user, id) => id !in s.used
    case RefreshEvent(_, id) => id !in s.used
    case _ => true
  }

  function Next(s: Store, e: Event): Store {
    match e
    case Tick(to) => s.(now := to)
    case LoginEvent(user, id) => LogIn(s, user, id)
    case RefreshEvent(token, id) => Rotate(s, token, id).1
    case LogoutEvent(token) => LogOut(s, token)
    case PurgeEvent => Purge(s)
    case UsersEvent(users) => s.(users := users)
  }

  predicate CanRun(s: Store, events: seq<Event>)
    decreases |events|
  {
    events != [] ==> Enabled(s, events[0]) && CanRun(Next(s, events[0]), events[1..])
  }

  function Run(s: Store, events: seq<Event>): Store
    decreases |events|
  {
    if events == [] then s else Run(Next(s, events[0]), events[1..])
  }

  // ----- replacement chains -----

  /** A replacement is the next generation of the same login, and outlives what it replaces. */
  ghost predicate EdgeInv(s: Store, x: TokenId)
    requires x in s.rows
  {
    s.rows[x].replacedBy.Some? ==>
      var y := s.rows[x].replacedBy.value;
      && s.rows[x].Revoked()
      && y in s.rows
      && s.rows[y].user == s.rows[x].user
      && s.rows[y].login == s.rows[x].login
      && s.rows[y].generation == s.rows[x].generation + 1
      && s.rows[x].expiresAt <= s.rows[y].expiresAt
  }

  /** Within a login there is one token a generation, and all but the last are replaced. */
  ghost predicate PairInv(a: Row, b: Row, x: TokenId, y: TokenId) {
    a.login == b.login ==>
      && (a.generation == b.generation ==> x == y)
      && (a.generation < b.generation ==> a.replacedBy.Some?)
  }

  ghost predicate RowInv(s: Store, x: TokenId)
    requires x in s.rows
  {
    x in s.used && s.rows[x].login in s.used && s.rows[x].expiresAt <= s.now + s.life
  }

  ghost predicate Inv(s: Store) {
    && (forall x :: x in s.rows ==> RowInv(s, x) && EdgeInv(s, x))
    && (forall x, y :: x in s.rows && y in s.rows ==> PairInv(s.rows[x], s.rows[y], x, y))
  }

  lemma IssuedKeeps(s: Store, token: TokenId, id: TokenId)
    requires Inv(s) && id !in s.used && Rotate(s, token, id).0.Issued?
    ensures Inv(Rotate(s, token, id).1)
  {
    var s' := Rotate(s, token, id).1;
    forall x, y | x in s'.rows && y in s'.rows ensures PairInv(s'.rows[x], s'.rows[y], x, y) {
      if x in s.rows && y in s.rows {
        assert PairInv(s.rows[x], s.rows[y], x, y);
      } else if x in s.rows {
        assert PairInv(s.rows[x], s.rows[token], x, token) && PairInv(s.rows[token], s.rows[x], token, x);
      } else if y in s.rows {
        assert PairInv(s.rows[token], s.rows[y], token, y) && PairInv(s.rows[y], s.rows[token], y, token);
      }
    }
    forall x | x in s'.rows ensures RowInv(s', x) && EdgeInv(s', x) {
      if x in s.rows { assert RowInv(s, x) && EdgeInv(s, x); }
    }
    assert RowInv(s, token);
  }

  lemma LoginKeeps(s: Store, user: User, id: TokenId)
    requires Inv(s) && id !in s.used
    ensures Inv(LogIn(s, user, id))
  {
    var s' := LogIn(s, user, id);
    forall x | x in s'.rows ensures RowInv(s', x) && EdgeInv(s', x) {
      if x != id { assert RowInv(s, x) && EdgeInv(s, x); }
    }
    forall x, y | x in s'.rows && y in s'.rows ensures PairInv(s'.rows[x], s'.rows[y], x, y) {
      if x != id { assert RowInv(s, x); }
      if y != id { assert RowInv(s, y); }
    }
  }

  /** Rows that only get revoked, or go in the order they expire, keep the chains. */
  lemma RevokedOrGoneKeeps(s: Store, s': Store)
    requires Inv(s) && s'.used == s.used && s'.life == s.life && s.now <= s'.now
    requires forall x :: x in s'.rows ==> x in s.rows && (s'.rows[x] == s.rows[x] || Marked(s.rows[x], s'.rows[x]))
    requires forall x, y :: x in s'.rows && y in s.rows && s.rows[x].expiresAt <= s.rows[y].expiresAt ==> y in s'.rows
    ensures Inv(s')
  {
    forall x | x in s'.rows ensures RowInv(s', x) && EdgeInv(s', x) {
      assert RowInv(s, x) && EdgeInv(s, x);
    }
    forall x, y | x in s'.rows && y in s'.rows ensures PairInv(s'.rows[x], s'.rows[y], x, y) {
      assert PairInv(s.rows[x], s.rows[y], x, y);
    }
  }

  /** Revoked, and otherwise the same. */
  predicate Marked(row: Row, row': Row) {
    row'.revokedAt.Some? && row' == row.(revokedAt := row'.revokedAt)
  }

  lemma NextKeeps(s: Store, e: Event)
    requires Inv(s) && Enabled(s, e)
    ensures Inv(Next(s, e))
  {
    match e {
      case LoginEvent(user, id) => LoginKeeps(s, user, id);
      case RefreshEvent(token, id) =>
        if Rotate(s, token, id).0.Issued? { IssuedKeeps(s, token, id); } else { RevokedOrGoneKeeps(s, Next(s, e)); }
      case _ => RevokedOrGoneKeeps(s, Next(s, e));
    }
  }

  lemma {:induction false} RunKeeps(s: Store, events: seq<Event>)
    requires Inv(s) && CanRun(s, events)
    ensures Inv(Run(s, events))
    decreases |events|
  {
    if events != [] {
      NextKeeps(s, events[0]);
      RunKeeps(Next(s, events[0]), events[1..]);
    }
  }

  function Empty(life: Time, users: set<User>): Store {
    Store(0, life, users, map[], {})
  }

  /** The token `n` replacements further on. */
  function Follow(s: Store, x: TokenId, n: nat): Option<TokenId>
    decreases n
  {
    if n == 0 then Some(x)
    else if x !in s.rows || s.rows[x].replacedBy.None? then None
    else Follow(s, s.rows[x].replacedBy.value, n - 1)
  }

  lemma {:induction false} FollowGenerations(s: Store, x: TokenId, n: nat)
    requires Inv(s) && x in s.rows && Follow(s, x, n).Some?
    ensures Follow(s, x, n).value in s.rows
    ensures s.rows[Follow(s, x, n).value].generation == s.rows[x].generation + n
    ensures s.rows[Follow(s, x, n).value].login == s.rows[x].login
    decreases n
  {
    if n > 0 {
      assert EdgeInv(s, x);
      FollowGenerations(s, s.rows[x].replacedBy.value, n - 1);
    }
  }

  lemma {:induction false} FollowReaches(s: Store, x: TokenId, y: TokenId, n: nat)
    requires Inv(s) && x in s.rows && y in s.rows && s.rows[x].login == s.rows[y].login
    requires s.rows[y].generation == s.rows[x].generation + n
    ensures Follow(s, x, n) == Some(y)
    decreases n
  {
    assert PairInv(s.rows[x], s.rows[y], x, y);
    if n > 0 {
      assert EdgeInv(s, x);
      FollowReaches(s, s.rows[x].replacedBy.value, y, n - 1);
    }
  }

  /** On every run the tokens of a login form one chain without a cycle. */
  lemma LoginIsChain(life: Time, users: set<User>, events: seq<Event>, x: TokenId, y: TokenId)
    requires CanRun(Empty(life, users), events)
    requires var s := Run(Empty(life, users), events); x in s.rows && y in s.rows
    ensures var s := Run(Empty(life, users), events);
            && (s.rows[x].login == s.rows[y].login <==>
                  (exists n :: Follow(s, x, n) == Some(y)) || (exists n :: Follow(s, y, n) == Some(x)))
            && forall n: nat :: Follow(s, x, n) == Some(x) ==> n == 0
  {
    RunKeeps(Empty(life, users), events);
    var s := Run(Empty(life, users), events);
    forall n: nat | Follow(s, x, n).Some?
      ensures Follow(s, x, n).value in s.rows
      ensures s.rows[Follow(s, x, n).value].generation == s.rows[x].generation + n
      ensures s.rows[Follow(s, x, n).value].login == s.rows[x].login
    {
      FollowGenerations(s, x, n);
    }
    forall n: nat | Follow(s, y, n) == Some(x) ensures s.rows[x].login == s.rows[y].login {
      FollowGenerations(s, y, n);
    }
    if s.rows[x].login == s.rows[y].login {
      if s.rows[x].generation <= s.rows[y].generation {
        FollowReaches(s, x, y, s.rows[y].generation - s.rows[x].generation);
      } else {
        FollowReaches(s, y, x, s.rows[x].generation - s.rows[y].generation);
      }
    }
  }

  /** On every run at most one token of a login is unrevoked. */
  lemma OneLivePerLogin(life: Time, users: set<User>, events: seq<Event>, x: TokenId, y: TokenId)
    requires CanRun(Empty(life, users), events)
    requires var s := Run(Empty(life, users), events);
             x in s.rows && y in s.rows && !s.rows[x].Revoked() && !s.rows[y].Revoked() && s.rows[x].login == s.rows[y].login
    ensures x == y
  {
    RunKeeps(Empty(life, users), events);
    var s := Run(Empty(life, users), events);
    assert EdgeInv(s, x) && EdgeInv(s, y);
    assert PairInv(s.rows[x], s.rows[y], x, y) && PairInv(s.rows[y], s.rows[x], y, x);
  }

  // ----- reuse -----

  ghost predicate NoneLive(s: Store, user: User) {
    forall x :: x in s.rows && s.rows[x].user == user ==> s.rows[x].Revoked()
  }

  /** Reuse is detected exactly on revoked tokens; it ends all sessions of that user and touches no other's. */
  lemma ReuseExactly(s: Store, token: TokenId, id: TokenId)
    ensures var (outcome, s') := Rotate(s, token, id);
            && (outcome == ReuseDetected <==> token in s.rows && s.rows[token].Revoked())
            && (outcome == ReuseDetected ==> NoneLive(s', s.rows[token].user) && s'.rows.Keys == s.rows.Keys)
            && (forall x :: x in s.rows && (token in s.rows ==> s.rows[x].user != s.rows[token].user) && x != id ==>
                  x in s'.rows && s'.rows[x] == s.rows[x])
  {
  }

  // ----- what can be exchanged -----

  /**
   * A token is exchanged exactly when it is stored, not revoked, not expired and
   * of a user that exists. What comes back is a new token of that user with a
   * whole life before it, and the old one is revoked now and points to it.
   */
  lemma ExchangedExactly(s: Store, token: TokenId, id: TokenId)
    requires id !in s.rows
    ensures var (outcome, s') := Rotate(s, token, id);
            && (outcome.Issued? <==>
                  token in s.rows && s.rows[token].revokedAt.None?
                  && s.now <= s.rows[token].expiresAt && s.rows[token].user in s.users)
            && (outcome.Issued? ==>
                  && outcome == Issued(id) && s'.rows.Keys == s.rows.Keys + {id}
                  && s'.rows[id].user == s.rows[token].user && s'.rows[id].expiresAt == s.now + s.life
                  && s'.rows[id].revokedAt.None? && s'.rows[id].replacedBy.None?
                  && s'.rows[token] == s.rows[token].(revokedAt := Some(s.now), replacedBy := Some(id))
                  && forall x :: x in s.rows && x != token ==> s'.rows[x] == s.rows[x])
  {
  }

  /** Every other outcome and its one cause; but for reuse, a refusal changes nothing. */
  lemma RefusedExactly(s: Store, token: TokenId, id: TokenId)
    ensures var (outcome, s') := Rotate(s, token, id);
            && (outcome == TokenExpired <==>
                  token in s.rows && s.rows[token].revokedAt.None? && s.rows[token].expiresAt < s.now)
            && (outcome == InvalidToken <==>
                  token !in s.rows ||
                  (s.rows[token].revokedAt.None? && s.now <= s.rows[token].expiresAt && s.rows[token].user !in s.users))
            && (outcome == InvalidToken || outcome == TokenExpired ==> s' == s)
            && (outcome != ReuseDetected && !outcome.Issued? ==> outcome == InvalidToken || outcome == TokenExpired)
  {
  }

  /** A stored token's expiry never changes, and neither does how long tokens live. */
  lemma {:induction false} ExpiryFixed(s: Store, events: seq<Event>, x: TokenId)
    requires Inv(s) && CanRun(s, events) && x in s.rows
    ensures x in Run(s, events).rows ==> Run(s, events).rows[x].expiresAt == s.rows[x].expiresAt
    decreases |events|
  {
    if events != [] {
      NextKeeps(s, events[0]);
      assert RowInv(s, x);
      var s' := Next(s, events[0]);
      if x in s'.rows {
        ExpiryFixed(s', events[1..], x);
      } else {
        StaysGone(s', events[1..], x);
      }
    }
  }

  /** The event gives out token `x`. */
  predicate GivesOut(s: Store, e: Event, x: TokenId) {
    match e
    case LoginEvent(_, id) => id == x
    case RefreshEvent(token, id) => Rotate(s, token, id).0 == Issued(x)
    case _ => false
  }

  /** No run exchanges a token later than one life after it was given out. */
  lemma NoLateExchange(s: Store, e: Event, x: TokenId, events: seq<Event>, id: TokenId)
    requires Inv(s) && Enabled(s, e) && GivesOut(s, e, x) && CanRun(Next(s, e), events)
    ensures var later := Run(Next(s, e), events);
            Rotate(later, x, id).0.Issued? ==> later.now <= s.now + s.life
  {
    NextKeeps(s, e);
    ExpiryFixed(Next(s, e), events, x);
  }

  /** Logging out revokes that token, if it is stored, and no other; it is never exchanged again. */
  lemma LoggedOutForGood(s: Store, token: TokenId, events: seq<Event>, id: TokenId)
    requires Inv(s) && token in s.rows && CanRun(LogOut(s, token), events)
    ensures LogOut(s, token).rows.Keys == s.rows.Keys && LogOut(s, token).rows[token].revokedAt.Some?
    ensures forall x :: x in s.rows && x != token ==> LogOut(s, token).rows[x] == s.rows[x]
    ensures !Rotate(Run(LogOut(s, token), events), token, id).0.Issued?
  {
    NextKeeps(s, LogoutEvent(token));
    RevokedStaysRevoked(LogOut(s, token), events, token);
  }

  /** A login adds a token that can be exchanged for a whole life. */
  lemma LoginAdds(s: Store, user: User, x: TokenId)
    requires x !in s.rows
    ensures var s' := LogIn(s, user, x);
            && s'.rows.Keys == s.rows.Keys + {x} && (forall y :: y in s.rows ==> s'.rows[y] == s.rows[y])
            && s'.rows[x].user == user && s'.rows[x].revokedAt.None? && s'.rows[x].expiresAt == s.now + s.life
  {
  }

  /** A purge deletes the expired rows and leaves the others as they are. */
  lemma PurgeExactly(s: Store, x: TokenId)
    ensures x in Purge(s).rows <==> x in s.rows && s.now <= s.rows[x].expiresAt
    ensures x in Purge(s).rows ==> Purge(s).rows[x] == s.rows[x]
  {
  }

  /** No event takes back a revocation; only a purge removes the row. */
  lemma {:induction false} RevokedStaysRevoked(s: Store, events: seq<Event>, x: TokenId)
    requires Inv(s) && CanRun(s, events) && x in s.rows && s.rows[x].Revoked()
    ensures x in Run(s, events).rows ==>
              Run(s, events).rows[x].Revoked() && Run(s, events).rows[x].user == s.rows[x].user
    decreases |events|
  {
    if events != [] {
      NextKeeps(s, events[0]);
      assert RowInv(s, x);
      var s' := Next(s, events[0]);
      if x in s'.rows {
        RevokedStaysRevoked(s', events[1..], x);
      } else {
        StaysGone(s', events[1..], x);
      }
    }
  }

  lemma {:induction false} StaysGone(s: Store, events: seq<Event>, x: TokenId)
    requires CanRun(s, events) && x !in s.rows && x in s.used
    ensures x !in Run(s, events).rows
    decreases |events|
  {
    if events != [] { StaysGone(Next(s, events[0]), events[1..], x); }
  }

  /** A token that was exchanged is never exchanged again: presenting it later ends every session of its user. */
  lemma ReplayDetected(s: Store, token: TokenId, id: TokenId, events: seq<Event>, id': TokenId)
    requires Inv(s) && id !in s.used && Rotate(s, token, id).0.Issued?
    requires CanRun(Rotate(s, token, id).1, events)
    ensures var later := Run(Rotate(s, token, id).1, events);
            var (outcome, end) := Rotate(later, token, id');
            if token in later.rows
            then outcome == ReuseDetected && NoneLive(end, s.rows[token].user)
            else outcome == InvalidToken && end == later
  {
    IssuedKeeps(s, token, id);
    assert RowInv(s, token);
    RevokedStaysRevoked(Rotate(s, token, id).1, events, token);
    ReuseExactly(Run(Rotate(s, token, id).1, events), token, id');
  }

  // ----- the service -----

  class AuthService {
    var now: Time
    var users: set<User>
    var rows: map<TokenId, Row>
    var used: set<TokenId>
    const life: Time

    constructor (life: Time, users: set<User>)
      ensures Abstract() == Empty(life, users)
    {
      this.life := life;
      this.users := users;
      now := 0;
      rows := map[];
      used := {};
    }

    function Abstract(): Store
      reads this
    {
      Store(now, life, users, rows, used)
    }

    method IssueTokenPair(user: User, id: TokenId, login: TokenId, generation: nat)
      requires id !in used
      modifies this`rows, this`used
      ensures Abstract() == Issue(old(Abstract()), user, id, login, generation)
    {
      rows := rows[id := Row(user, now + life, None, None, login, generation)];
      used := used + {id};
    }

    /** After the password has been checked. */
    method Login(user: User, id: TokenId)
      requires Inv(Abstract()) && id !in used
      modifies this`rows, this`used
      ensures Abstract() == LogIn(old(Abstract()), user, id)
      ensures Inv(Abstract())
    {
      NextKeeps(Abstract(), LoginEvent(user, id));
      IssueTokenPair(user, id, id, 0);
    }

    method Refresh(token: TokenId, id: TokenId) returns (outcome: Outcome)
      requires Inv(Abstract()) && id !in used
      modifies this`rows, this`used
      ensures (outcome, Abstract()) == Rotate(old(Abstract()), token, id)
      ensures Inv(Abstract())
    {
      NextKeeps(Abstract(), RefreshEvent(token, id));
      if token !in rows {
        return InvalidToken;
      }
      var existing := rows[token];
      if existing.Revoked() {
        rows := RevokeAll(Abstract(), existing.user).rows;
        return ReuseDetected;
      }
      if existing.expiresAt < now {
        return TokenExpired;
      }
      if existing.user !in users {
        return InvalidToken;
      }
      IssueTokenPair(existing.user, id, existing.login, existing.generation + 1);
      existing := existing.(revokedAt := Some(now), replacedBy := Some(id));
      rows := rows[token := existing];
      return Issued(id);
    }

    method Logout(token: Option<TokenId>)
      requires Inv(Abstract())
      modifies this`rows
      ensures Abstract() == if token.Some? then LogOut(old(Abstract()), token.value) else old(Abstract())
      ensures Inv(Abstract())
    {
      if token.None? {
        return;
      }
      NextKeeps(Abstract(), LogoutEvent(token.value));
      if token.value in rows && !rows[token.value].Revoked() {
        rows := rows[token.value := rows[token.value].(revokedAt := Some(now))];
      }
    }
  }
}
