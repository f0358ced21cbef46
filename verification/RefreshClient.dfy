// A browser and the server: refreshes, logins and logouts in flight, and when
// the browser can come to present a revoked token.
module RefreshClient {
  import opened Prelude
  import Tokens
  type TokenId = Tokens.TokenId
  type User = Tokens.User
  type Request = int

  // A request on its way to the server, or its reply on the way back.
  datatype Pending =
    | RefreshSent(token: Option<TokenId>)
    | RefreshDone(token: Option<TokenId>, reply: Option<TokenId>)
    | LogoutSent(token: Option<TokenId>)
    | LogoutDone(token: Option<TokenId>)
    | LoginSent(user: User)
    | LoginDone(id: TokenId)
  {
    predicate Refresh() { RefreshSent? || RefreshDone? }
    predicate Logout() { LogoutSent? || LogoutDone? }
  }

  // `mine` are the tokens issued to this browser, `delivered` those that arrived.
  datatype World = World(
    store: Tokens.Store,
    cookie: Option<TokenId>,
    pending: map<Request, Pending>,
    mine: set<TokenId>,
    delivered: set<TokenId>)

  /**
   * How things are used: refreshes go through the single flight; a logout and
   * a refresh never overlap; nobody else presents tokens of this browser, nor
   * revoked tokens of a user of this browser; every reply arrives.
   */
  datatype Policy = Policy(single: bool, separate: bool, confined: bool, honest: bool, reliable: bool)

  const CAREFUL := Policy(true, true, true, true, true)

  // Elsewhere is anything the server does for other browsers.
  datatype Event =
    | CallRefresh(r: Request)
    | CallLogout(r: Request)
    | CallLogin(r: Request, user: User)
    | Serve(r: Request, id: TokenId)
    | Deliver(r: Request)
    | Lose(r: Request)
    | CookieExpires
    | Elsewhere(e: Tokens.Event)

  predicate Idle(w: World, refresh: bool, logout: bool) {
    forall r :: r in w.pending ==> (refresh ==> !w.pending[r].Refresh()) && (logout ==> !w.pending[r].Logout())
  }

  predicate Sent(p: Pending) { p.RefreshSent? || p.LogoutSent? || p.LoginSent? }

  predicate RowRevoked(s: Tokens.Store, x: TokenId) { x in s.rows && s.rows[x].Revoked() }

  predicate OthersMay(p: Policy, w: World, e: Tokens.Event) {
    match e
    case RefreshEvent(token, _) =>
      && (p.confined ==> token !in w.mine)
      && (p.honest && RowRevoked(w.store, token) ==>
            forall x :: x in w.mine && x in w.store.rows ==> w.store.rows[x].user != w.store.rows[token].user)
    case LogoutEvent(token) => p.confined ==> token !in w.mine
    case _ => true
  }

  predicate Enabled(p: Policy, w: World, e: Event) {
    match e
    case CallRefresh(r) => r !in w.pending && Idle(w, p.single, p.separate)
    case CallLogout(r) => r !in w.pending && Idle(w, p.separate, false)
    case CallLogin(r, _) => r !in w.pending
    case Serve(r, id) => r in w.pending && Sent(w.pending[r]) && id !in w.store.used
    case Deliver(r) => r in w.pending && !Sent(w.pending[r])
    case Lose(r) => !p.reliable && r in w.pending
    case CookieExpires => true
    case Elsewhere(other) => Tokens.Enabled(w.store, other) && OthersMay(p, w, other)
  }

  function Served(w: World, r: Request, id: TokenId): World
    requires r in w.pending
  {
    match w.pending[r]
    case RefreshSent(Some(token)) =>
      var (outcome, store) := Tokens.Rotate(w.store, token, id);
      if outcome.Issued?
      then w.(store := store, pending := w.pending[r := RefreshDone(Some(token), Some(id))], mine := w.mine + {id})
      else w.(store := store, pending := w.pending[r := RefreshDone(Some(token), None)])
    case RefreshSent(None) => w.(pending := w.pending[r := RefreshDone(None, None)])
    case LogoutSent(token) =>
      w.(store := if token.Some? then Tokens.LogOut(w.store, token.value) else w.store,
         pending := w.pending[r := LogoutDone(token)])
    case LoginSent(user) =>
      w.(store := Tokens.LogIn(w.store, user, id), pending := w.pending[r := LoginDone(id)], mine := w.mine + {id})
    case _ => w
  }

  /** What the reply does to the browser's cookie; a refused refresh leaves it. */
  function Delivered(w: World, r: Request): World
    requires r in w.pending
  {
    var rest := w.(pending := w.pending - {r});
    match w.pending[r]
    case RefreshDone(_, Some(id)) => rest.(cookie := Some(id), delivered := w.delivered + {id})
    case LoginDone(id) => rest.(cookie := Some(id), delivered := w.delivered + {id})
    case LogoutDone(_) => rest.(cookie := None)
    case _ => rest
  }

  function Next(w: World, e: Event): World {
    match e
    case CallRefresh(r) => w.(pending := w.pending[r := RefreshSent(w.cookie)])
    case CallLogout(r) => w.(pending := w.pending[r := LogoutSent(w.cookie)])
    case CallLogin(r, user) => w.(pending := w.pending[r := LoginSent(user)])
    case Serve(r, id) => if r in w.pending then Served(w, r, id) else w
    case Deliver(r) => if r in w.pending then Delivered(w, r) else w
    case Lose(r) => w.(pending := w.pending - {r})
    case CookieExpires => w.(cookie := None)
    case Elsewhere(other) => w.(store := Tokens.Next(w.store, other))
  }

  function Start(life: Tokens.Time, users: set<User>): World {
    World(Tokens.Empty(life, users), None, map[], {}, {})
  }

  predicate CanRun(p: Policy, w: World, events: seq<Event>)
    decreases |events|
  {
    events != [] ==> Enabled(p, w, events[0]) && CanRun(p, Next(w, events[0]), events[1..])
  }

  function Run(w: World, events: seq<Event>): World
    decreases |events|
  {
    if events == [] then w else Run(Next(w, events[0]), events[1..])
  }

  /** `w` comes about in a run that begins with nobody logged in. */
  ghost predicate Reachable(p: Policy, w: World) {
    exists life, users, events :: CanRun(p, Start(life, users), events) && Run(Start(life, users), events) == w
  }

  /** The browser's refresh reaches the server with a token that is revoked. */
  predicate PresentsRevoked(w: World, e: Event) {
    && e.Serve? && e.r in w.pending && w.pending[e.r].RefreshSent?
    && w.pending[e.r].token.Some? && RowRevoked(w.store, w.pending[e.r].token.value)
  }

  ghost predicate Safe(p: Policy) {
    forall w, e :: Reachable(p, w) && Enabled(p, w, e) ==> !PresentsRevoked(w, e)
  }

  // ----- the careful browser is safe -----

  /** A token in waiting: issued to this browser, not delivered, not revoked. */
  ghost predicate InWaiting(w: World, id: TokenId) {
    id in w.mine && id !in w.delivered && !RowRevoked(w.store, id)
  }

  ghost predicate PendingInv(w: World, p: Pending) {
    match p
    case RefreshSent(token) => token.Some? ==> token.value in w.delivered && !RowRevoked(w.store, token.value)
    case RefreshDone(token, reply) => reply.Some? ==> InWaiting(w, reply.value)
    case LogoutSent(token) => token.Some? ==> token.value in w.delivered
    case LoginDone(id) => InWaiting(w, id)
    case _ => true
  }

  function Arriving(p: Pending): Option<TokenId> {
    match p
    case RefreshDone(_, reply) => reply
    case LoginDone(id) => Some(id)
    case _ => None
  }

  ghost predicate PairInv(a: Pending, b: Pending) {
    && !(a.Refresh() && (b.Refresh() || b.Logout()))
    && (Arriving(a).Some? ==> Arriving(a) != Arriving(b))
  }

  /** The cookie is good, or the reply that replaces or clears it is on its way. */
  ghost predicate CookieInv(w: World) {
    w.cookie.Some? ==>
      && w.cookie.value in w.delivered
      && (!RowRevoked(w.store, w.cookie.value) || exists r :: r in w.pending && Replaces(w.pending[r]))
  }

  predicate Replaces(p: Pending) {
    p.LogoutDone? || (p.RefreshDone? && p.reply.Some?)
  }

  ghost predicate Inv(w: World) {
    && w.delivered <= w.mine <= w.store.used
    && w.store.rows.Keys <= w.store.used
    && CookieInv(w)
    && (forall r :: r in w.pending ==> PendingInv(w, w.pending[r]))
    && (forall a, b :: a in w.pending && b in w.pending && a != b ==> PairInv(w.pending[a], w.pending[b]))
  }

  /** Nothing becomes revoked but what `x` names. */
  ghost predicate OnlyRevokes(s: Tokens.Store, s': Tokens.Store, mine: set<TokenId>, x: Option<TokenId>) {
    && s.used <= s'.used && s'.rows.Keys <= s'.used
    && forall y :: y in mine && Some(y) != x && RowRevoked(s', y) ==> RowRevoked(s, y)
  }

  lemma ElsewhereKeeps(w: World, e: Tokens.Event)
    requires Inv(w) && Enabled(CAREFUL, w, Elsewhere(e))
    ensures Inv(Next(w, Elsewhere(e)))
  {
    assert OnlyRevokes(w.store, Tokens.Next(w.store, e), w.mine, None);
    forall r | r in w.pending ensures PendingInv(Next(w, Elsewhere(e)), w.pending[r]) {
      assert PendingInv(w, w.pending[r]);
    }
  }

  lemma RefreshServedKeeps(w: World, r: Request, id: TokenId)
    requires Inv(w) && Enabled(CAREFUL, w, Serve(r, id)) && w.pending[r].RefreshSent?
    ensures Inv(Served(w, r, id))
  {
    var w' := Served(w, r, id);
    assert PendingInv(w, w.pending[r]);
    assert OnlyRevokes(w.store, w'.store, w.mine, w.pending[r].token);
    forall x | x in w'.pending ensures PendingInv(w', w'.pending[x]) {
      assert PendingInv(w, w.pending[x]);
      if x != r { assert PairInv(w.pending[r], w.pending[x]); }
    }
    forall a, b | a in w'.pending && b in w'.pending && a != b ensures PairInv(w'.pending[a], w'.pending[b]) {
      assert PairInv(w.pending[a], w.pending[b]);
      assert PendingInv(w, w.pending[a]) && PendingInv(w, w.pending[b]);
    }
    assert Replaces(w'.pending[r]) || w'.store.rows == w.store.rows;
  }

  lemma OtherServedKeeps(w: World, r: Request, id: TokenId)
    requires Inv(w) && Enabled(CAREFUL, w, Serve(r, id)) && !w.pending[r].RefreshSent?
    ensures Inv(Served(w, r, id))
  {
    var w' := Served(w, r, id);
    assert PendingInv(w, w.pending[r]);
    assert OnlyRevokes(w.store, w'.store, w.mine, if w.pending[r].LogoutSent? then w.pending[r].token else None);
    forall x | x in w'.pending ensures PendingInv(w', w'.pending[x]) {
      assert PendingInv(w, w.pending[x]);
      if x != r { assert PairInv(w.pending[x], w.pending[r]); }
    }
    forall a, b | a in w'.pending && b in w'.pending && a != b ensures PairInv(w'.pending[a], w'.pending[b]) {
      assert PairInv(w.pending[a], w.pending[b]);
      assert PendingInv(w, w.pending[a]) && PendingInv(w, w.pending[b]);
    }
    if w.cookie.Some? && RowRevoked(w'.store, w.cookie.value) {
      if RowRevoked(w.store, w.cookie.value) {
        var x :| x in w.pending && Replaces(w.pending[x]);
        assert x in w'.pending && Replaces(w'.pending[x]);
      } else {
        assert Replaces(w'.pending[r]);
      }
    }
  }

  lemma DeliverKeeps(w: World, r: Request)
    requires Inv(w) && Enabled(CAREFUL, w, Deliver(r))
    ensures Inv(Delivered(w, r))
  {
    var w' := Delivered(w, r);
    assert PendingInv(w, w.pending[r]);
    forall x | x in w'.pending ensures PendingInv(w', w'.pending[x]) {
      assert PendingInv(w, w.pending[x]) && PairInv(w.pending[r], w.pending[x]) && PairInv(w.pending[x], w.pending[r]);
    }
  }

  lemma CallKeeps(w: World, e: Event)
    requires Inv(w) && Enabled(CAREFUL, w, e) && (e.CallRefresh? || e.CallLogout? || e.CallLogin?)
    ensures Inv(Next(w, e))
  {
    var w' := Next(w, e);
    forall x | x in w'.pending ensures PendingInv(w', w'.pending[x]) {
      if x in w.pending { assert PendingInv(w, w.pending[x]); }
    }
    if w.cookie.Some? && RowRevoked(w.store, w.cookie.value) {
      var x :| x in w.pending && Replaces(w.pending[x]);
      assert x in w'.pending && Replaces(w'.pending[x]);
    }
  }

  lemma NextKeeps(w: World, e: Event)
    requires Inv(w) && Enabled(CAREFUL, w, e)
    ensures Inv(Next(w, e))
  {
    match e {
      case Serve(r, id) =>
        if w.pending[r].RefreshSent? { RefreshServedKeeps(w, r, id); } else { OtherServedKeeps(w, r, id); }
      case Deliver(r) => DeliverKeeps(w, r);
      case CookieExpires =>
      case Elsewhere(other) => ElsewhereKeeps(w, other);
      case _ => CallKeeps(w, e);
    }
  }

  lemma {:induction false} RunKeeps(w: World, events: seq<Event>)
    requires Inv(w) && CanRun(CAREFUL, w, events)
    ensures Inv(Run(w, events))
    decreases |events|
  {
    if events != [] {
      NextKeeps(w, events[0]);
      RunKeeps(Next(w, events[0]), events[1..]);
    }
  }

  // ----- and only the careful one -----

  lemma {:induction false} RunThen(p: Policy, w: World, events: seq<Event>, e: Event)
    requires CanRun(p, w, events) && Enabled(p, Run(w, events), e)
    ensures CanRun(p, w, events + [e]) && Run(w, events + [e]) == Next(Run(w, events), e)
    decreases |events|
  {
    if events == [] {
      assert [e][1..] == [];
    } else {
      assert (events + [e])[1..] == events[1..] + [e];
      RunThen(p, Next(w, events[0]), events[1..], e);
    }
  }

  lemma Reach(p: Policy, w: World, e: Event) returns (w': World)
    requires Reachable(p, w) && Enabled(p, w, e)
    ensures w' == Next(w, e) && Reachable(p, w')
  {
    var life, users, events :| CanRun(p, Start(life, users), events) && Run(Start(life, users), events) == w;
    RunThen(p, Start(life, users), events, e);
    w' := Next(w, e);
  }

  /** Logged in, with token 10 as the cookie. */
  lemma LoggedIn(p: Policy) returns (w: World)
    ensures Reachable(p, w)
    ensures w == World(Tokens.LogIn(Tokens.Empty(100, {1}), 1, 10), Some(10), map[], {10}, {10})
  {
    var w0 := Start(100, {1});
    assert CanRun(p, w0, []) && Run(w0, []) == w0;
    var w1 := Reach(p, w0, CallLogin(0, 1));
    var w2 := Reach(p, w1, Serve(0, 10));
    w := Reach(p, w2, Deliver(0));
    assert w.pending == map[];
  }

  /** Two refreshes at once: the second presents what the first replaced. */
  lemma WithoutSingleFlight(p: Policy)
    requires !p.single
    ensures !Safe(p)
  {
    var w := LoggedIn(p);
    w := Reach(p, w, CallRefresh(1));
    w := Reach(p, w, CallRefresh(2));
    w := Reach(p, w, Serve(1, 11));
    assert PresentsRevoked(w, Serve(2, 12)) && Enabled(p, w, Serve(2, 12));
  }

  /** A logout overtakes a refresh. */
  lemma WithOverlap(p: Policy)
    requires !p.separate
    ensures !Safe(p)
  {
    var w := LoggedIn(p);
    w := Reach(p, w, CallRefresh(1));
    w := Reach(p, w, CallLogout(2));
    w := Reach(p, w, Serve(2, 11));
    assert PresentsRevoked(w, Serve(1, 12)) && Enabled(p, w, Serve(1, 12));
  }

  /** Somebody else exchanges this browser's token. */
  lemma WithTheft(p: Policy)
    requires !p.confined
    ensures !Safe(p)
  {
    var w := LoggedIn(p);
    w := Reach(p, w, Elsewhere(Tokens.RefreshEvent(10, 11)));
    w := Reach(p, w, CallRefresh(1));
    assert PresentsRevoked(w, Serve(1, 12)) && Enabled(p, w, Serve(1, 12));
  }

  /** Another login of a user exchanges its token and then presents it again. */
  function Replay(s: Tokens.Store, user: User, a: TokenId, b: TokenId, c: TokenId): Tokens.Store {
    Tokens.Rotate(Exchanged(s, user, a, b), a, c).1
  }

  function Exchanged(s: Tokens.Store, user: User, a: TokenId, b: TokenId): Tokens.Store {
    Tokens.Rotate(Tokens.LogIn(s, user, a), a, b).1
  }

  lemma ReplayRevokes(s: Tokens.Store, user: User, a: TokenId, b: TokenId, c: TokenId, x: TokenId)
    requires a !in s.used && b !in s.used && a != b && s.rows.Keys <= s.used
    requires user in s.users && x in s.rows && s.rows[x].user == user
    ensures Exchanged(s, user, a, b).used == s.used + {a, b}
    ensures RowRevoked(Replay(s, user, a, b, c), x) && Replay(s, user, a, b, c).used == s.used + {a, b}
  {
    var e := Exchanged(s, user, a, b);
    assert RowRevoked(e, a) && e.rows[a].user == user && x in e.rows && e.rows[x].user == user;
    Tokens.ReuseExactly(e, a, c);
  }

  lemma ReachElsewhere(p: Policy, w: World, e: Tokens.Event) returns (w': World)
    requires Reachable(p, w) && Enabled(p, w, Elsewhere(e))
    ensures Reachable(p, w') && w' == w.(store := Tokens.Next(w.store, e))
  {
    w' := Reach(p, w, Elsewhere(e));
  }

  lemma Replayed(p: Policy) returns (w: World)
    requires !p.honest
    ensures Reachable(p, w) && w.pending == map[] && w.cookie == Some(10)
    ensures RowRevoked(w.store, 10) && 12 !in w.store.used
  {
    w := LoggedIn(p);
    var s := w.store;
    ReplayRevokes(s, 1, 20, 21, 22, 10);
    w := ReachElsewhere(p, w, Tokens.LoginEvent(1, 20));
    w := ReachElsewhere(p, w, Tokens.RefreshEvent(20, 21));
    assert w.store == Exchanged(s, 1, 20, 21);
    w := ReachElsewhere(p, w, Tokens.RefreshEvent(20, 22));
    assert w.store == Replay(s, 1, 20, 21, 22);
  }

  /** It ends this browser's session too. */
  lemma WithReplayElsewhere(p: Policy)
    requires !p.honest
    ensures !Safe(p)
  {
    var w := Replayed(p);
    w := Reach(p, w, CallRefresh(1));
    assert PresentsRevoked(w, Serve(1, 12)) && Enabled(p, w, Serve(1, 12));
  }

  /** A reply is lost, and the browser still holds the replaced token. */
  lemma WithLoss(p: Policy)
    requires !p.reliable
    ensures !Safe(p)
  {
    var w := LoggedIn(p);
    w := Reach(p, w, CallRefresh(1));
    w := Reach(p, w, Serve(1, 11));
    w := Reach(p, w, Lose(1));
    w := Reach(p, w, CallRefresh(2));
    assert PresentsRevoked(w, Serve(2, 12)) && Enabled(p, w, Serve(2, 12));
  }

  /** The browser never presents a revoked token if and only if all five conditions are kept. */
  lemma SafeExactly(p: Policy)
    ensures Safe(p) <==> p.single && p.separate && p.confined && p.honest && p.reliable
  {
    if p == CAREFUL {
      forall w, e | Reachable(p, w) && Enabled(p, w, e) ensures !PresentsRevoked(w, e) {
        var life, users, events :| CanRun(p, Start(life, users), events) && Run(Start(life, users), events) == w;
        RunKeeps(Start(life, users), events);
        if e.Serve? { assert PendingInv(w, w.pending[e.r]); }
      }
    } else {
      if !p.single { WithoutSingleFlight(p); }
      if !p.separate { WithOverlap(p); }
      if !p.confined { WithTheft(p); }
      if !p.honest { WithReplayElsewhere(p); }
      if !p.reliable { WithLoss(p); }
    }
  }

  // ----- a refresh that succeeds -----

  /** An untroubled refresh ends with a new cookie that can be exchanged for a whole life from the exchange. */
  lemma RefreshRoundTrip(p: Policy, w: World, r: Request, id: TokenId)
    requires Enabled(p, w, CallRefresh(r)) && id !in w.store.used && w.store.rows.Keys <= w.store.used
    requires w.cookie.Some? && w.cookie.value in w.store.rows && !w.store.rows[w.cookie.value].Revoked()
    requires w.store.now <= w.store.rows[w.cookie.value].expiresAt && w.store.rows[w.cookie.value].user in w.store.users
    ensures var sent := Next(w, CallRefresh(r));
            var served := Next(sent, Serve(r, id));
            var end := Next(served, Deliver(r));
            && Enabled(p, sent, Serve(r, id)) && Enabled(p, served, Deliver(r))
            && end.cookie == Some(id) && end.pending == w.pending
            && id in end.store.rows && !end.store.rows[id].Revoked()
            && end.store.rows[id].expiresAt == w.store.now + w.store.life
            && end.store.rows[id].user == w.store.rows[w.cookie.value].user
  {
    Tokens.ExchangedExactly(w.store, w.cookie.value, id);
    var end := Next(Next(Next(w, CallRefresh(r)), Serve(r, id)), Deliver(r));
    assert end.pending == w.pending;
  }

  /** A refused refresh leaves the browser its cookie; a logout takes it. */
  lemma RepliesExactly(w: World, r: Request)
    requires r in w.pending
    ensures w.pending[r].RefreshDone? && w.pending[r].reply.None? ==> Delivered(w, r).cookie == w.cookie
    ensures w.pending[r].LogoutDone? ==> Delivered(w, r).cookie == None
    ensures w.pending[r].LoginDone? ==> Delivered(w, r).cookie == Some(w.pending[r].id)
  {
  }
}
