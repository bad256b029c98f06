/**
 * Temporary moderation actions: `tempban` records when a ban should be lifted,
 * and a periodic reconciliation tick (`unban_task`) lifts the expired ones in
 * every guild the bot is in. Time is whole seconds since some fixed epoch.
 */
module TempActions {

  type UserId = nat
  type GuildId = nat

  /** The temporary actions the bot offers; only bans are ever recorded. */
  datatype Kind = Ban | Kick

  /** A recorded action and the time from which it has expired. */
  datatype Action = Action(kind: Kind, endTime: int)

  /** What one attempt to lift a ban in one guild comes to: fetching the user
      and unbanning them succeeded, one of them reported that the user or the
      ban was not found, or some other platform error was raised. */
  datatype UnbanOutcome = Unbanned | NotFound | OtherError

  /** One unban attempt: this user, in this guild. */
  datatype Attempt = Attempt(user: UserId, guild: GuildId)

  /** One item of the snapshot a tick iterates over. */
  datatype Entry = Entry(user: UserId, action: Action)

  /** The store as a value: the users in insertion order (the order in which a
      dictionary is iterated) and their recorded actions. */
  datatype Store = Store(order: seq<UserId>, actions: map<UserId, Action>)

  predicate Distinct(s: seq<UserId>)
  {
    forall i, j :: 0 <= i < j < |s| ==> s[i] != s[j]
  }

  /** The order lists each recorded user exactly once. */
  predicate WellFormed(st: Store)
  {
    Distinct(st.order) &&
    (forall u :: u in st.order ==> u in st.actions) &&
    (forall u :: u in st.actions ==> u in st.order)
  }

  /** `list(temp_actions.items())`: the snapshot a tick iterates over. */
  function Items(st: Store): (items: seq<Entry>)
    requires WellFormed(st)
    ensures |items| == |st.order|
    ensures forall k :: 0 <= k < |items| ==>
      items[k].user == st.order[k] && items[k].action == st.actions[st.order[k]]
  {
    seq(|st.order|, k requires 0 <= k < |st.order| => Entry(st.order[k], st.actions[st.order[k]]))
  }

  /** `s` with every occurrence of `x` removed, the rest in order. */
  function Without(s: seq<UserId>, x: UserId): (r: seq<UserId>)
    ensures forall y :: y in r <==> y in s && y != x
    ensures Distinct(s) ==> Distinct(r)
    decreases |s|
  {
    if s == [] then []
    else if s[0] == x then Without(s[1..], x)
    else
      var rest := Without(s[1..], x);
      assert Distinct(s) ==> Distinct([s[0]] + rest) by {
        if Distinct(s) {
          ConsDistinct(s[0], rest);
        }
      }
      [s[0]] + rest
  }

  lemma ConsDistinct(x: UserId, s: seq<UserId>)
    requires Distinct(s) && x !in s
    ensures Distinct([x] + s)
  {
    var r := [x] + s;
    forall i, j | 0 <= i < j < |r| ensures r[i] != r[j] {
      assert r[j] == s[j - 1];
    }
  }

  /** `temp_actions[user] = action`: an existing entry is overwritten in place,
      a new one goes to the end of the order. */
  function Record(st: Store, user: UserId, action: Action): (r: Store)
    ensures r.actions.Keys == st.actions.Keys + {user} && r.actions[user] == action
    ensures forall u :: u in st.actions && u != user ==> r.actions[u] == st.actions[u]
    ensures |r.order| == if user in st.actions then |st.order| else |st.order| + 1
  {
    Store(if user in st.actions then st.order else st.order + [user], st.actions[user := action])
  }

  /** `temp_actions.pop(user)` */
  function Pop(st: Store, user: UserId): (r: Store)
    ensures r.actions.Keys == st.actions.Keys - {user}
    ensures forall u :: u in r.actions ==> r.actions[u] == st.actions[u]
    ensures forall u :: u in r.order <==> u in st.order && u != user
  {
    Store(Without(st.order, user), st.actions - {user})
  }

  /** `now >= end_time` */
  predicate Expired(action: Action, now: int)
  {
    now >= action.endTime
  }

  /** The attempts made for one user, guild by guild, and whether a platform
      error other than "not found" ended them. */
  datatype Sweep = Sweep(attempts: seq<Attempt>, aborted: bool)

  /** Lifting one user's ban in each guild in turn: "not found" moves on to the
      next guild, any other error stops everything. */
  function UnbanInGuilds(user: UserId, guilds: seq<GuildId>, unban: (UserId, GuildId) -> UnbanOutcome): (r: Sweep)
    ensures |r.attempts| <= |guilds|
    ensures forall a :: a in r.attempts ==> a.guild in guilds
    ensures r.aborted ==> r.attempts != [] && r.attempts[|r.attempts| - 1].user == user &&
                          unban(user, r.attempts[|r.attempts| - 1].guild) == OtherError
    decreases |guilds|
  {
    if guilds == [] then Sweep([], false)
    else if unban(user, guilds[0]) == OtherError then Sweep([Attempt(user, guilds[0])], true)
    else
      var rest := UnbanInGuilds(user, guilds[1..], unban);
      Sweep([Attempt(user, guilds[0])] + rest.attempts, rest.aborted)
  }

  /** The outcome of a tick: the store afterwards, the attempts made in order,
      and whether a platform error aborted it. */
  datatype TickResult = TickResult(store: Store, attempts: seq<Attempt>, aborted: bool)

  /** One reconciliation tick over the snapshot `items`, starting from store
      `st`: each expired entry has its ban lifted in every guild and is then
      popped; an aborting error leaves that entry and all later ones in place. */
  function Reconcile(items: seq<Entry>, st: Store, now: int, guilds: seq<GuildId>,
                     unban: (UserId, GuildId) -> UnbanOutcome): (r: TickResult)
    ensures forall a :: a in r.attempts ==> a.guild in guilds
    ensures r.aborted ==> r.attempts != [] && unban(r.attempts[|r.attempts| - 1].user, r.attempts[|r.attempts| - 1].guild) == OtherError
    decreases |items|
  {
    if items == [] then TickResult(st, [], false)
    else if !Expired(items[0].action, now) then Reconcile(items[1..], st, now, guilds, unban)
    else
      var sweep := UnbanInGuilds(items[0].user, guilds, unban);
      if sweep.aborted then TickResult(st, sweep.attempts, true)
      else
        var rest := Reconcile(items[1..], Pop(st, items[0].user), now, guilds, unban);
        TickResult(rest.store, sweep.attempts + rest.attempts, rest.aborted)
  }

  /** The users whose snapshot entries have expired. */
  ghost function ExpiredUsers(items: seq<Entry>, now: int): set<UserId>
  {
    set k | 0 <= k < |items| && Expired(items[k].action, now) :: items[k].user
  }

  /** The expired users of the snapshot, in snapshot order. */
  function ExpiredInOrder(items: seq<Entry>, now: int): seq<UserId>
    decreases |items|
  {
    if items == [] then []
    else if Expired(items[0].action, now) then [items[0].user] + ExpiredInOrder(items[1..], now)
    else ExpiredInOrder(items[1..], now)
  }

  /** One attempt per guild, in guild order, for each user in turn. */
  function AllAttempts(users: seq<UserId>, guilds: seq<GuildId>): seq<Attempt>
    decreases |users|
  {
    if users == [] then []
    else seq(|guilds|, j requires 0 <= j < |guilds| => Attempt(users[0], guilds[j])) + AllAttempts(users[1..], guilds)
  }

  /** The entries of `m` that have not expired. */
  function Unexpired(m: map<UserId, Action>, now: int): (r: map<UserId, Action>)
  {
    map u | u in m && !Expired(m[u], now) :: m[u]
  }

  /** Some guild reports an error other than "not found" for this user. */
  predicate FailsSomewhere(user: UserId, guilds: seq<GuildId>, unban: (UserId, GuildId) -> UnbanOutcome)
  {
    exists j :: 0 <= j < |guilds| && unban(user, guilds[j]) == OtherError
  }

  lemma ExpiredUsersTail(items: seq<Entry>, now: int)
    requires items != []
    ensures ExpiredUsers(items, now) ==
      ExpiredUsers(items[1..], now) + (if Expired(items[0].action, now) then {items[0].user} else {})
  {
    var tail := items[1..];
    forall u | u in ExpiredUsers(items, now)
      ensures u in ExpiredUsers(tail, now) || (Expired(items[0].action, now) && u == items[0].user)
    {
      var k :| 0 <= k < |items| && Expired(items[k].action, now) && items[k].user == u;
      if k > 0 {
        assert tail[k - 1] == items[k];
      }
    }
    forall u | u in ExpiredUsers(tail, now) ensures u in ExpiredUsers(items, now) {
      var k :| 0 <= k < |tail| && Expired(tail[k].action, now) && tail[k].user == u;
      assert items[k + 1] == tail[k];
    }
  }

  /** A user's sweep aborts exactly when some guild reports an error other than
      "not found"; without one, every guild is tried once, in guild order. */
  lemma {:induction false} UnbanInGuildsOutcome(user: UserId, guilds: seq<GuildId>,
                                                unban: (UserId, GuildId) -> UnbanOutcome)
    ensures UnbanInGuilds(user, guilds, unban).aborted <==> FailsSomewhere(user, guilds, unban)
    ensures !UnbanInGuilds(user, guilds, unban).aborted ==>
      UnbanInGuilds(user, guilds, unban).attempts == seq(|guilds|, j requires 0 <= j < |guilds| => Attempt(user, guilds[j]))
    ensures forall a :: a in UnbanInGuilds(user, guilds, unban).attempts ==> a.user == user
    decreases |guilds|
  {
    if guilds != [] {
      var tail := guilds[1..];
      UnbanInGuildsOutcome(user, tail, unban);
      if FailsSomewhere(user, tail, unban) {
        var j :| 0 <= j < |tail| && unban(user, tail[j]) == OtherError;
        assert unban(user, guilds[j + 1]) == OtherError;
      }
      if FailsSomewhere(user, guilds, unban) && unban(user, guilds[0]) != OtherError {
        var j :| 0 <= j < |guilds| && unban(user, guilds[j]) == OtherError;
        assert tail[j - 1] == guilds[j];
      }
    }
  }

  /** A tick only removes entries: whatever is left is unchanged. */
  lemma {:induction false} ReconcileOnlyRemoves(items: seq<Entry>, st: Store, now: int, guilds: seq<GuildId>,
                                                unban: (UserId, GuildId) -> UnbanOutcome)
    ensures var r := Reconcile(items, st, now, guilds, unban);
      forall u :: u in r.store.actions ==> u in st.actions && r.store.actions[u] == st.actions[u]
    decreases |items|
  {
    if items != [] {
      if !Expired(items[0].action, now) {
        ReconcileOnlyRemoves(items[1..], st, now, guilds, unban);
      } else if !UnbanInGuilds(items[0].user, guilds, unban).aborted {
        ReconcileOnlyRemoves(items[1..], Pop(st, items[0].user), now, guilds, unban);
      }
    }
  }

  /** A tick never removes an entry whose snapshot entry has not expired. */
  lemma {:induction false} ReconcileKeepsUnexpired(items: seq<Entry>, st: Store, now: int, guilds: seq<GuildId>,
                                                   unban: (UserId, GuildId) -> UnbanOutcome)
    ensures var r := Reconcile(items, st, now, guilds, unban);
      forall u :: u in st.actions && u !in ExpiredUsers(items, now) ==> u in r.store.actions
    decreases |items|
  {
    if items != [] {
      ExpiredUsersTail(items, now);
      if !Expired(items[0].action, now) {
        ReconcileKeepsUnexpired(items[1..], st, now, guilds, unban);
      } else if !UnbanInGuilds(items[0].user, guilds, unban).aborted {
        ReconcileKeepsUnexpired(items[1..], Pop(st, items[0].user), now, guilds, unban);
      }
    }
  }

  /** A tick that is not aborted removes every user whose snapshot entry has expired. */
  lemma {:induction false} ReconcileRemovesExpired(items: seq<Entry>, st: Store, now: int, guilds: seq<GuildId>,
                                                   unban: (UserId, GuildId) -> UnbanOutcome)
    ensures var r := Reconcile(items, st, now, guilds, unban);
      !r.aborted ==> forall u :: u in ExpiredUsers(items, now) ==> u !in r.store.actions
    decreases |items|
  {
    if items != [] {
      ExpiredUsersTail(items, now);
      if !Expired(items[0].action, now) {
        ReconcileRemovesExpired(items[1..], st, now, guilds, unban);
      } else if !UnbanInGuilds(items[0].user, guilds, unban).aborted {
        var popped := Pop(st, items[0].user);
        ReconcileRemovesExpired(items[1..], popped, now, guilds, unban);
        ReconcileOnlyRemoves(items[1..], popped, now, guilds, unban);
      }
    }
  }

  /** A tick is aborted exactly when some expired entry's user meets an error
      other than "not found" in some guild. */
  lemma {:induction false} ReconcileAbortsIff(items: seq<Entry>, st: Store, now: int, guilds: seq<GuildId>,
                                              unban: (UserId, GuildId) -> UnbanOutcome)
    ensures Reconcile(items, st, now, guilds, unban).aborted <==>
      exists k :: 0 <= k < |items| && Expired(items[k].action, now) && FailsSomewhere(items[k].user, guilds, unban)
    decreases |items|
  {
    if items != [] {
      var tail := items[1..];
      var rest := if Expired(items[0].action, now) then Pop(st, items[0].user) else st;
      ReconcileAbortsIff(tail, rest, now, guilds, unban);
      UnbanInGuildsOutcome(items[0].user, guilds, unban);
      if exists k :: 0 <= k < |tail| && Expired(tail[k].action, now) && FailsSomewhere(tail[k].user, guilds, unban) {
        var k :| 0 <= k < |tail| && Expired(tail[k].action, now) && FailsSomewhere(tail[k].user, guilds, unban);
        assert items[k + 1] == tail[k];
      }
      if exists k :: 0 <= k < |items| && Expired(items[k].action, now) && FailsSomewhere(items[k].user, guilds, unban) {
        var k :| 0 <= k < |items| && Expired(items[k].action, now) && FailsSomewhere(items[k].user, guilds, unban);
        if k > 0 {
          assert tail[k - 1] == items[k];
        }
      }
    }
  }

  /** A tick that is not aborted tries each expired user once per guild: users
      in snapshot order, guilds in guild order. */
  lemma {:induction false} ReconcileAttempts(items: seq<Entry>, st: Store, now: int, guilds: seq<GuildId>,
                                             unban: (UserId, GuildId) -> UnbanOutcome)
    ensures var r := Reconcile(items, st, now, guilds, unban);
      !r.aborted ==> r.attempts == AllAttempts(ExpiredInOrder(items, now), guilds)
    decreases |items|
  {
    if items != [] {
      if !Expired(items[0].action, now) {
        ReconcileAttempts(items[1..], st, now, guilds, unban);
      } else {
        UnbanInGuildsOutcome(items[0].user, guilds, unban);
        if !UnbanInGuilds(items[0].user, guilds, unban).aborted {
          ReconcileAttempts(items[1..], Pop(st, items[0].user), now, guilds, unban);
        }
      }
    }
  }

  /** Even an aborted tick only ever tries to lift the bans of expired users, so
      a user with no recorded action is never unbanned. */
  lemma {:induction false} ReconcileOnlyAttemptsExpired(items: seq<Entry>, st: Store, now: int, guilds: seq<GuildId>,
                                                        unban: (UserId, GuildId) -> UnbanOutcome)
    ensures var r := Reconcile(items, st, now, guilds, unban);
      forall a :: a in r.attempts ==> a.user in ExpiredUsers(items, now)
    decreases |items|
  {
    if items != [] {
      ExpiredUsersTail(items, now);
      UnbanInGuildsOutcome(items[0].user, guilds, unban);
      var rest := if Expired(items[0].action, now) then Pop(st, items[0].user) else st;
      ReconcileOnlyAttemptsExpired(items[1..], rest, now, guilds, unban);
    }
  }

  lemma PopKeepsWellFormed(st: Store, user: UserId)
    requires WellFormed(st)
    ensures WellFormed(Pop(st, user))
  {
  }

  /** A tick keeps the order and the recorded actions in step. */
  lemma {:induction false} ReconcileKeepsWellFormed(items: seq<Entry>, st: Store, now: int, guilds: seq<GuildId>,
                                                    unban: (UserId, GuildId) -> UnbanOutcome)
    requires WellFormed(st)
    ensures WellFormed(Reconcile(items, st, now, guilds, unban).store)
    decreases |items|
  {
    if items != [] {
      if Expired(items[0].action, now) {
        PopKeepsWellFormed(st, items[0].user);
        ReconcileKeepsWellFormed(items[1..], Pop(st, items[0].user), now, guilds, unban);
      } else {
        ReconcileKeepsWellFormed(items[1..], st, now, guilds, unban);
      }
    }
  }

  /** The snapshot's expired users are the store's expired users. */
  lemma ExpiredUsersOfItems(st: Store, now: int)
    requires WellFormed(st)
    ensures forall u :: u in ExpiredUsers(Items(st), now) <==> u in st.actions && Expired(st.actions[u], now)
  {
    var items := Items(st);
    forall u | u in st.actions && Expired(st.actions[u], now) ensures u in ExpiredUsers(items, now) {
      var k :| 0 <= k < |st.order| && st.order[k] == u;
      assert items[k].user == u;
    }
  }

  /** A tick over the store's own snapshot: without an aborting error, exactly
      the unexpired entries remain, unchanged; with one, every unexpired entry
      still remains and nothing that remains has changed. */
  lemma TickOutcome(st: Store, now: int, guilds: seq<GuildId>, unban: (UserId, GuildId) -> UnbanOutcome)
    requires WellFormed(st)
    ensures var r := Reconcile(Items(st), st, now, guilds, unban);
      WellFormed(r.store) &&
      (!r.aborted ==> r.store.actions == Unexpired(st.actions, now)) &&
      (forall u :: u in Unexpired(st.actions, now) ==> u in r.store.actions) &&
      (forall u :: u in r.store.actions ==> u in st.actions && r.store.actions[u] == st.actions[u])
  {
    var items := Items(st);
    ExpiredUsersOfItems(st, now);
    ReconcileKeepsWellFormed(items, st, now, guilds, unban);
    ReconcileOnlyRemoves(items, st, now, guilds, unban);
    ReconcileKeepsUnexpired(items, st, now, guilds, unban);
    ReconcileRemovesExpired(items, st, now, guilds, unban);
  }

  /** "Not found" is benign: when no guild reports any other error, the tick
      completes and every expired entry is gone. */
  lemma NotFoundIsBenign(st: Store, now: int, guilds: seq<GuildId>, unban: (UserId, GuildId) -> UnbanOutcome)
    requires WellFormed(st)
    requires forall u, g :: unban(u, g) != OtherError
    ensures var r := Reconcile(Items(st), st, now, guilds, unban);
      !r.aborted && r.store.actions == Unexpired(st.actions, now)
  {
    ReconcileAbortsIff(Items(st), st, now, guilds, unban);
    TickOutcome(st, now, guilds, unban);
  }

  /** Recording a ban keeps the store well formed, puts the new action in place
      of any earlier one for that user and changes no other user's entry. */
  lemma RecordOverwrites(st: Store, user: UserId, action: Action)
    requires WellFormed(st)
    ensures var st' := Record(st, user, action);
      WellFormed(st') && st'.actions[user] == action &&
      (forall u :: u != user ==> (u in st'.actions <==> u in st.actions)) &&
      (forall u :: u != user && u in st.actions ==> st'.actions[u] == st.actions[u]) &&
      (user in st.actions ==> st'.order == st.order) &&
      (user !in st.actions ==> st'.order == st.order + [user])
  {
    var st' := Record(st, user, action);
    if user !in st.actions {
      assert user !in st.order;
      forall i, j | 0 <= i < j < |st'.order| ensures st'.order[i] != st'.order[j] {
        if j == |st.order| {
          assert st.order[i] in st.order;
        }
      }
    }
  }

  /** A ban recorded with an end time that has passed is lifted in every guild,
      in guild order, by the next tick when no guild reports an error other
      than "not found", and its entry is gone afterwards. */
  lemma ExpiredBanIsLifted(st: Store, user: UserId, endTime: int, now: int, guilds: seq<GuildId>,
                           unban: (UserId, GuildId) -> UnbanOutcome)
    requires WellFormed(st)
    requires now >= endTime
    requires forall u, g :: unban(u, g) != OtherError
    ensures var st' := Record(st, user, Action(Ban, endTime));
      var r := Reconcile(Items(st'), st', now, guilds, unban);
      !r.aborted && user !in r.store.actions &&
      forall j :: 0 <= j < |guilds| ==> Attempt(user, guilds[j]) in r.attempts
  {
    var st' := Record(st, user, Action(Ban, endTime));
    RecordOverwrites(st, user, Action(Ban, endTime));
    var items := Items(st');
    NotFoundIsBenign(st', now, guilds, unban);
    ReconcileAttempts(items, st', now, guilds, unban);
    var k :| 0 <= k < |st'.order| && st'.order[k] == user;
    AttemptsOfExpired(items, now, guilds, k);
  }

  /** Every expired snapshot entry has one attempt per guild in `AllAttempts`. */
  lemma {:induction false} AttemptsOfExpired(items: seq<Entry>, now: int, guilds: seq<GuildId>, k: nat)
    requires k < |items| && Expired(items[k].action, now)
    ensures forall j :: 0 <= j < |guilds| ==>
      Attempt(items[k].user, guilds[j]) in AllAttempts(ExpiredInOrder(items, now), guilds)
    decreases |items|
  {
    var users := ExpiredInOrder(items, now);
    if k == 0 {
      forall j | 0 <= j < |guilds|
        ensures Attempt(items[0].user, guilds[j]) in AllAttempts(users, guilds)
      {
        var row := seq(|guilds|, i requires 0 <= i < |guilds| => Attempt(users[0], guilds[i]));
        assert row[j] == Attempt(items[0].user, guilds[j]);
      }
    } else {
      AttemptsOfExpired(items[1..], now, guilds, k - 1);
    }
  }

  /** Popping a key keeps the other keys in their order. */
  lemma {:induction false} WithoutKeepsOrder(a: seq<UserId>, x: UserId, b: seq<UserId>)
    requires x !in a && x !in b
    ensures Without(a + [x] + b, x) == a + b
    decreases |a|
  {
    if a == [] {
      assert a + [x] + b == [x] + b;
      WithoutAbsent(b, x);
    } else {
      assert (a + [x] + b)[1..] == a[1..] + [x] + b;
      WithoutKeepsOrder(a[1..], x, b);
      assert a + b == [a[0]] + (a[1..] + b);
    }
  }

  /** Popping a key that is not there changes nothing. */
  lemma {:induction false} WithoutAbsent(s: seq<UserId>, x: UserId)
    requires x !in s
    ensures Without(s, x) == s
    decreases |s|
  {
    if s != [] {
      WithoutAbsent(s[1..], x);
    }
  }

  /** An aborted tick. Let `k` be the first expired snapshot entry whose user
      meets an error other than "not found". The tick is aborted there, and its
      attempts are the full sweeps of the earlier expired users followed by the
      cut-short sweep of that user. */
  lemma {:induction false} AbortedTickAttempts(items: seq<Entry>, st: Store, now: int, guilds: seq<GuildId>,
                                               unban: (UserId, GuildId) -> UnbanOutcome, k: nat)
    requires k < |items| && Expired(items[k].action, now) && FailsSomewhere(items[k].user, guilds, unban)
    requires forall i :: 0 <= i < k && Expired(items[i].action, now) ==> !FailsSomewhere(items[i].user, guilds, unban)
    ensures var r := Reconcile(items, st, now, guilds, unban);
      r.aborted &&
      r.attempts == AllAttempts(ExpiredInOrder(items[..k], now), guilds) + UnbanInGuilds(items[k].user, guilds, unban).attempts
    decreases k
  {
    var r := Reconcile(items, st, now, guilds, unban);
    if k == 0 {
      UnbanInGuildsOutcome(items[0].user, guilds, unban);
      assert items[..0] == [];
      assert r == TickResult(st, UnbanInGuilds(items[0].user, guilds, unban).attempts, true);
    } else {
      var tail := items[1..];
      var expired := Expired(items[0].action, now);
      var rest := if expired then Pop(st, items[0].user) else st;
      var first := if expired then Row(items[0].user, guilds) else [];
      ReconcileHead(items, st, now, guilds, unban);
      var r' := Reconcile(tail, rest, now, guilds, unban);
      assert r == Prepend(first, r');
      AbortTailFirst(items, now, guilds, unban, k);
      AbortedTickAttempts(tail, rest, now, guilds, unban, k - 1);
      ExpiredPrefixStep(items, now, guilds, k);
      assert tail[k - 1] == items[k];
      var later := AllAttempts(ExpiredInOrder(tail[..k - 1], now), guilds);
      var cut := UnbanInGuilds(items[k].user, guilds, unban).attempts;
      assert r'.attempts == later + cut;
      ConcatAssoc(first, later, cut);
    }
  }

  /** In the same aborted tick, only the expired entries before `k` are popped:
      the entry at `k` and every later one keep their actions. */
  lemma {:induction false} AbortedTickKeepsRest(items: seq<Entry>, st: Store, now: int, guilds: seq<GuildId>,
                                                unban: (UserId, GuildId) -> UnbanOutcome, k: nat)
    requires k < |items| && Expired(items[k].action, now) && FailsSomewhere(items[k].user, guilds, unban)
    requires forall i :: 0 <= i < k && Expired(items[i].action, now) ==> !FailsSomewhere(items[i].user, guilds, unban)
    requires forall i, j :: 0 <= i < k <= j < |items| ==> items[i].user != items[j].user
    ensures var r := Reconcile(items, st, now, guilds, unban);
      forall j :: k <= j < |items| && items[j].user in st.actions ==>
        items[j].user in r.store.actions && r.store.actions[items[j].user] == st.actions[items[j].user]
    decreases k
  {
    var r := Reconcile(items, st, now, guilds, unban);
    if k == 0 {
      UnbanInGuildsOutcome(items[0].user, guilds, unban);
      assert r.store == st;
    } else {
      var tail := items[1..];
      var expired := Expired(items[0].action, now);
      var rest := if expired then Pop(st, items[0].user) else st;
      ReconcileHead(items, st, now, guilds, unban);
      var r' := Reconcile(tail, rest, now, guilds, unban);
      assert r.store == r'.store;
      AbortTailFirst(items, now, guilds, unban, k);
      AbortTailDistinct(items, k);
      AbortedTickKeepsRest(tail, rest, now, guilds, unban, k - 1);
      AbortStepStore(items, st, rest, r'.store, k);
    }
  }

  /** Unfolding a tick by its first entry, when that entry's user meets no
      error other than "not found": the first entry's row of attempts, if it
      expired, then the tick over the rest, from the store with it popped. */
  lemma ReconcileHead(items: seq<Entry>, st: Store, now: int, guilds: seq<GuildId>,
                      unban: (UserId, GuildId) -> UnbanOutcome)
    requires items != []
    requires Expired(items[0].action, now) ==> !FailsSomewhere(items[0].user, guilds, unban)
    ensures var expired := Expired(items[0].action, now);
      Reconcile(items, st, now, guilds, unban) ==
        Prepend(if expired then Row(items[0].user, guilds) else [],
                Reconcile(items[1..], if expired then Pop(st, items[0].user) else st, now, guilds, unban))
  {
    UnbanInGuildsOutcome(items[0].user, guilds, unban);
    if !Expired(items[0].action, now) {
      var r := Reconcile(items[1..], st, now, guilds, unban);
      assert [] + r.attempts == r.attempts;
    }
  }

  lemma ConcatAssoc(a: seq<Attempt>, b: seq<Attempt>, c: seq<Attempt>)
    ensures a + (b + c) == (a + b) + c
  {
  }

  /** The first-failure condition carries over to the rest of the snapshot. */
  lemma AbortTailFirst(items: seq<Entry>, now: int, guilds: seq<GuildId>,
                       unban: (UserId, GuildId) -> UnbanOutcome, k: nat)
    requires 0 < k < |items|
    requires forall i :: 0 <= i < k && Expired(items[i].action, now) ==> !FailsSomewhere(items[i].user, guilds, unban)
    ensures Expired(items[0].action, now) ==> !FailsSomewhere(items[0].user, guilds, unban)
    ensures var tail := items[1..];
      forall i :: 0 <= i < k - 1 && Expired(tail[i].action, now) ==> !FailsSomewhere(tail[i].user, guilds, unban)
  {
    var tail := items[1..];
    forall i | 0 <= i < k - 1 && Expired(tail[i].action, now)
      ensures !FailsSomewhere(tail[i].user, guilds, unban)
    {
      assert tail[i] == items[i + 1];
    }
  }

  /** The separation of the users before `k` from those after carries over to
      the rest of the snapshot. */
  lemma AbortTailDistinct(items: seq<Entry>, k: nat)
    requires 0 < k < |items|
    requires forall i, j :: 0 <= i < k <= j < |items| ==> items[i].user != items[j].user
    ensures var tail := items[1..];
      forall i, j :: 0 <= i < k - 1 <= j < |tail| ==> tail[i].user != tail[j].user
  {
    var tail := items[1..];
    forall i, j | 0 <= i < k - 1 <= j < |tail|
      ensures tail[i].user != tail[j].user
    {
      assert tail[i] == items[i + 1] && tail[j] == items[j + 1];
    }
  }

  /** The entries from `k` on that the rest of the tick keeps are kept by the
      whole tick, since popping the first user does not touch them. */
  lemma AbortStepStore(items: seq<Entry>, st: Store, rest: Store, after: Store, k: nat)
    requires 0 < k < |items|
    requires rest.actions.Keys >= st.actions.Keys - {items[0].user}
    requires forall u :: u in rest.actions ==> u in st.actions && rest.actions[u] == st.actions[u]
    requires forall i, j :: 0 <= i < k <= j < |items| ==> items[i].user != items[j].user
    requires forall j :: k - 1 <= j < |items| - 1 && items[1..][j].user in rest.actions ==>
      items[1..][j].user in after.actions && after.actions[items[1..][j].user] == rest.actions[items[1..][j].user]
    ensures forall j :: k <= j < |items| && items[j].user in st.actions ==>
      items[j].user in after.actions && after.actions[items[j].user] == st.actions[items[j].user]
  {
    forall j | k <= j < |items| && items[j].user in st.actions
      ensures items[j].user in after.actions && after.actions[items[j].user] == st.actions[items[j].user]
    {
      assert items[1..][j - 1] == items[j];
    }
  }

  /** The attempts for the expired users among the first `k` entries: the first
      entry's row, if it expired, then those of the rest. */
  lemma ExpiredPrefixStep(items: seq<Entry>, now: int, guilds: seq<GuildId>, k: nat)
    requires 0 < k <= |items|
    ensures AllAttempts(ExpiredInOrder(items[..k], now), guilds) ==
      (if Expired(items[0].action, now) then Row(items[0].user, guilds) else []) +
      AllAttempts(ExpiredInOrder(items[1..][..k - 1], now), guilds)
  {
    var later := ExpiredInOrder(items[1..][..k - 1], now);
    ExpiredPrefixUsers(items, now, k);
    if Expired(items[0].action, now) {
      assert ExpiredInOrder(items[..k], now) == [items[0].user] + later;
      AllAttemptsCons(items[0].user, later, guilds);
    } else {
      assert ExpiredInOrder(items[..k], now) == later;
      assert [] + AllAttempts(later, guilds) == AllAttempts(later, guilds);
    }
  }

  /** The expired users among the first `k` entries: the first entry's user, if
      it expired, then those of the rest. */
  lemma ExpiredPrefixUsers(items: seq<Entry>, now: int, k: nat)
    requires 0 < k <= |items|
    ensures ExpiredInOrder(items[..k], now) ==
      (if Expired(items[0].action, now) then [items[0].user] else []) + ExpiredInOrder(items[1..][..k - 1], now)
  {
    assert items[..k][1..] == items[1..][..k - 1];
    assert items[..k][0] == items[0];
  }

  /** One attempt per guild, in guild order, for `user`. */
  function Row(user: UserId, guilds: seq<GuildId>): (r: seq<Attempt>)
    ensures |r| == |guilds| && forall j :: 0 <= j < |guilds| ==> r[j] == Attempt(user, guilds[j])
  {
    seq(|guilds|, j requires 0 <= j < |guilds| => Attempt(user, guilds[j]))
  }

  lemma AllAttemptsCons(user: UserId, users: seq<UserId>, guilds: seq<GuildId>)
    ensures AllAttempts([user] + users, guilds) == Row(user, guilds) + AllAttempts(users, guilds)
  {
    assert ([user] + users)[1..] == users;
  }

  /** An aborted tick over the store's own snapshot, with `k` the position of
      the first expired user who meets an error other than "not found": that
      user and every user recorded after them keep their entries. */
  lemma AbortedTickOutcome(st: Store, now: int, guilds: seq<GuildId>,
                           unban: (UserId, GuildId) -> UnbanOutcome, k: nat)
    requires WellFormed(st)
    requires k < |st.order|
    requires Expired(st.actions[st.order[k]], now) && FailsSomewhere(st.order[k], guilds, unban)
    requires forall i :: 0 <= i < k && Expired(st.actions[st.order[i]], now) ==>
      !FailsSomewhere(st.order[i], guilds, unban)
    ensures var r := Reconcile(Items(st), st, now, guilds, unban);
      r.aborted &&
      (forall j :: k <= j < |st.order| ==>
        st.order[j] in r.store.actions && r.store.actions[st.order[j]] == st.actions[st.order[j]]) &&
      r.attempts == AllAttempts(ExpiredInOrder(Items(st)[..k], now), guilds) + UnbanInGuilds(st.order[k], guilds, unban).attempts
  {
    var items := Items(st);
    AbortedTickAttempts(items, st, now, guilds, unban, k);
    AbortedTickKeepsRest(items, st, now, guilds, unban, k);
  }

  /** `temp_actions`: the process-wide store of temporary actions. */
  class TempActionStore {
    var order: seq<UserId>
    var actions: map<UserId, Action>

    /** The order lists the recorded users, and only bans are ever recorded. */
    ghost predicate Valid()
      reads this
    {
      WellFormed(Store(order, actions)) &&
      forall u :: u in actions ==> actions[u].kind == Ban
    }

    constructor ()
      ensures Valid() && order == [] && actions == map[]
    {
      order := [];
      actions := map[];
    }

    /** `tempban`: once the ban itself has gone through (`banned`), record that
        it ends `duration` seconds after `now`, replacing any earlier entry for
        that user. If the ban raised, nothing is recorded. */
    method Tempban(user: UserId, duration: int, now: int, banned: bool)
      requires Valid()
      modifies this
      ensures Valid()
      ensures Store(order, actions) ==
        if banned then Record(old(Store(order, actions)), user, Action(Ban, now + duration))
        else old(Store(order, actions))
    {
      if banned {
        RecordOverwrites(Store(order, actions), user, Action(Ban, now + duration));
        if user !in actions {
          order := order + [user];
        }
        actions := actions[user := Action(Ban, now + duration)];
      }
    }

    /** `tempkick`: the kick goes through the platform and nothing is recorded,
        so no tick ever reverses it. */
    method Tempkick(user: UserId, duration: int)
      requires Valid()
      ensures Valid()
      ensures order == old(order) && actions == old(actions)
    {
    }

    /** `unban_task`, one tick: walk a snapshot of the store; for each entry
        that has expired by `now`, try to unban the user in every guild
        (`unban` tells how each attempt turns out), then pop the entry. An
        error other than "not found" aborts the tick where it stands. */
    method UnbanTask(now: int, guilds: seq<GuildId>, unban: (UserId, GuildId) -> UnbanOutcome)
      returns (attempts: seq<Attempt>, aborted: bool)
      requires Valid()
      modifies this
      ensures Valid()
      ensures TickResult(Store(order, actions), attempts, aborted) ==
        Reconcile(Items(old(Store(order, actions))), old(Store(order, actions)), now, guilds, unban)
    {
      var st0 := Store(order, actions);
      var items := Items(st0);
      TickOutcome(st0, now, guilds, unban);
      attempts, aborted := [], false;
      var i := 0;
      while i < |items|
        invariant 0 <= i <= |items|
        invariant Reconcile(items, st0, now, guilds, unban) ==
          Prepend(attempts, Reconcile(items[i..], Store(order, actions), now, guilds, unban))
      {
        var entry := items[i];
        ghost var before := Store(order, actions);
        ReconcileStep(items, i, before, now, guilds, unban);
        if now >= entry.action.endTime {
          var tried, failed := UnbanUser(entry.user, guilds, unban);
          ghost var done := attempts;
          attempts := attempts + tried;
          if failed {
            aborted := true;
            return;
          }
          order := Without(order, entry.user);
          actions := actions - {entry.user};
          PrependTwice(done, tried, Reconcile(items[i + 1..], Store(order, actions), now, guilds, unban));
        }
        i := i + 1;
      }
    }
  }

  /** The attempts made for one user in every guild, until an error other than
      "not found" stops them (the inner loop of `unban_task`). */
  method UnbanUser(user: UserId, guilds: seq<GuildId>, unban: (UserId, GuildId) -> UnbanOutcome)
    returns (tried: seq<Attempt>, failed: bool)
    ensures Sweep(tried, failed) == UnbanInGuilds(user, guilds, unban)
  {
    tried := [];
    var j := 0;
    while j < |guilds|
      invariant 0 <= j <= |guilds|
      invariant UnbanInGuilds(user, guilds, unban) == After(tried, UnbanInGuilds(user, guilds[j..], unban))
    {
      UnbanStep(user, guilds, j, unban);
      ghost var before := tried;
      tried := tried + [Attempt(user, guilds[j])];
      if unban(user, guilds[j]) == OtherError {
        return tried, true;
      }
      AfterTwice(before, [Attempt(user, guilds[j])], UnbanInGuilds(user, guilds[j + 1..], unban));
      j := j + 1;
    }
    assert guilds[j..] == [];
    failed := false;
  }

  /** `sweep` with the attempts `earlier` made before it. */
  function After(earlier: seq<Attempt>, sweep: Sweep): Sweep
  {
    Sweep(earlier + sweep.attempts, sweep.aborted)
  }

  lemma AfterTwice(a: seq<Attempt>, b: seq<Attempt>, sweep: Sweep)
    ensures After(a, After(b, sweep)) == After(a + b, sweep)
  {
    assert a + (b + sweep.attempts) == (a + b) + sweep.attempts;
  }

  /** Unfolding one user's sweep from guild `j` on by one guild. */
  lemma UnbanStep(user: UserId, guilds: seq<GuildId>, j: nat, unban: (UserId, GuildId) -> UnbanOutcome)
    requires j < |guilds|
    ensures var rest := UnbanInGuilds(user, guilds[j + 1..], unban);
      UnbanInGuilds(user, guilds[j..], unban) ==
        if unban(user, guilds[j]) == OtherError then Sweep([Attempt(user, guilds[j])], true)
        else Sweep([Attempt(user, guilds[j])] + rest.attempts, rest.aborted)
  {
    assert guilds[j..][0] == guilds[j];
    assert guilds[j..][1..] == guilds[j + 1..];
  }

  /** `r` with the attempts `earlier` made before it. */
  function Prepend(earlier: seq<Attempt>, r: TickResult): TickResult
  {
    TickResult(r.store, earlier + r.attempts, r.aborted)
  }

  lemma PrependTwice(a: seq<Attempt>, b: seq<Attempt>, r: TickResult)
    ensures Prepend(a, Prepend(b, r)) == Prepend(a + b, r)
  {
    assert a + (b + r.attempts) == (a + b) + r.attempts;
  }

  /** Unfolding a tick over the snapshot from position `i` by one entry. */
  lemma ReconcileStep(items: seq<Entry>, i: nat, st: Store, now: int, guilds: seq<GuildId>,
                      unban: (UserId, GuildId) -> UnbanOutcome)
    requires i < |items|
    ensures var sweep := UnbanInGuilds(items[i].user, guilds, unban);
      Reconcile(items[i..], st, now, guilds, unban) ==
        if !Expired(items[i].action, now) then Reconcile(items[i + 1..], st, now, guilds, unban)
        else if sweep.aborted then TickResult(st, sweep.attempts, true)
        else Prepend(sweep.attempts, Reconcile(items[i + 1..], Pop(st, items[i].user), now, guilds, unban))
  {
    assert items[i..][0] == items[i];
    assert items[i..][1..] == items[i + 1..];
  }
}
