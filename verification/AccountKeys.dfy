/** API keys: issuing and revoking them in concurrent transactions, and making them. */
module AccountKeys {
  import opened Wrappers

  const MAX_ACTIVE_KEYS_PER_USER := 2

  datatype Key = Key(user: int, active: bool)

  datatype Outcome = Issued(key: int) | TooMany | NoSuchUser | Failed

  /** A `create_for` transaction: begun, holding the user's row lock, past its count, past its insert
      (which nobody else can see before the commit), or over. */
  datatype Transaction =
    | Begun(user: int)
    | Locked(user: int)
    | Counted(user: int)
    | Inserted(user: int)
    | Over(outcome: Outcome)

  datatype Accounts = Accounts(
    users: set<int>, keys: map<int, Key>, locks: map<int, nat>, transactions: map<nat, Transaction>)

  datatype Move =
    | AddUser(user: int)
    | Begin(tx: nat, user: int)
    | Lock(tx: nat)
    | CountKeys(tx: nat)
    | Insert(tx: nat)
    | Commit(tx: nat, key: int)
    | Abort(tx: nat)
    | Revoke(user: int, key: int)

  function ActiveKeys(keys: map<int, Key>, user: int): set<int> {
    set k | k in keys && keys[k].user == user && keys[k].active
  }

  /** `serialised` says whether `SELECT … FOR UPDATE` takes the row lock; the code does. */
  predicate Possible(serialised: bool, accounts: Accounts, move: Move) {
    match move
    case AddUser(user) => user !in accounts.users
    case Begin(tx, _) => tx !in accounts.transactions
    case Lock(tx) =>
      && tx in accounts.transactions && accounts.transactions[tx].Begun?
      && (serialised ==> accounts.transactions[tx].user !in accounts.locks)
    case CountKeys(tx) => tx in accounts.transactions && accounts.transactions[tx].Locked?
    case Insert(tx) => tx in accounts.transactions && accounts.transactions[tx].Counted?
    case Commit(tx, key) =>
      tx in accounts.transactions && accounts.transactions[tx].Inserted? && key !in accounts.keys
    case Abort(tx) => tx in accounts.transactions && !accounts.transactions[tx].Over?
    case Revoke(_, _) => true
  }

  /** A transaction ends and lets go of the lock it holds, if any. */
  function Ended(accounts: Accounts, tx: nat, outcome: Outcome): Accounts {
    accounts.(locks := map u | u in accounts.locks && accounts.locks[u] != tx :: accounts.locks[u],
              transactions := accounts.transactions[tx := Over(outcome)])
  }

  function Act(serialised: bool, accounts: Accounts, move: Move): Accounts
    requires Possible(serialised, accounts, move)
  {
    match move
    case AddUser(user) => accounts.(users := accounts.users + {user})
    case Begin(tx, user) => accounts.(transactions := accounts.transactions[tx := Begun(user)])
    case Lock(tx) =>
      var user := accounts.transactions[tx].user;
      if user !in accounts.users then Ended(accounts, tx, NoSuchUser)
      else accounts.(locks := if serialised then accounts.locks[user := tx] else accounts.locks,
                     transactions := accounts.transactions[tx := Locked(user)])
    case CountKeys(tx) =>
      var user := accounts.transactions[tx].user;
      if |ActiveKeys(accounts.keys, user)| >= MAX_ACTIVE_KEYS_PER_USER then Ended(accounts, tx, TooMany)
      else accounts.(transactions := accounts.transactions[tx := Counted(user)])
    case Insert(tx) =>
      accounts.(transactions := accounts.transactions[tx := Inserted(accounts.transactions[tx].user)])
    case Commit(tx, key) =>
      Ended(accounts.(keys := accounts.keys[key := Key(accounts.transactions[tx].user, true)]), tx, Issued(key))
    case Abort(tx) => Ended(accounts, tx, Failed)
    case Revoke(user, key) =>
      if key in accounts.keys && accounts.keys[key].user == user
      then accounts.(keys := accounts.keys[key := Key(user, false)]) else accounts
  }

  predicate Run(serialised: bool, accounts: Accounts, moves: seq<Move>)
    decreases |moves|
  {
    moves == []
    || (Possible(serialised, accounts, moves[0]) && Run(serialised, Act(serialised, accounts, moves[0]), moves[1..]))
  }

  function After(serialised: bool, accounts: Accounts, moves: seq<Move>): Accounts
    requires Run(serialised, accounts, moves)
    decreases |moves|
  {
    if moves == [] then accounts else After(serialised, Act(serialised, accounts, moves[0]), moves[1..])
  }

  const EMPTY := Accounts({}, map[], map[], map[])

  // ---------------------------------------------------------------------------------------------
  // At most two active keys

  /** A transaction past its lock holds it, and past its count there is room for one more key. */
  ghost predicate GoodTransaction(accounts: Accounts, tx: nat)
    requires tx in accounts.transactions
  {
    match accounts.transactions[tx]
    case Begun(_) => true
    case Locked(user) => user in accounts.locks && accounts.locks[user] == tx
    case Counted(user) =>
      user in accounts.locks && accounts.locks[user] == tx
      && |ActiveKeys(accounts.keys, user)| < MAX_ACTIVE_KEYS_PER_USER
    case Inserted(user) =>
      user in accounts.locks && accounts.locks[user] == tx
      && |ActiveKeys(accounts.keys, user)| < MAX_ACTIVE_KEYS_PER_USER
    case Over(_) => true
  }

  /** The transaction is under way, past its lock, and for this user. */
  ghost predicate HoldsLock(accounts: Accounts, tx: nat, user: int) {
    tx in accounts.transactions
    && match accounts.transactions[tx]
       case Locked(u) => u == user
       case Counted(u) => u == user
       case Inserted(u) => u == user
       case Begun(_) => false
       case Over(_) => false
  }

  ghost predicate Invariant(accounts: Accounts) {
    && (forall user :: |ActiveKeys(accounts.keys, user)| <= MAX_ACTIVE_KEYS_PER_USER)
    && (forall tx :: tx in accounts.transactions ==> GoodTransaction(accounts, tx))
    && (forall user :: user in accounts.locks ==> HoldsLock(accounts, accounts.locks[user], user))
  }

  lemma CommittedKeys(keys: map<int, Key>, user: int, key: int, other: int)
    requires key !in keys
    ensures |ActiveKeys(keys[key := Key(user, true)], other)|
         == |ActiveKeys(keys, other)| + if other == user then 1 else 0
  {
    var after := ActiveKeys(keys[key := Key(user, true)], other);
    if other == user {
      assert after == ActiveKeys(keys, other) + {key};
    } else {
      assert after == ActiveKeys(keys, other);
    }
  }

  lemma RevokedKeys(keys: map<int, Key>, user: int, key: int, other: int)
    requires key in keys && keys[key].user == user
    ensures |ActiveKeys(keys[key := Key(user, false)], other)| <= |ActiveKeys(keys, other)|
  {
    assert ActiveKeys(keys[key := Key(user, false)], other) == ActiveKeys(keys, other) - {key};
  }

  /** No move gives a user a third key, and only a commit of the lock's holder gives one at all. */
  lemma KeysStayFew(accounts: Accounts, move: Move, user: int)
    requires Invariant(accounts) && Possible(true, accounts, move)
    ensures
      var next := Act(true, accounts, move);
      && |ActiveKeys(next.keys, user)| <= MAX_ACTIVE_KEYS_PER_USER
      && (user in accounts.locks && (move.Commit? ==> accounts.locks[user] != move.tx) ==>
            |ActiveKeys(next.keys, user)| <= |ActiveKeys(accounts.keys, user)|)
  {
    hide ActiveKeys;
    match move {
      case Commit(tx, key) =>
        assert GoodTransaction(accounts, tx);
        CommittedKeys(accounts.keys, accounts.transactions[tx].user, key, user);
      case Revoke(owner, key) =>
        if key in accounts.keys && accounts.keys[key].user == owner {
          RevokedKeys(accounts.keys, owner, key, user);
        }
      case _ =>
    }
  }

  lemma TransactionsStayGood(accounts: Accounts, move: Move, tx: nat)
    requires Invariant(accounts) && Possible(true, accounts, move) && tx in Act(true, accounts, move).transactions
    ensures GoodTransaction(Act(true, accounts, move), tx)
  {
    hide ActiveKeys, HoldsLock;
    if tx in accounts.transactions {
      assert GoodTransaction(accounts, tx);
      if !accounts.transactions[tx].Over? {
        KeysStayFew(accounts, move, accounts.transactions[tx].user);
      }
    }
  }

  lemma LocksStayHeld(accounts: Accounts, move: Move, user: int)
    requires Invariant(accounts) && Possible(true, accounts, move) && user in Act(true, accounts, move).locks
    ensures HoldsLock(Act(true, accounts, move), Act(true, accounts, move).locks[user], user)
  {
    hide ActiveKeys, GoodTransaction;
    if user in accounts.locks {
      assert HoldsLock(accounts, accounts.locks[user], user);
    }
  }

  lemma ActKeepsInvariant(accounts: Accounts, move: Move)
    requires Invariant(accounts) && Possible(true, accounts, move)
    ensures Invariant(Act(true, accounts, move))
  {
    hide ActiveKeys, GoodTransaction, HoldsLock, Act, Possible;
    var next := Act(true, accounts, move);
    forall user
      ensures |ActiveKeys(next.keys, user)| <= MAX_ACTIVE_KEYS_PER_USER
    {
      KeysStayFew(accounts, move, user);
    }
    forall tx | tx in next.transactions
      ensures GoodTransaction(next, tx)
    {
      TransactionsStayGood(accounts, move, tx);
    }
    forall user | user in next.locks
      ensures HoldsLock(next, next.locks[user], user)
    {
      LocksStayHeld(accounts, move, user);
    }
  }

  lemma {:induction false} RunKeepsInvariant(accounts: Accounts, moves: seq<Move>)
    requires Invariant(accounts) && Run(true, accounts, moves)
    ensures Invariant(After(true, accounts, moves))
    decreases |moves|
  {
    hide Invariant, Possible, Act;
    if moves == [] {
    } else {
      ActKeepsInvariant(accounts, moves[0]);
      RunKeepsInvariant(Act(true, accounts, moves[0]), moves[1..]);
    }
  }

  /** Over every interleaving of any number of issuing and revoking transactions, aborted or not, no
      user ever has more than two active keys. */
  lemma AtMostTwoActiveKeys(moves: seq<Move>, user: int)
    requires Run(true, EMPTY, moves)
    ensures |ActiveKeys(After(true, EMPTY, moves).keys, user)| <= 2
  {
    RunKeepsInvariant(EMPTY, moves);
  }

  /** Nobody waits for ever: whoever holds a lock is under way and can give up at once, and its end lets go
      of the lock. */
  lemma LocksAreLetGo(moves: seq<Move>, user: int)
    requires Run(true, EMPTY, moves) && user in After(true, EMPTY, moves).locks
    ensures
      var accounts := After(true, EMPTY, moves);
      var abort := Abort(accounts.locks[user]);
      Possible(true, accounts, abort) && user !in Act(true, accounts, abort).locks
  {
    RunKeepsInvariant(EMPTY, moves);
    var accounts := After(true, EMPTY, moves);
    assert HoldsLock(accounts, accounts.locks[user], user);
  }

  /** A run goes on with any move that is possible where it has got to. */
  lemma {:induction false} RunGoesOn(serialised: bool, accounts: Accounts, moves: seq<Move>, move: Move)
    requires Run(serialised, accounts, moves) && Possible(serialised, After(serialised, accounts, moves), move)
    ensures Run(serialised, accounts, moves + [move])
    ensures After(serialised, accounts, moves + [move]) == Act(serialised, After(serialised, accounts, moves), move)
    decreases |moves|
  {
    hide Possible, Act;
    if moves == [] {
      assert [move][1..] == [];
    } else {
      RunGoesOn(serialised, Act(serialised, accounts, moves[0]), moves[1..], move);
      assert (moves + [move])[1..] == moves[1..] + [move];
    }
  }

  // ---------------------------------------------------------------------------------------------
  // Issuing issues, and revoking revokes

  /** A revocation by the owner takes away exactly that key, and by anyone else nothing. */
  lemma RevokeTakesAway(serialised: bool, accounts: Accounts, user: int, key: int, owner: int)
    ensures ActiveKeys(Act(serialised, accounts, Revoke(user, key)).keys, owner)
         == ActiveKeys(accounts.keys, owner) - if owner == user then {key} else {}
  {
  }

  predicate Revoked(accounts: Accounts, user: int, key: int) {
    key in accounts.keys && accounts.keys[key] == Key(user, false)
  }

  lemma {:induction false} RevokedStays(serialised: bool, accounts: Accounts, moves: seq<Move>, user: int, key: int)
    requires Run(serialised, accounts, moves) && Revoked(accounts, user, key)
    ensures Revoked(After(serialised, accounts, moves), user, key)
    decreases |moves|
  {
    if moves == [] {
    } else {
      RevokedStays(serialised, Act(serialised, accounts, moves[0]), moves[1..], user, key);
    }
  }

  /** A key that its owner has revoked is never active again, for anyone, whatever happens next. */
  lemma RevokedForGood(serialised: bool, accounts: Accounts, user: int, key: int, moves: seq<Move>, owner: int)
    requires key in accounts.keys && accounts.keys[key].user == user
    requires Run(serialised, Act(serialised, accounts, Revoke(user, key)), moves)
    ensures key !in ActiveKeys(After(serialised, Act(serialised, accounts, Revoke(user, key)), moves).keys, owner)
  {
    RevokedStays(serialised, Act(serialised, accounts, Revoke(user, key)), moves, user, key);
  }

  /** The steps of one transaction, as far as it gets. */
  function CreateFor(accounts: Accounts, tx: nat, user: int, key: int): seq<Move> {
    [Begin(tx, user), Lock(tx)]
    + if user !in accounts.users then []
      else if |ActiveKeys(accounts.keys, user)| >= MAX_ACTIVE_KEYS_PER_USER then [CountKeys(tx)]
      else [CountKeys(tx), Insert(tx), Commit(tx, key)]
  }

  lemma CommitAdds(keys: map<int, Key>, user: int, key: int, other: int)
    requires key !in keys
    ensures ActiveKeys(keys[key := Key(user, true)], other)
         == ActiveKeys(keys, other) + if other == user then {key} else {}
  {
  }

  lemma OneMove(accounts: Accounts, move: Move, moves: seq<Move>)
    requires Possible(true, accounts, move) && Run(true, Act(true, accounts, move), moves)
    ensures Run(true, accounts, [move] + moves)
    ensures After(true, accounts, [move] + moves) == After(true, Act(true, accounts, move), moves)
  {
    assert ([move] + moves)[1..] == moves;
  }

  /** Begin and lock. */
  lemma LocksAlone(accounts: Accounts, tx: nat, user: int)
    requires tx !in accounts.transactions && user !in accounts.locks && user in accounts.users
    ensures Run(true, accounts, [Begin(tx, user), Lock(tx)])
    ensures After(true, accounts, [Begin(tx, user), Lock(tx)])
         == accounts.(locks := accounts.locks[user := tx], transactions := accounts.transactions[tx := Locked(user)])
  {
    var begun := Act(true, accounts, Begin(tx, user));
    OneMove(begun, Lock(tx), []);
    OneMove(accounts, Begin(tx, user), [Lock(tx)]);
  }

  /** Ending lets go of the transaction's own lock and of no other. */
  lemma LetsGo(accounts: Accounts, locked: Accounts, tx: nat, user: int, outcome: Outcome)
    requires user !in accounts.locks && (forall u :: u in accounts.locks ==> accounts.locks[u] != tx)
    requires locked.locks == accounts.locks || locked.locks == accounts.locks[user := tx]
    ensures Ended(locked, tx, outcome)
         == locked.(locks := accounts.locks, transactions := locked.transactions[tx := Over(outcome)])
  {
    var left := Ended(locked, tx, outcome).locks;
    assert forall u :: u in left <==> u in accounts.locks;
    assert forall u :: u in left ==> left[u] == accounts.locks[u];
    assert left == accounts.locks;
  }

  lemma FindsNoUser(accounts: Accounts, tx: nat, user: int)
    requires tx !in accounts.transactions && user !in accounts.locks && user !in accounts.users
    requires forall u :: u in accounts.locks ==> accounts.locks[u] != tx
    ensures Run(true, accounts, [Begin(tx, user), Lock(tx)])
    ensures After(true, accounts, [Begin(tx, user), Lock(tx)])
         == accounts.(transactions := accounts.transactions[tx := Over(NoSuchUser)])
  {
    var begun := Act(true, accounts, Begin(tx, user));
    LetsGo(accounts, begun, tx, user, NoSuchUser);
    OneMove(begun, Lock(tx), []);
    OneMove(accounts, Begin(tx, user), [Lock(tx)]);
  }

  /** What the lock and the transaction were before they were taken. */
  ghost predicate Holding(locked: Accounts, accounts: Accounts, tx: nat, user: int) {
    && user !in accounts.locks && (forall u :: u in accounts.locks ==> accounts.locks[u] != tx)
    && locked == accounts.(locks := accounts.locks[user := tx],
                           transactions := accounts.transactions[tx := Locked(user)])
  }

  lemma CountsTooMany(locked: Accounts, accounts: Accounts, tx: nat, user: int)
    requires Holding(locked, accounts, tx, user) && |ActiveKeys(accounts.keys, user)| >= MAX_ACTIVE_KEYS_PER_USER
    ensures Run(true, locked, [CountKeys(tx)])
    ensures After(true, locked, [CountKeys(tx)])
         == accounts.(transactions := accounts.transactions[tx := Over(TooMany)])
  {
    hide ActiveKeys;
    LetsGo(accounts, locked, tx, user, TooMany);
    OneMove(locked, CountKeys(tx), []);
  }

  lemma CountsAndIssues(locked: Accounts, accounts: Accounts, tx: nat, user: int, key: int)
    requires Holding(locked, accounts, tx, user) && |ActiveKeys(accounts.keys, user)| < MAX_ACTIVE_KEYS_PER_USER
    requires key !in accounts.keys
    ensures Run(true, locked, [CountKeys(tx), Insert(tx), Commit(tx, key)])
    ensures After(true, locked, [CountKeys(tx), Insert(tx), Commit(tx, key)])
         == accounts.(keys := accounts.keys[key := Key(user, true)],
                      transactions := accounts.transactions[tx := Over(Issued(key))])
  {
    hide ActiveKeys;
    var counted := Act(true, locked, CountKeys(tx));
    var inserted := Act(true, counted, Insert(tx));
    LetsGo(accounts, inserted.(keys := inserted.keys[key := Key(user, true)]), tx, user, Issued(key));
    OneMove(inserted, Commit(tx, key), []);
    OneMove(counted, Insert(tx), [Commit(tx, key)]);
    OneMove(locked, CountKeys(tx), [Insert(tx), Commit(tx, key)]);
  }

  lemma {:induction false} RunsConcatenate(serialised: bool, accounts: Accounts, first: seq<Move>, second: seq<Move>)
    requires Run(serialised, accounts, first) && Run(serialised, After(serialised, accounts, first), second)
    ensures Run(serialised, accounts, first + second)
    ensures After(serialised, accounts, first + second)
         == After(serialised, After(serialised, accounts, first), second)
    decreases |first|
  {
    if first == [] {
      assert first + second == second;
    } else {
      RunsConcatenate(serialised, Act(serialised, accounts, first[0]), first[1..], second);
      assert (first + second)[1..] == first[1..] + second;
    }
  }

  /** A transaction that finds its user's row free gets through: a user with fewer than two active keys gets
      one more, anyone else gets the error and nothing changes, and no lock is left behind. */
  lemma CreateForIssues(accounts: Accounts, tx: nat, user: int, key: int)
    requires tx !in accounts.transactions && user !in accounts.locks && key !in accounts.keys
    requires forall u :: u in accounts.locks ==> accounts.locks[u] != tx
    ensures Run(true, accounts, CreateFor(accounts, tx, user, key))
    ensures
      var end := After(true, accounts, CreateFor(accounts, tx, user, key));
      && end.locks == accounts.locks && end.users == accounts.users && tx in end.transactions
      && if user !in accounts.users then end.transactions[tx] == Over(NoSuchUser) && end.keys == accounts.keys
         else if |ActiveKeys(accounts.keys, user)| >= 2 then
           end.transactions[tx] == Over(TooMany) && end.keys == accounts.keys
         else
           && end.transactions[tx] == Over(Issued(key))
           && forall other ::
                ActiveKeys(end.keys, other) == ActiveKeys(accounts.keys, other) + if other == user then {key} else {}
  {
    hide ActiveKeys, Run, After, Act;
    if user !in accounts.users {
      FindsNoUser(accounts, tx, user);
      assert [Begin(tx, user), Lock(tx)] + [] == [Begin(tx, user), Lock(tx)];
    } else {
      LocksAlone(accounts, tx, user);
      var locked := After(true, accounts, [Begin(tx, user), Lock(tx)]);
      if |ActiveKeys(accounts.keys, user)| >= MAX_ACTIVE_KEYS_PER_USER {
        CountsTooMany(locked, accounts, tx, user);
        RunsConcatenate(true, accounts, [Begin(tx, user), Lock(tx)], [CountKeys(tx)]);
      } else {
        CountsAndIssues(locked, accounts, tx, user, key);
        RunsConcatenate(true, accounts, [Begin(tx, user), Lock(tx)], [CountKeys(tx), Insert(tx), Commit(tx, key)]);
        forall other
          ensures ActiveKeys(accounts.keys[key := Key(user, true)], other)
               == ActiveKeys(accounts.keys, other) + if other == user then {key} else {}
        {
          CommitAdds(accounts.keys, user, key, other);
        }
      }
    }
  }

  // ---------------------------------------------------------------------------------------------
  // It is the row lock that does it

  /** Without the lock a transaction gets past its count whatever the others are doing. */
  lemma CountsAlone(accounts: Accounts, tx: nat, user: int) returns (moves: seq<Move>)
    requires user in accounts.users && tx !in accounts.transactions && accounts.locks == map[]
    requires |ActiveKeys(accounts.keys, user)| < MAX_ACTIVE_KEYS_PER_USER
    ensures Run(false, accounts, moves)
    ensures After(false, accounts, moves)
         == accounts.(transactions := accounts.transactions[tx := Counted(user)])
  {
    moves := [Begin(tx, user), Lock(tx), CountKeys(tx)];
    var begun := Act(false, accounts, moves[0]);
    var locked := Act(false, begun, moves[1]);
    assert moves[1..] == [Lock(tx), CountKeys(tx)] && moves[1..][1..] == [CountKeys(tx)];
    assert Run(false, locked, [CountKeys(tx)]);
    assert Run(false, begun, moves[1..]);
    var counted := Act(false, locked, CountKeys(tx));
    assert counted.transactions == accounts.transactions[tx := Counted(user)];
    assert After(false, locked, [CountKeys(tx)]) == counted;
    assert After(false, begun, moves[1..]) == counted;
  }

  lemma CommitsAlone(accounts: Accounts, tx: nat, user: int, key: int) returns (moves: seq<Move>)
    requires tx in accounts.transactions && accounts.transactions[tx] == Counted(user)
    requires key !in accounts.keys && accounts.locks == map[]
    ensures Run(false, accounts, moves)
    ensures After(false, accounts, moves)
         == accounts.(keys := accounts.keys[key := Key(user, true)],
                      transactions := accounts.transactions[tx := Over(Issued(key))])
  {
    moves := [Insert(tx), Commit(tx, key)];
    var inserted := Act(false, accounts, moves[0]);
    assert moves[1..] == [Commit(tx, key)];
    assert Run(false, inserted, [Commit(tx, key)]);
    var committed := Act(false, inserted, Commit(tx, key));
    assert committed.transactions == accounts.transactions[tx := Over(Issued(key))];
    assert committed.locks == map[];
    assert After(false, inserted, [Commit(tx, key)]) == committed;
  }

  lemma Extend(accounts: Accounts, moves: seq<Move>, more: seq<Move>) returns (all: seq<Move>)
    requires Run(false, accounts, moves) && Run(false, After(false, accounts, moves), more)
    ensures Run(false, accounts, all)
    ensures After(false, accounts, all) == After(false, After(false, accounts, moves), more)
  {
    RunsConcatenate(false, accounts, moves, more);
    all := moves + more;
  }

  lemma OneUser(user: int) returns (moves: seq<Move>)
    ensures Run(false, EMPTY, moves)
    ensures After(false, EMPTY, moves) == Accounts({user}, map[], map[], map[])
  {
    moves := [AddUser(user)];
    assert Run(false, Act(false, EMPTY, AddUser(user)), []);
  }

  /** Were the row not locked, three transactions could count before any of them commits, and a user
      would end up with three active keys. */
  lemma WithoutTheLockThreeKeys() returns (moves: seq<Move>)
    ensures Run(false, EMPTY, moves)
    ensures |ActiveKeys(After(false, EMPTY, moves).keys, 7)| == 3
  {
    hide Act, Possible, Run, After;
    moves := OneUser(7);
    assert ActiveKeys(map[], 7) == {};
    var more := CountsAlone(After(false, EMPTY, moves), 1, 7);
    moves := Extend(EMPTY, moves, more);
    more := CountsAlone(After(false, EMPTY, moves), 2, 7);
    moves := Extend(EMPTY, moves, more);
    more := CountsAlone(After(false, EMPTY, moves), 3, 7);
    moves := Extend(EMPTY, moves, more);
    more := CommitsAlone(After(false, EMPTY, moves), 1, 7, 11);
    moves := Extend(EMPTY, moves, more);
    more := CommitsAlone(After(false, EMPTY, moves), 2, 7, 12);
    moves := Extend(EMPTY, moves, more);
    more := CommitsAlone(After(false, EMPTY, moves), 3, 7, 13);
    moves := Extend(EMPTY, moves, more);
    assert ActiveKeys(After(false, EMPTY, moves).keys, 7) == {11, 12, 13};
  }

  // ---------------------------------------------------------------------------------------------
  // Making a key

  const PREFIX := "qaf_"
  const BODY_LENGTH: nat := 32
  const DISPLAY_PREFIX_LENGTH: nat := 12
  const UPPER := "ABCDEFGHIJKLMNOPQRSTUVWXYZ"
  const LOWER := "abcdefghijklmnopqrstuvwxyz"
  const DIGITS := "0123456789"
  const ALPHABET := UPPER + LOWER + DIGITS
  const UNBIASED_CEILING := 248

  type Byte = b: nat | b < 256

  predicate IsAlphanumeric(c: char) {
    'A' <= c <= 'Z' || 'a' <= c <= 'z' || '0' <= c <= '9'
  }

  predicate IsWellFormed(raw: string) {
    && PREFIX <= raw
    && |raw| == |PREFIX| + BODY_LENGTH
    && forall i :: |PREFIX| <= i < |raw| ==> IsAlphanumeric(raw[i])
  }

  lemma UpperAt(i: nat)
    requires i < 26
    ensures |UPPER| == 26 && UPPER[i] as int == 'A' as int + i
  {
  }

  lemma LowerAt(i: nat)
    requires i < 26
    ensures |LOWER| == 26 && LOWER[i] as int == 'a' as int + i
  {
  }

  lemma DigitAt(i: nat)
    requires i < 10
    ensures |DIGITS| == 10 && DIGITS[i] as int == '0' as int + i
  {
  }

  /** The place of a letter or digit in the alphabet. */
  function Rank(c: char): (i: nat)
    requires IsAlphanumeric(c)
    ensures i < 62
  {
    if 'A' <= c <= 'Z' then c as int - 'A' as int
    else if 'a' <= c <= 'z' then 26 + (c as int - 'a' as int)
    else 52 + (c as int - '0' as int)
  }

  lemma ConcatAt(upper: string, lower: string, digits: string, i: nat)
    requires |upper| == |lower| == 26 && |digits| == 10 && i < 62
    ensures |upper + lower + digits| == 62
    ensures (upper + lower + digits)[i]
         == if i < 26 then upper[i] else if i < 52 then lower[i - 26] else digits[i - 52]
  {
  }

  /** The alphabet lists every letter and digit in one place only. */
  lemma AlphabetAt(i: nat)
    requires i < 62
    ensures |ALPHABET| == 62 && IsAlphanumeric(ALPHABET[i]) && Rank(ALPHABET[i]) == i
  {
    hide UPPER, LOWER, DIGITS;
    UpperAt(if i < 26 then i else 0);
    LowerAt(if 26 <= i < 52 then i - 26 else 0);
    DigitAt(if 52 <= i then i - 52 else 0);
    ConcatAt(UPPER, LOWER, DIGITS, i);
  }

  /** The characters that a stream of random bytes spells: bytes of 248 and above are skipped. */
  function Spelled(bytes: seq<Byte>): (s: string)
    ensures forall i :: 0 <= i < |s| ==> IsAlphanumeric(s[i])
  {
    if bytes == [] then []
    else
      var last := bytes[|bytes| - 1];
      Spelled(bytes[..|bytes| - 1])
      + if last >= UNBIASED_CEILING then [] else AlphabetAt(last % 62); [ALPHABET[last % 62]]
  }

  lemma RankIsPlace(c: char)
    requires IsAlphanumeric(c)
    ensures |ALPHABET| == 62 && ALPHABET[Rank(c)] == c
  {
    AlphabetAt(Rank(c));
    hide ALPHABET;
  }

  lemma NothingSpelled()
    ensures Spelled([]) == []
  {
  }

  lemma OneMoreByte(bytes: seq<Byte>, byte: Byte)
    ensures |ALPHABET| == 62
    ensures Spelled(bytes + [byte])
         == Spelled(bytes) + if byte >= UNBIASED_CEILING then [] else [ALPHABET[byte % 62]]
  {
    hide UPPER, LOWER, DIGITS;
    AlphabetAt(byte % 62);
    assert (bytes + [byte])[..|bytes|] == bytes;
  }

  /** Rejection sampling: reads no more of the random stream than it needs, and gives up only if the
      stream ends first. */
  method Generate(stream: seq<Byte>) returns (key: Option<string>, used: nat)
    ensures used <= |stream|
    ensures key.Some? ==> IsWellFormed(key.value) && key.value == PREFIX + Spelled(stream[..used])
    ensures key.Some? ==> used > 0 && |Spelled(stream[..used - 1])| < BODY_LENGTH
    ensures key.None? ==> used == |stream| && |Spelled(stream)| < BODY_LENGTH
  {
    hide ALPHABET, UPPER, LOWER, DIGITS, Spelled;
    var value := PREFIX;
    used := 0;
    NothingSpelled();
    assert stream[..0] == [];
    while |value| < |PREFIX| + BODY_LENGTH
      invariant used <= |stream|
      invariant value == PREFIX + Spelled(stream[..used])
      invariant |value| <= |PREFIX| + BODY_LENGTH
      invariant |value| == |PREFIX| + BODY_LENGTH ==> used > 0 && |Spelled(stream[..used - 1])| < BODY_LENGTH
      decreases |stream| - used
    {
      if used == |stream| {
        assert stream[..used] == stream;
        return None, used;
      }
      var byte := stream[used];
      assert stream[..used + 1] == stream[..used] + [byte];
      OneMoreByte(stream[..used], byte);
      used := used + 1;
      if byte >= UNBIASED_CEILING {
        continue;
      }
      value := value + [ALPHABET[byte % 62]];
    }
    return Some(value), used;
  }

  /** The byte is accepted and spells this character. */
  predicate Spells(b: Byte, c: char) {
    b < UNBIASED_CEILING && (AlphabetAt(b % 62); ALPHABET[b % 62] == c)
  }

  lemma SpellsByRank(b: Byte, c: char)
    ensures Spells(b, c) <==> b < UNBIASED_CEILING && IsAlphanumeric(c) && b % 62 == Rank(c)
  {
    AlphabetAt(b % 62);
    if IsAlphanumeric(c) {
      RankIsPlace(c);
    }
    hide ALPHABET;
  }

  /** No character is likelier than another: each letter and digit is spelled by exactly four bytes, and
      nothing else is spelled at all. */
  lemma EveryCharacterHasFourBytes(c: char)
    ensures |set b: Byte | Spells(b, c)| == if IsAlphanumeric(c) then 4 else 0
  {
    hide Spells, Rank, ALPHABET;
    var bytes := set b: Byte | Spells(b, c);
    forall b: Byte
      ensures Spells(b, c) <==> b < UNBIASED_CEILING && IsAlphanumeric(c) && b % 62 == Rank(c)
    {
      SpellsByRank(b, c);
    }
    if IsAlphanumeric(c) {
      var i := Rank(c);
      assert bytes == {i, i + 62, i + 124, i + 186};
    } else {
      assert bytes == {};
    }
  }

  /** What the account page shows of a key. */
  function PrefixOf(raw: string): string {
    if |raw| <= DISPLAY_PREFIX_LENGTH then raw else raw[..DISPLAY_PREFIX_LENGTH]
  }

  /** What is shown discloses eight characters of the body and nothing of the other 24: any of them would
      make a well-formed key that is shown alike. */
  lemma DisplayedPrefix(raw: string, rest: string)
    requires IsWellFormed(raw) && |rest| == 24 && forall i :: 0 <= i < |rest| ==> IsAlphanumeric(rest[i])
    ensures PREFIX <= PrefixOf(raw) <= raw && |PrefixOf(raw)| == |PREFIX| + 8
    ensures IsWellFormed(PrefixOf(raw) + rest) && PrefixOf(PrefixOf(raw) + rest) == PrefixOf(raw)
  {
    hide IsAlphanumeric;
  }

  /** The bytes that spell a text, one for each character. */
  function BytesFor(text: string): seq<Byte>
    requires forall i :: 0 <= i < |text| ==> IsAlphanumeric(text[i])
  {
    if text == [] then [] else BytesFor(text[..|text| - 1]) + [Rank(text[|text| - 1])]
  }

  lemma {:induction false} BytesSpell(text: string)
    requires forall i :: 0 <= i < |text| ==> IsAlphanumeric(text[i])
    ensures Spelled(BytesFor(text)) == text && |BytesFor(text)| == |text|
  {
    hide ALPHABET, UPPER, LOWER, DIGITS, Rank, Spelled;
    if text == [] {
      NothingSpelled();
    } else {
      var front, last := text[..|text| - 1], text[|text| - 1];
      BytesSpell(front);
      RankIsPlace(last);
      OneMoreByte(BytesFor(front), Rank(last));
    }
  }

  /** The keys that are taken for well formed are exactly those that can be generated. */
  lemma WellFormedIffGenerated(raw: string)
    ensures IsWellFormed(raw) <==> exists bytes :: |Spelled(bytes)| == 32 && raw == "qaf_" + Spelled(bytes)
  {
    hide Spelled, BytesFor;
    if IsWellFormed(raw) {
      var body := raw[|PREFIX|..];
      assert raw == PREFIX + body;
      BytesSpell(body);
      assert |Spelled(BytesFor(body))| == 32 && raw == "qaf_" + Spelled(BytesFor(body));
    }
  }
}
