/** One-time tokens: a saved token can be consumed once, before it expires. */
module TokenStore {
  import opened Wrappers

  type Id = string

  datatype Kind = EmailVerification | PasswordReset

  datatype Key = Key(kind: Kind, hash: string)

  datatype Entry = Entry(user: Id, expiresAt: int, used: bool)

  datatype TokenError = Invalid

  datatype Op =
    | Save(key: Key, user: Id, expiresAt: int)
    | Consume(key: Key, now: int)

  function Redeem(s: map<Key, Entry>, key: Key, now: int): Result<Id, TokenError> {
    if key in s && !s[key].used && now < s[key].expiresAt then Ok(s[key].user) else Err(Invalid)
  }

  function Apply(s: map<Key, Entry>, op: Op): map<Key, Entry> {
    match op
    case Save(key, user, expiresAt) => s[key := Entry(user, expiresAt, false)]
    case Consume(key, now) => if Redeem(s, key, now).Ok? then s[key := s[key].(used := true)] else s
  }

  function StoreAt(trace: seq<Op>, n: nat): map<Key, Entry>
    requires n <= |trace|
  {
    if n == 0 then map[] else Apply(StoreAt(trace, n - 1), trace[n - 1])
  }

  /** Call `j` is a consume of the key that succeeded. */
  predicate Redeemed(trace: seq<Op>, j: nat, key: Key) {
    j < |trace| && trace[j].Consume? && trace[j].key == key && Redeem(StoreAt(trace, j), key, trace[j].now).Ok?
  }

  predicate Saved(trace: seq<Op>, i: nat, key: Key) {
    i < |trace| && trace[i].Save? && trace[i].key == key
  }

  /** Call `i` saved the key and no later call before `n` saved or redeemed it. */
  ghost predicate Outstanding(trace: seq<Op>, n: nat, i: nat, key: Key) {
    i < n && Saved(trace, i, key) && forall j :: i < j < n ==> !Saved(trace, j, key) && !Redeemed(trace, j, key)
  }

  lemma {:induction false} EntryIsHistory(trace: seq<Op>, n: nat, key: Key)
    requires n <= |trace|
    ensures forall i: nat :: Outstanding(trace, n, i, key) ==>
              key in StoreAt(trace, n) && StoreAt(trace, n)[key] == Entry(trace[i].user, trace[i].expiresAt, false)
    ensures key in StoreAt(trace, n) && !StoreAt(trace, n)[key].used ==> exists i: nat :: Outstanding(trace, n, i, key)
  {
    if n > 0 {
      EntryIsHistory(trace, n - 1, key);
      if Saved(trace, n - 1, key) {
        assert Outstanding(trace, n, n - 1, key);
      } else if key in StoreAt(trace, n) && !StoreAt(trace, n)[key].used {
        var i: nat :| Outstanding(trace, n - 1, i, key);
        assert Outstanding(trace, n, i, key);
      }
    }
  }

  /** A consume succeeds with a user if and only if that user's save is the key's latest, has
      not expired and has not been redeemed since. */
  lemma ConsumeExact(trace: seq<Op>, key: Key, now: int, user: Id)
    ensures Redeem(StoreAt(trace, |trace|), key, now) == Ok(user)
            <==> exists i: nat ::
                   Outstanding(trace, |trace|, i, key) && trace[i].user == user && now < trace[i].expiresAt
  {
    EntryIsHistory(trace, |trace|, key);
  }

  ghost predicate RedeemedBetween(trace: seq<Op>, i: nat, n: nat, key: Key) {
    exists j: nat :: i < j < n && Redeemed(trace, j, key)
  }

  /** A saved token stays on record, with its user and expiry, and is marked used exactly if it has
      been redeemed since. */
  lemma {:induction false} RecordExact(trace: seq<Op>, n: nat, i: nat, key: Key)
    requires i < n <= |trace| && Saved(trace, i, key)
    requires forall j :: i < j < n ==> !Saved(trace, j, key)
    ensures key in StoreAt(trace, n)
    ensures StoreAt(trace, n)[key] == Entry(trace[i].user, trace[i].expiresAt, RedeemedBetween(trace, i, n, key))
  {
    if n > i + 1 {
      RecordExact(trace, n - 1, i, key);
      assert !Saved(trace, n - 1, key);
      assert RedeemedBetween(trace, i, n, key)
          <==> RedeemedBetween(trace, i, n - 1, key) || Redeemed(trace, n - 1, key);
    }
  }

  function Saves(trace: seq<Op>, n: nat, key: Key): nat
    requires n <= |trace|
  {
    if n == 0 then 0 else Saves(trace, n - 1, key) + if Saved(trace, n - 1, key) then 1 else 0
  }

  function Redemptions(trace: seq<Op>, n: nat, key: Key): nat
    requires n <= |trace|
  {
    if n == 0 then 0 else Redemptions(trace, n - 1, key) + if Redeemed(trace, n - 1, key) then 1 else 0
  }

  /** Successful consumes of a key never outnumber its saves, and while an unused entry is
      stored there is one save to spare. */
  lemma {:induction false} NoDoubleSpending(trace: seq<Op>, n: nat, key: Key)
    requires n <= |trace|
    ensures var s := StoreAt(trace, n);
            Redemptions(trace, n, key) + (if key in s && !s[key].used then 1 else 0) <= Saves(trace, n, key)
  {
    if n > 0 { NoDoubleSpending(trace, n - 1, key); }
  }

  class FakeTokenStore {
    var tokens: map<Key, Entry>

    constructor ()
      ensures tokens == map[]
    {
      tokens := map[];
    }

    method SaveToken(key: Key, user: Id, expiresAt: int)
      modifies this
      ensures tokens == Apply(old(tokens), Save(key, user, expiresAt))
    {
      tokens := tokens[key := Entry(user, expiresAt, false)];
    }

    method ConsumeToken(key: Key, now: int) returns (r: Result<Id, TokenError>)
      modifies this
      ensures r == Redeem(old(tokens), key, now)
      ensures tokens == Apply(old(tokens), Consume(key, now))
    {
      if key !in tokens {
        return Err(Invalid);
      }
      var entry := tokens[key];
      if entry.used || entry.expiresAt <= now {
        return Err(Invalid);
      }
      tokens := tokens[key := entry.(used := true)];
      return Ok(entry.user);
    }
  }
}
