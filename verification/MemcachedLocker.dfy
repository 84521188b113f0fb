/** The Memcached locker. */
module MemcachedLocker {
  import opened Arithmetic
  import opened Common
  import opened TtlStore

  const SECOND := 1_000_000_000
  /** Longer expirations are moments of the Unix clock. */
  const RELATIVE_LIMIT := 2_592_000

  /** The expiration that a timeout is sent as: whole seconds. */
  function Expiration(timeout: nat): nat {
    timeout / SECOND
  }

  /** When the server drops an entry with that expiration. */
  function GoneAt(expiration: nat, now: int): Option<int> {
    if expiration == 0 then None
    else if expiration <= RELATIVE_LIMIT then Some(now + expiration * SECOND)
    else Some(expiration * SECOND)
  }

  datatype LockError = HeldByAnother | NotHeld | CacheMiss | CommandFailed

  class Locker {
    const client: Server
    const lockKey: string
    const lockTimeout: nat
    const ownerID: string
    var ticking: bool

    constructor (client: Server, lockKey: string, lockTimeout: nat, ownerID: string)
      ensures this.client == client && this.lockKey == lockKey
      ensures this.lockTimeout == lockTimeout && this.ownerID == ownerID
      ensures !ticking
    {
      this.client, this.lockKey, this.lockTimeout, this.ownerID := client, lockKey, lockTimeout, ownerID;
      ticking := false;
    }

    method Lock(now: int, adding: Delivery) returns (err: Option<LockError>)
      modifies this, client
      ensures var (ok, cell) :=
          AddCommand(old(client.Cell(lockKey)), now, Entry(ownerID, GoneAt(Expiration(lockTimeout), now)));
        && err == (if !adding.Answered? then Some(CommandFailed) else if ok then None else Some(HeldByAnother))
        && client.keys == (if adding.NotDelivered? then old(client.keys) else WithCell(old(client.keys), lockKey, cell))
        && ticking == (err.None? || old(ticking))
    {
      var stored := false;
      if !adding.NotDelivered? {
        stored := client.Add(lockKey, Entry(ownerID, GoneAt(Expiration(lockTimeout), now)), now);
      }
      if !adding.Answered? {
        return Some(CommandFailed);
      }
      if !stored {
        return Some(HeldByAnother);
      }
      ticking := true;
      err := None;
    }

    /** Unlock stops the ticker even when the delete then fails. */
    method Unlock(now: int, deleting: Delivery) returns (err: Option<LockError>)
      modifies this, client
      ensures !ticking
      ensures err ==
        if !deleting.Answered? then Some(CommandFailed)
        else if Visible(old(client.Cell(lockKey)), now) then None else Some(CacheMiss)
      ensures client.keys ==
        if deleting.NotDelivered? then old(client.keys) else WithCell(old(client.keys), lockKey, None)
    {
      if ticking {
        ticking := false;
      }
      err := if Visible(client.Cell(lockKey), now) then None else Some(CacheMiss);
      if !deleting.NotDelivered? {
        client.Put(lockKey, None);
      }
      if !deleting.Answered? {
        return Some(CommandFailed);
      }
    }

    method Renew(now: int, replacing: Delivery) returns (err: Option<LockError>)
      modifies client
      ensures var (ok, cell) :=
          ReplaceCommand(old(client.Cell(lockKey)), now, Entry(ownerID, GoneAt(Expiration(lockTimeout), now)));
        && err == (if !replacing.Answered? then Some(CommandFailed) else if ok then None else Some(NotHeld))
        && client.keys ==
          (if replacing.NotDelivered? then old(client.keys) else WithCell(old(client.keys), lockKey, cell))
    {
      var stored := false;
      if !replacing.NotDelivered? {
        stored := client.Replace(lockKey, Entry(ownerID, GoneAt(Expiration(lockTimeout), now)), now);
      }
      if !replacing.Answered? {
        return Some(CommandFailed);
      }
      err := if stored then None else Some(NotHeld);
    }
  }

  // What a timeout becomes.

  /** Whole seconds up to thirty days; or less than a second, which is sent as no expiration at all. */
  predicate Covering(timeout: nat) {
    timeout < SECOND || (timeout % SECOND == 0 && timeout <= RELATIVE_LIMIT * SECOND)
  }

  lemma WholeSeconds(timeout: nat)
    ensures Expiration(timeout) * SECOND <= timeout < Expiration(timeout) * SECOND + SECOND
    ensures timeout % SECOND == 0 <==> Expiration(timeout) * SECOND == timeout
  {
    Division(timeout, SECOND);
  }

  /** The key stays for the whole timeout exactly for the covering timeouts. */
  lemma KeyStaysIff(timeout: nat, now: int, owner: string)
    requires now > 0
    ensures Covering(timeout) <==>
      forall t :: now <= t < now + timeout ==> Visible(Some(Entry(owner, GoneAt(Expiration(timeout), now))), t)
  {
    WholeSeconds(timeout);
    var cell := Some(Entry(owner, GoneAt(Expiration(timeout), now)));
    assert Covering(timeout) || !Visible(cell, now + timeout - 1);
  }

  /** It goes away by itself, and then by the end of the timeout, exactly for timeouts of at least a second. */
  lemma KeyEndsIff(timeout: nat, now: int, owner: string)
    requires now > 0
    ensures timeout >= SECOND <==>
      exists t :: t >= now && !Visible(Some(Entry(owner, GoneAt(Expiration(timeout), now))), t)
    ensures timeout >= SECOND ==> !Visible(Some(Entry(owner, GoneAt(Expiration(timeout), now))), now + timeout)
  {
    WholeSeconds(timeout);
    assert timeout >= SECOND ==> !Visible(Some(Entry(owner, GoneAt(Expiration(timeout), now))), now + timeout);
  }
}
