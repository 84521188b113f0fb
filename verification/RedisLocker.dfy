/** The Redis locker. */
module RedisLocker {
  import opened Common
  import opened TtlStore

  datatype LockError = HeldBy(owner: string) | KeyVanished | CommandFailed

  /** What the second command of Lock makes of the value it finds. */
  function OwnerCheck(found: Option<string>, ownerID: string): Option<LockError> {
    match found
    case None => Some(KeyVanished)
    case Some(o) => if o == ownerID then None else Some(HeldBy(o))
  }

  class Locker {
    const client: Server
    const lockName: string
    const lockTimeout: int
    const ownerID: string
    var ticking: bool

    constructor (client: Server, lockName: string, lockTimeout: int, ownerID: string)
      ensures this.client == client && this.lockName == lockName
      ensures this.lockTimeout == lockTimeout && this.ownerID == ownerID
      ensures !ticking
    {
      this.client, this.lockName, this.lockTimeout, this.ownerID := client, lockName, lockTimeout, ownerID;
      ticking := false;
    }

    /**
     Lock, with the store's clock at its two commands and what becomes of each. A key that
     holds the own identity counts as success and is left as it is, without a ticker; a key
     that runs out in between is an error.
     */
    method Lock(now: int, later: int, setting: Delivery, getting: Delivery) returns (err: Option<LockError>)
      requires now <= later
      modifies this, client
      ensures client.keys ==
        if setting.NotDelivered? then old(client.keys)
        else WithCell(old(client.keys), lockName,
          AddCommand(old(client.Cell(lockName)), now, Entry(ownerID, Some(now + lockTimeout))).1)
      ensures var present := Visible(old(client.Cell(lockName)), now);
        && ticking == (old(ticking) || (setting.Answered? && !present))
        && (setting.Answered? && !present ==> err.None?)
        && (setting.Answered? && present && getting.Answered? ==>
              err == OwnerCheck(GetCommand(old(client.Cell(lockName)), later), ownerID))
        && (!setting.Answered? || (present && !getting.Answered?) ==> err == Some(CommandFailed))
      ensures var compared := setting.Answered? && getting.Answered? && Visible(old(client.Cell(lockName)), now);
        && (err == Some(KeyVanished) <==> compared && !Visible(old(client.Cell(lockName)), later))
        && (forall o :: err == Some(HeldBy(o)) <==>
              compared && Visible(old(client.Cell(lockName)), later) && old(client.Cell(lockName)).value.value == o != ownerID)
    {
      var success := false;
      if !setting.NotDelivered? {
        success := client.Add(lockName, Entry(ownerID, Some(now + lockTimeout)), now);
      }
      if !setting.Answered? {
        return Some(CommandFailed);
      }
      if !success {
        assert client.Cell(lockName) == old(client.Cell(lockName));
        if !getting.Answered? {
          return Some(CommandFailed);
        }
        var current := GetCommand(client.Cell(lockName), later);
        if current.None? {
          return Some(KeyVanished);
        }
        if current.value != ownerID {
          return Some(HeldBy(current.value));
        }
        return None;
      }
      ticking := true;
      err := None;
    }

    /** Unlock stops the ticker even when the delete then fails. */
    method Unlock(del: Delivery) returns (err: Option<LockError>)
      modifies this, client
      ensures !ticking
      ensures err == if del.Answered? then None else Some(CommandFailed)
      ensures client.keys ==
        if del.NotDelivered? then old(client.keys) else WithCell(old(client.keys), lockName, None)
    {
      if ticking {
        ticking := false;
      }
      if !del.NotDelivered? {
        client.Put(lockName, None);
      }
      err := if del.Answered? then None else Some(CommandFailed);
    }

    method Renew(now: int, expire: Delivery) returns (err: Option<LockError>)
      modifies client
      ensures err == if expire.Answered? then None else Some(CommandFailed)
      ensures client.keys ==
        if expire.NotDelivered? then old(client.keys)
        else WithCell(old(client.keys), lockName,
          ExpireCommand(old(client.Cell(lockName)), now, now + lockTimeout))
    {
      if !expire.NotDelivered? {
        client.Expire(lockName, now + lockTimeout, now);
      }
      err := if expire.Answered? then None else Some(CommandFailed);
    }
  }
}
