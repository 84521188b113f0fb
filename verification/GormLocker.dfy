/**
 The expiry-row locker: one table row for each lock name, which a client inserts, takes
 over once it has expired by its own clock reading, renews and deletes by name.
 */
module GormLocker {
  import opened Common

  datatype Row = Row(owner: string, expiredAt: int)

  /** The lock transaction on the row of one name. */
  function LockCommit(cell: Option<Row>, owner: string, reading: int, timeout: int): (bool, Option<Row>) {
    if cell.Some? && !(cell.value.expiredAt < reading) then (false, cell)
    else (true, Some(Row(owner, reading + timeout)))
  }

  /** The renewal statement: it updates whatever row has the name, and is content with none. */
  function RenewCommit(cell: Option<Row>, reading: int, timeout: int): Option<Row> {
    match cell
    case None => None
    case Some(row) => Some(row.(expiredAt := reading + timeout))
  }

  /** The table of locks, one row for each name. */
  class LockTable {
    var rows: map<string, Row>

    constructor ()
      ensures rows == map[]
    {
      rows := map[];
    }

    function Cell(name: string): Option<Row>
      reads this
    {
      if name in rows then Some(rows[name]) else None
    }
  }

  function WithCell(rows: map<string, Row>, name: string, cell: Option<Row>): (r: map<string, Row>)
    ensures forall n :: n != name ==> (n in r <==> n in rows) && (n in r ==> r[n] == rows[n])
    ensures name in r <==> cell.Some?
    ensures name in r ==> r[name] == cell.value
  {
    if cell.Some? then rows[name := cell.value] else rows - {name}
  }

  /** Which statement the database fails, if any; a failed transaction leaves the table as it was. */
  datatype Fault = NoFault | CreateFails | FetchFails | SaveFails | StatementFails

  /** The fault concerns a statement that a lock attempt may come to. */
  predicate Hits(fault: Fault, cell: Option<Row>) {
    fault == CreateFails || (cell.Some? && (fault == FetchFails || fault == SaveFails))
  }

  datatype LockError = HeldBy(owner: string) | Database

  class Locker {
    const db: LockTable
    const lockName: string
    const lockTimeout: int
    const ownerID: string
    var ticking: bool

    constructor (db: LockTable, lockName: string, lockTimeout: int, ownerID: string)
      ensures this.db == db && this.lockName == lockName && this.lockTimeout == lockTimeout && this.ownerID == ownerID
      ensures !ticking
    {
      this.db, this.lockName, this.lockTimeout, this.ownerID := db, lockName, lockTimeout, ownerID;
      ticking := false;
    }

    /** Lock with the clock reading it starts from. */
    method Lock(reading: int, fault: Fault) returns (err: Option<LockError>)
      modifies this, db
      ensures fault == NoFault ==>
        var (ok, cell) := LockCommit(old(db.Cell(lockName)), ownerID, reading, lockTimeout);
        && (err.None? <==> ok)
        && db.rows == WithCell(old(db.rows), lockName, cell)
        && (!ok ==> err == Some(HeldBy(old(db.rows)[lockName].owner)))
      ensures err.None? <==>
        LockCommit(old(db.Cell(lockName)), ownerID, reading, lockTimeout).0 && !Hits(fault, old(db.Cell(lockName)))
      ensures err == Some(Database) ==> Hits(fault, old(db.Cell(lockName)))
      ensures err.Some? ==> db.rows == old(db.rows) && ticking == old(ticking)
      ensures err.None? ==>
        ticking && db.rows == WithCell(old(db.rows), lockName, Some(Row(ownerID, reading + lockTimeout)))
    {
      var expiredAt := reading + lockTimeout;
      if fault == CreateFails {
        return Some(Database);
      }
      if lockName in db.rows {
        // the insert met a duplicate name
        if fault == FetchFails {
          return Some(Database);
        }
        var lock := db.rows[lockName];
        if !(lock.expiredAt < reading) {
          return Some(HeldBy(lock.owner));
        }
        if fault == SaveFails {
          return Some(Database);
        }
        db.rows := db.rows[lockName := Row(ownerID, expiredAt)];
      } else {
        db.rows := db.rows[lockName := Row(ownerID, expiredAt)];
      }
      ticking := true;
      err := None;
    }

    /** Unlock stops the ticker even when the delete then fails. */
    method Unlock(fault: Fault) returns (err: Option<LockError>)
      modifies this, db
      ensures !ticking
      ensures err.None? <==> fault == NoFault
      ensures db.rows == if err.None? then WithCell(old(db.rows), lockName, None) else old(db.rows)
    {
      if ticking {
        ticking := false;
      }
      if fault != NoFault {
        return Some(Database);
      }
      db.rows := db.rows - {lockName};
      err := None;
    }

    method Renew(reading: int, fault: Fault) returns (err: Option<LockError>)
      modifies db
      ensures err.None? <==> fault == NoFault
      ensures db.rows ==
        if err.None? then
          WithCell(old(db.rows), lockName, RenewCommit(old(db.Cell(lockName)), reading, lockTimeout))
        else old(db.rows)
    {
      if fault != NoFault {
        return Some(Database);
      }
      if lockName in db.rows {
        db.rows := db.rows[lockName := db.rows[lockName].(expiredAt := reading + lockTimeout)];
      }
      err := None;
      assert db.rows == WithCell(old(db.rows), lockName, RenewCommit(old(db.Cell(lockName)), reading, lockTimeout));
    }
  }
}
