/** Key stores whose entries run out: the commands that the Redis and Memcached lockers use, on one key. */
module TtlStore {
  import opened Common

  /** A stored value and the moment from which it is gone; None keeps it for ever. */
  datatype Entry = Entry(value: string, gone: Option<int>)

  predicate Visible(cell: Option<Entry>, now: int) {
    cell.Some? && (cell.value.gone.None? || now < cell.value.gone.value)
  }

  /** The SETNX of Redis, and the add of Memcached. */
  function AddCommand(cell: Option<Entry>, now: int, entry: Entry): (bool, Option<Entry>) {
    if Visible(cell, now) then (false, cell) else (true, Some(entry))
  }

  function GetCommand(cell: Option<Entry>, now: int): Option<string> {
    if Visible(cell, now) then Some(cell.value.value) else None
  }

  /** EXPIRE keeps the value, whoever wrote it, and is content with no key at all. */
  function ExpireCommand(cell: Option<Entry>, now: int, gone: int): Option<Entry> {
    if Visible(cell, now) then Some(cell.value.(gone := Some(gone))) else cell
  }

  /** The replace of Memcached writes the value too, and reports a missing key. */
  function ReplaceCommand(cell: Option<Entry>, now: int, entry: Entry): (bool, Option<Entry>) {
    if Visible(cell, now) then (true, Some(entry)) else (false, cell)
  }

  /** What becomes of a command: carried out and answered, carried out with the answer lost, or not carried out. */
  datatype Delivery = Answered | AnswerLost | NotDelivered

  /** A server with many keys. */
  class Server {
    var keys: map<string, Entry>

    constructor ()
      ensures keys == map[]
    {
      keys := map[];
    }

    function Cell(key: string): Option<Entry>
      reads this
    {
      if key in keys then Some(keys[key]) else None
    }

    method Put(key: string, cell: Option<Entry>)
      modifies this
      ensures keys == WithCell(old(keys), key, cell)
    {
      keys := if cell.Some? then keys[key := cell.value] else keys - {key};
    }

    method Add(key: string, entry: Entry, now: int) returns (stored: bool)
      modifies this
      ensures (stored, WithCell(old(keys), key, AddCommand(old(Cell(key)), now, entry).1)) ==
        (AddCommand(old(Cell(key)), now, entry).0, keys)
    {
      stored := !Visible(Cell(key), now);
      if stored {
        Put(key, Some(entry));
      } else {
        assert keys == WithCell(keys, key, Cell(key));
      }
    }

    method Expire(key: string, gone: int, now: int)
      modifies this
      ensures keys == WithCell(old(keys), key, ExpireCommand(old(Cell(key)), now, gone))
    {
      assert keys == WithCell(keys, key, Cell(key));
      if Visible(Cell(key), now) {
        Put(key, Some(Cell(key).value.(gone := Some(gone))));
      }
    }

    method Replace(key: string, entry: Entry, now: int) returns (stored: bool)
      modifies this
      ensures (stored, WithCell(old(keys), key, ReplaceCommand(old(Cell(key)), now, entry).1)) ==
        (ReplaceCommand(old(Cell(key)), now, entry).0, keys)
    {
      stored := Visible(Cell(key), now);
      if stored {
        Put(key, Some(entry));
      } else {
        assert keys == WithCell(keys, key, Cell(key));
      }
    }
  }

  function WithCell(keys: map<string, Entry>, key: string, cell: Option<Entry>): map<string, Entry> {
    if cell.Some? then keys[key := cell.value] else keys - {key}
  }
}
