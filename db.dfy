/** The MySQL side as the engine sees it: one table, a connection pool and the
    pooled connections. Committed rows live in the table; rows inserted on a
    connection stay pending there until it commits. ALTER TABLE is DDL, which
    MySQL commits on its own, so it changes the table at once. */
module Db {
  import opened Base
  import opened Text

  /** ER_DUP_FIELDNAME: "Duplicate column name". */
  const ER_DUP_FIELDNAME := 1060

  class Table {
    var columns: seq<string>
    var rows: seq<Row>

    constructor (columns: seq<string>)
      ensures this.columns == columns && rows == []
    {
      this.columns := columns;
      rows := [];
    }
  }

  /** A pool of `size` connections to the database holding `table`. */
  class Pool {
    const table: Table
    var idle: nat

    constructor (table: Table, size: nat)
      ensures this.table == table && idle == size
    {
      this.table := table;
      idle := size;
    }

    /** pool.get_connection(): a fresh session, or null (PoolError) when every
        connection is checked out. */
    method GetConnection() returns (c: Connection?)
      modifies this
      ensures old(idle) == 0 ==> c == null && idle == 0
      ensures old(idle) > 0 ==>
        (c != null && fresh(c) && c.pool == this
         && c.open && c.pending == [] && c.cursors == 0 && idle == old(idle) - 1)
    {
      if idle == 0 {
        c := null;
      } else {
        c := new Connection(this);
        idle := idle - 1;
      }
    }
  }

  class Connection {
    const pool: Pool
    var open: bool
    /** Rows inserted in the current transaction and not yet committed. */
    var pending: seq<Row>
    /** Cursors opened on this connection and not yet closed. */
    var cursors: nat

    constructor (pool: Pool)
      ensures this.pool == pool && open && pending == [] && cursors == 0
    {
      this.pool := pool;
      open := true;
      pending := [];
      cursors := 0;
    }

    /** conn.cursor() */
    method OpenCursor()
      modifies this
      ensures cursors == old(cursors) + 1
      ensures open == old(open) && pending == old(pending)
    {
      cursors := cursors + 1;
    }

    /** cur.close() */
    method CloseCursor()
      modifies this
      ensures cursors == if old(cursors) > 0 then old(cursors) - 1 else 0
      ensures open == old(open) && pending == old(pending)
    {
      if cursors > 0 {
        cursors := cursors - 1;
      }
    }

    /** SHOW COLUMNS FROM the table, first field of each row. */
    method ShowColumns() returns (names: seq<string>)
      ensures names == pool.table.columns
    {
      names := pool.table.columns;
    }

    /** ALTER TABLE ... ADD COLUMN `col` VARCHAR(255). MySQL compares column names
        without regard to case, so an existing name gives error 1060 and no change.
        `fault` is the server's answer for a name that is not there: None adds
        the column; 1060 means another session created it first, so it exists
        afterwards as well; any other error number leaves the table alone.
        MySQL also commits any pending rows before an ALTER TABLE; that is not
        modelled, because the engine only alters the table right after taking a
        connection, when nothing is pending. */
    method AddColumn(col: string, fault: Option<int>) returns (err: Option<int>)
      modifies pool.table
      ensures Casefold(col) in Folds(old(pool.table.columns)) ==>
        err == Some(ER_DUP_FIELDNAME) && pool.table.columns == old(pool.table.columns)
      ensures Casefold(col) !in Folds(old(pool.table.columns)) ==>
        err == fault
        && pool.table.columns ==
          if fault.None? || fault == Some(ER_DUP_FIELDNAME) then old(pool.table.columns) + [col]
          else old(pool.table.columns)
      ensures pool.table.rows == old(pool.table.rows)
    {
      if Casefold(col) in Folds(pool.table.columns) {
        err := Some(ER_DUP_FIELDNAME);
      } else {
        err := fault;
        if fault.None? || fault == Some(ER_DUP_FIELDNAME) {
          pool.table.columns := pool.table.columns + [col];
        }
      }
    }

    /** cur.executemany(sql, rows): the rows join the open transaction, or the
        server rejects the batch (`fault`) and nothing of it is kept. The
        statement text is not interpreted here. */
    method ExecuteMany(sql: string, rows: seq<Row>, fault: Option<int>) returns (err: Option<int>)
      modifies this
      ensures err == fault
      ensures pending == if fault.None? then old(pending) + rows else old(pending)
      ensures open == old(open) && cursors == old(cursors)
    {
      err := fault;
      if fault.None? {
        pending := pending + rows;
      }
    }

    /** conn.commit() */
    method Commit()
      modifies this, pool.table
      ensures pool.table.rows == old(pool.table.rows) + old(pending) && pending == []
      ensures pool.table.columns == old(pool.table.columns)
      ensures open == old(open) && cursors == old(cursors)
    {
      pool.table.rows := pool.table.rows + pending;
      pending := [];
    }

    /** conn.rollback() */
    method Rollback()
      modifies this
      ensures pending == [] && open == old(open) && cursors == old(cursors)
    {
      pending := [];
    }

    /** conn.is_connected() */
    method IsConnected() returns (b: bool)
      ensures b == open
    {
      b := open;
    }

    /** conn.close() on a pooled connection: the session is reset, which drops
        any uncommitted rows, and the connection goes back to the pool. Cursors
        still open are not closed by this. */
    method Close()
      modifies this, pool
      ensures !open && pending == [] && cursors == old(cursors)
      ensures pool.idle == if old(open) then old(pool.idle) + 1 else old(pool.idle)
    {
      if open {
        pool.idle := pool.idle + 1;
      }
      open := false;
      pending := [];
    }
  }
}
