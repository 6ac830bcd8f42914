/** `Dataload` of the PostgreSQL connector. The database is an oracle: it
    either accepts a connection or not, and answers each statement with a
    result table or an error. Each operation returns its Python result
    together with the trace of what it did to the server, and the trace is
    given meaning by a small session state machine that tracks which rows
    are pending in the open transaction and which are durable. */
module Loader {
  import opened Wrappers
  import opened Text
  import opened Frames

  // ---------------------------------------------------------------------
  // The server and its sessions
  // ---------------------------------------------------------------------

  datatype Statement =
    | Execute(sql: string)
    | ExecuteMany(sql: string, params: seq<Row>)
    | Commit
    | ReadQuery(sql: string)

  /** A result table, or the error the driver raises. */
  datatype Reply = Done(table: Frame) | Error(message: string)

  /** Whether `psycopg2.connect` succeeds, and how the server answers. */
  datatype Server = Server(reachable: bool, answer: Statement -> Reply)

  /** An open connection handle. */
  datatype Conn = Conn

  datatype Event = Opened | Sent(stmt: Statement, reply: Reply) | Closed

  /** What the server holds for one client: whether a connection is open,
      the rows inserted by the open transaction, and the committed rows. */
  datatype Session = Session(open: bool, pending: seq<Row>, durable: seq<Row>)

  function Idle(durable: seq<Row>): Session
  {
    Session(false, [], durable)
  }

  /** One event; `None` when the event is impossible in that state (using
      or closing a connection that is not open, opening one twice). A
      failed statement aborts the transaction, closing rolls it back. */
  function Step(s: Session, e: Event): Option<Session>
  {
    match e
    case Opened => if s.open then None else Some(Session(true, [], s.durable))
    case Closed => if s.open then Some(Idle(s.durable)) else None
    case Sent(stmt, reply) =>
      if !s.open then None
      else if reply.Error? then Some(s.(pending := []))
      else
        match stmt
        case ExecuteMany(_, rows) => Some(s.(pending := s.pending + rows))
        case Commit => Some(Session(true, [], s.durable + s.pending))
        case Execute(_) => Some(s)
        case ReadQuery(_) => Some(s)
  }

  function Replay(s: Session, trace: seq<Event>): Option<Session>
    decreases |trace|
  {
    if |trace| == 0 then Some(s)
    else
      match Step(s, trace[0])
      case None => None
      case Some(t) => Replay(t, trace[1..])
  }

  /** Committed rows are never lost: whatever a valid trace does, the rows
      durable before it are still durable, in order, after it. */
  lemma {:induction false} ReplayKeepsDurable(s: Session, trace: seq<Event>)
    requires Replay(s, trace).Some?
    ensures |s.durable| <= |Replay(s, trace).value.durable|
    ensures Replay(s, trace).value.durable[..|s.durable|] == s.durable
    decreases |trace|
  {
    if |trace| > 0 {
      var t := Step(s, trace[0]).value;
      assert t.durable[..|s.durable|] == s.durable;
      ReplayKeepsDurable(t, trace[1..]);
      var d := Replay(t, trace[1..]).value.durable;
      assert d[..|s.durable|] == d[..|t.durable|][..|s.durable|];
    }
  }

  lemma ReplayConcat(s: Session, a: seq<Event>, b: seq<Event>)
    ensures Replay(s, a + b) ==
      if Replay(s, a).None? then None else Replay(Replay(s, a).value, b)
    decreases |a|
  {
    if |a| > 0 {
      assert (a + b)[0] == a[0];
      assert (a + b)[1..] == a[1..] + b;
      if Step(s, a[0]).Some? {
        ReplayConcat(Step(s, a[0]).value, a[1..], b);
      }
    } else {
      assert a + b == b;
    }
  }

  lemma ReplayCons(s: Session, e: Event, rest: seq<Event>)
    ensures Replay(s, [e] + rest) ==
      if Step(s, e).None? then None else Replay(Step(s, e).value, rest)
  {
    assert ([e] + rest)[0] == e;
    assert ([e] + rest)[1..] == rest;
  }

  // ---------------------------------------------------------------------
  // Results
  // ---------------------------------------------------------------------

  /** A Python call's result with the events it caused. */
  datatype Call<T> = Call(value: T, trace: seq<Event>)

  /** How a call that may raise ends. */
  datatype Outcome = Returned | Raised(message: string)

  predicate Failed(e: Event)
  {
    e.Sent? && e.reply.Error?
  }

  // ---------------------------------------------------------------------
  // Connections
  // ---------------------------------------------------------------------

  /** `create_connection`: a connection when the server accepts one, and
      `None`, not an exception, when it does not. */
  function CreateConnection(server: Server): (c: Call<Option<Conn>>)
    ensures c.value.Some? <==> server.reachable
    ensures forall d :: (Replay(Idle(d), c.trace)
      == Some(if c.value.Some? then Session(true, [], d) else Idle(d)))
  {
    if server.reachable then Call(Some(Conn), [Opened]) else Call(None, [])
  }

  /** `close_connection`: closes an open connection; `None` is left alone. */
  function CloseConnection(conn: Option<Conn>): (trace: seq<Event>)
    ensures conn.None? ==> trace == []
    ensures forall s: Session :: s.open && conn.Some? ==> Replay(s, trace) == Some(Idle(s.durable))
  {
    if conn.Some? then [Closed] else []
  }

  /** `execute_query`: runs one statement and commits it. Nothing escapes:
      a missing connection or an error is caught and logged. The commit is
      sent only after the statement succeeded, and the connection is left
      open. */
  function ExecuteQuery(server: Server, conn: Option<Conn>, sql: string): (trace: seq<Event>)
    ensures conn.None? ==> trace == []
    ensures conn.Some? ==> |trace| >= 1 && trace[0] == Sent(Execute(sql), server.answer(Execute(sql)))
    ensures conn.Some? && !Failed(trace[0]) ==> trace == [trace[0], Sent(Commit, server.answer(Commit))]
    ensures conn.Some? && Failed(trace[0]) ==> |trace| == 1
    ensures forall i :: 0 <= i < |trace| && trace[i].Sent? && trace[i].stmt == Commit ==>
      i == 1 && !Failed(trace[0])
    ensures Opened !in trace && Closed !in trace
  {
    if conn.None? then []
    else
      var executed := server.answer(Execute(sql));
      if executed.Error? then [Sent(Execute(sql), executed)]
      else [Sent(Execute(sql), executed), Sent(Commit, server.answer(Commit))]
  }

  /** A statement run by `execute_query` leaves the connection open and
      commits nothing that was not already pending. */
  lemma ExecuteQueryKeepsSessionOpen(server: Server, conn: Option<Conn>, sql: string, d: seq<Row>)
    ensures Replay(Session(true, [], d), ExecuteQuery(server, conn, sql)) == Some(Session(true, [], d))
  {
    var trace := ExecuteQuery(server, conn, sql);
    var s := Session(true, [], d);
    if conn.Some? {
      var first := trace[0];
      ReplayCons(s, first, trace[1..]);
      assert trace == [first] + trace[1..];
      assert Step(s, first) == Some(s);
      if |trace| == 2 {
        assert trace[1..] == [trace[1]] + [];
        assert d + [] == d;
        ReplayCons(s, trace[1], []);
      } else {
        assert trace[1..] == [];
      }
    }
  }

  // ---------------------------------------------------------------------
  // The INSERT statement
  // ---------------------------------------------------------------------

  function Placeholders(n: nat): (ps: seq<string>)
    ensures |ps| == n
    ensures forall i :: 0 <= i < n ==> ps[i] == "%s"
  {
    seq(n, _ => "%s")
  }

  /** `f"INSERT INTO {name} ({', '.join(columns)}) VALUES ({', '.join(['%s'] * n)})"`:
      one `%s` placeholder per column, provided the names themselves hold
      no `%`. */
  function InsertStatement(name: string, columns: seq<string>): (sql: string)
    ensures NoPercent(name, columns) ==> CountChar(sql, '%') == |columns|
  {
    InsertPlaceholders(name, columns);
    InsertHead(name, columns) + Join(", ", Placeholders(|columns|)) + ")"
  }

  predicate NoPercent(name: string, columns: seq<string>)
  {
    '%' !in name && forall i :: 0 <= i < |columns| ==> '%' !in columns[i]
  }

  function InsertHead(name: string, columns: seq<string>): string
  {
    "INSERT INTO " + name + " (" + Join(", ", columns) + ") VALUES ("
  }

  lemma {:induction false} PlaceholderListCount(n: nat)
    ensures CountChar(Join(", ", Placeholders(n)), '%') == n
    decreases n
  {
    if n > 1 {
      var ps := Placeholders(n);
      assert ps[1..] == Placeholders(n - 1);
      PlaceholderListCount(n - 1);
      var rest := Join(", ", Placeholders(n - 1));
      assert Join(", ", ps) == "%s" + ", " + rest;
      CountCharConcat("%s" + ", ", rest, '%');
      CountCharConcat("%s", ", ", '%');
    } else if n == 1 {
      assert Join(", ", Placeholders(1)) == "%s";
    }
  }

  lemma InsertPlaceholders(name: string, columns: seq<string>)
    ensures NoPercent(name, columns) ==>
      CountChar(InsertHead(name, columns) + Join(", ", Placeholders(|columns|)) + ")", '%') == |columns|
  {
    if NoPercent(name, columns) {
      JoinAvoids(", ", columns, '%');
      var head := InsertHead(name, columns);
      assert '%' !in head;
      CountCharAbsent(head, '%');
      var values := Join(", ", Placeholders(|columns|));
      PlaceholderListCount(|columns|);
      CountCharConcat(head, values, '%');
      CountCharConcat(head + values, ")", '%');
    }
  }

  /** `[tuple(row) for row in df_data.values]`. */
  function RowTuples(f: Frame): (tuples: seq<seq<Value>>)
    ensures |tuples| == |f.rows|
  {
    seq(|f.rows|, i requires 0 <= i < |f.rows| => f.rows[i])
  }

  /** One parameter tuple per row, in row order, each as long as the
      statement has placeholders. */
  lemma TuplesFitStatement(name: string, f: Frame)
    requires WellFormed(f)
    requires NoPercent(name, f.columns)
    ensures RowTuples(f) == f.rows
    ensures forall i :: 0 <= i < |RowTuples(f)| ==>
      |RowTuples(f)[i]| == CountChar(InsertStatement(name, f.columns), '%')
  {
  }

  // ---------------------------------------------------------------------
  // load_df and read_sql
  // ---------------------------------------------------------------------

  /** `load_df`: opens a connection, inserts every row with one
      `executemany`, commits, and closes the connection in its `finally`.
      An error of the insert or of the commit propagates after the close;
      without a connection nothing happens and nothing is raised. */
  function LoadDf(server: Server, f: Frame, name: string): (c: Call<Outcome>)
    ensures !server.reachable ==> c.value == Returned && c.trace == []
    ensures c.value.Raised? <==> exists i :: 0 <= i < |c.trace| && Failed(c.trace[i])
    ensures server.reachable ==> |c.trace| >= 3 && c.trace[0] == Opened && c.trace[|c.trace| - 1] == Closed
    ensures server.reachable ==>
      var insert := ExecuteMany(InsertStatement(name, f.columns), RowTuples(f));
      c.trace[1] == Sent(insert, server.answer(insert))
    ensures server.reachable && !Failed(c.trace[1]) ==>
      c.trace == [Opened, c.trace[1], Sent(Commit, server.answer(Commit)), Closed]
    ensures server.reachable && Failed(c.trace[1]) ==> c.trace == [Opened, c.trace[1], Closed]
    ensures forall i :: 0 <= i < |c.trace| && c.trace[i].Sent? && c.trace[i].stmt == Commit ==>
      i >= 1 && c.trace[i - 1].Sent? && c.trace[i - 1].stmt.ExecuteMany? && !Failed(c.trace[i - 1])
  {
    var conn := CreateConnection(server);
    if conn.value.None? then Call(Returned, conn.trace + CloseConnection(None))
    else
      var insert := ExecuteMany(InsertStatement(name, f.columns), RowTuples(f));
      var inserted := server.answer(insert);
      if inserted.Error? then
        var trace := [Opened, Sent(insert, inserted)] + CloseConnection(conn.value);
        assert Failed(trace[1]);
        Call(Raised(inserted.message), trace)
      else
        var committed := server.answer(Commit);
        var trace := [Opened, Sent(insert, inserted), Sent(Commit, committed)] + CloseConnection(conn.value);
        assert !Failed(trace[0]) && !Failed(trace[1]) && !Failed(trace[3]);
        if committed.Error? then
          assert Failed(trace[2]);
          Call(Raised(committed.message), trace)
        else
          Call(Returned, trace)
  }

  /** `read_sql`: the result table of the query, or `None` when no
      connection could be made or the query failed. The connection, once
      made, is closed either way, and reading commits nothing. */
  function ReadSql(server: Server, sql: string): (c: Call<Option<Frame>>)
    ensures c.value.Some? <==> server.reachable && server.answer(ReadQuery(sql)).Done?
    ensures c.value.Some? ==> c.value.value == server.answer(ReadQuery(sql)).table
    ensures server.reachable ==> |c.trace| >= 2 && c.trace[0] == Opened && c.trace[|c.trace| - 1] == Closed
  {
    var conn := CreateConnection(server);
    if conn.value.None? then Call(None, conn.trace)
    else
      var reply := server.answer(ReadQuery(sql));
      var trace := [Opened, Sent(ReadQuery(sql), reply)] + CloseConnection(conn.value);
      match reply
      case Done(table) => Call(Some(table), trace)
      case Error(_) => Call(None, trace)
  }

  /** `load_df` is all or nothing: starting from any committed contents,
      the rows of the frame become durable, all of them and in order,
      exactly when the server was reachable and the call returned normally;
      otherwise nothing changes. The connection is closed in every case. */
  lemma LoadDfAllOrNothing(server: Server, f: Frame, name: string, d: seq<Row>)
    ensures Replay(Idle(d), LoadDf(server, f, name).trace)
      == Some(Idle(if server.reachable && LoadDf(server, f, name).value.Returned? then d + f.rows else d))
  {
    var c := LoadDf(server, f, name);
    if server.reachable {
      var insert := ExecuteMany(InsertStatement(name, f.columns), RowTuples(f));
      var inserted := server.answer(insert);
      var s1 := Session(true, [], d);
      ReplayCons(Idle(d), Opened, c.trace[1..]);
      assert c.trace == [Opened] + c.trace[1..];
      if inserted.Error? {
        assert c.trace[1..] == [Sent(insert, inserted)] + [Closed];
        ReplayCons(s1, Sent(insert, inserted), [Closed]);
        ReplayCons(s1, Closed, []);
      } else {
        var committed := server.answer(Commit);
        var s2 := Session(true, f.rows, d);
        assert RowTuples(f) == f.rows;
        assert [] + f.rows == f.rows;
        assert Step(s1, Sent(insert, inserted)) == Some(s2);
        assert c.trace[1..] == [Sent(insert, inserted)] + ([Sent(Commit, committed)] + [Closed]);
        ReplayCons(s1, Sent(insert, inserted), [Sent(Commit, committed)] + [Closed]);
        ReplayCons(s2, Sent(Commit, committed), [Closed]);
        var s3 := if committed.Error? then Session(true, [], d) else Session(true, [], d + f.rows);
        ReplayCons(s3, Closed, []);
      }
    }
  }

  /** `read_sql` leaves the committed contents as they were and the
      connection closed, whatever the server answers. */
  lemma ReadSqlPersistsNothing(server: Server, sql: string, d: seq<Row>)
    ensures Replay(Idle(d), ReadSql(server, sql).trace) == Some(Idle(d))
  {
    var c := ReadSql(server, sql);
    if server.reachable {
      var e := Sent(ReadQuery(sql), server.answer(ReadQuery(sql)));
      var s1 := Session(true, [], d);
      assert c.trace == [Opened] + ([e] + [Closed]);
      ReplayCons(Idle(d), Opened, [e] + [Closed]);
      ReplayCons(s1, e, [Closed]);
      ReplayCons(s1, Closed, []);
    }
  }
}
