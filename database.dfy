/** The connection wrapper (`PostgreSQLDatabase`): one connection handle,
    opened with a bounded loop before every statement and closed after it,
    parameter binding, and the string-typed rendering of result rows. The
    driver's `Open` is an oracle: `opener(k)` is what the k-th call of `Open`
    over the wrapper's lifetime does. */
module PostgreSql {
  import opened Common
  import opened Relational

  /** What one call of the driver's `Open` does. */
  datatype OpenOutcome =
    | Opens       // the connection reaches state Open
    | StaysShut   // Open returns, but the state is still not Open
    | Throws      // Open throws; nothing in the loop catches it

  /** The connection handle: `Disposed` is the wrapper after `Dispose` has
      set `_connection` to null. */
  datatype Conn = Closed | Open | Disposed

  /** How the open loop ends, with the count of `Open` calls made so far. */
  datatype LoopEnd = Reached(calls: nat) | GaveUp(calls: nat) | Raised(calls: nat)

  /** `while (retries >= 0 && State != Open) { Open(); retries--; }`, started
      with `calls` calls of `Open` already made. */
  function OpenLoop(opener: nat -> OpenOutcome, calls: nat, retries: int): (e: LoopEnd)
    ensures calls <= e.calls
    ensures retries >= 0 ==> e.calls <= calls + retries + 1
    ensures retries < 0 ==> e == GaveUp(calls)
    ensures e.Reached? || e.Raised? ==> calls < e.calls && opener(e.calls - 1) == if e.Reached? then Opens else Throws
    decreases retries + 1
  {
    if retries < 0 then GaveUp(calls)
    else match opener(calls)
      case Opens => Reached(calls + 1)
      case Throws => Raised(calls + 1)
      case StaysShut => OpenLoop(opener, calls + 1, retries - 1)
  }

  /** Whether a statement can run: a connection made ready, or the exception
      raised on the way, with the count of `Open` calls made afterwards. */
  datatype Connect = Ready(calls: nat) | Failed(error: Error, calls: nat)

  /** The connection phase of Execute, QueryValue and Query: opening a
      disposed wrapper dereferences null; an open connection is used as it is;
      otherwise the loop runs with `retries = 10`. A loop that gives up leaves
      the connection closed, and running a command on it fails. */
  function ConnectFor(conn: Conn, calls: nat, opener: nat -> OpenOutcome): (c: Connect)
    ensures calls <= c.calls <= calls + 11
    ensures conn != Closed ==> c.calls == calls
    ensures c.Failed? && c.error == NullReference <==> conn == Disposed
    ensures c.Ready? && conn == Closed ==> calls < c.calls && opener(c.calls - 1) == Opens
    ensures c.Failed? && c.error == StorageFailure ==> calls < c.calls && opener(c.calls - 1) == Throws
    ensures c.Failed? && c.error == InvalidOperation ==>
      c.calls == calls + 11 && forall k :: calls <= k < c.calls ==> opener(k) == StaysShut
  {
    match conn
    case Disposed => Failed(NullReference, calls)
    case Open => Ready(calls)
    case Closed =>
      match OpenLoop(opener, calls, 10)
      case Reached(k) => Ready(k)
      case GaveUp(k) => Failed(InvalidOperation, k)
      case Raised(k) => Failed(StorageFailure, k)
  }

  /** `AddParameters`: every entry bound once under its own name, null bound
      as SQL NULL, nothing bound for a null dictionary. */
  function Bound(parameters: Option<map<string, Obj>>): (p: Params)
    ensures parameters.None? ==> p == map[]
    ensures parameters.Some? ==> p.Keys == parameters.value.Keys
    ensures forall k :: k in p ==> (p[k] == DbNull <==> parameters.value[k] == Null)
    ensures forall k :: k in p ==> (p[k].Text? <==> parameters.value[k].Str?)
  {
    if parameters.None? then map[]
    else map k | k in parameters.value :: ToValue(parameters.value[k])
  }

  /** `reader.GetValue(i).ToString()`, or null for a database NULL; a boolean
      prints as "True" or "False". */
  function ToText(v: Value): NStr {
    match v
    case DbNull => None
    case Text(s) => Some(s)
    case Bool(b) => Some(if b then "True" else "False")
  }

  /** `row.Add(columnName, columnValue)` over the remaining fields; `Add`
      throws on a column name already present. */
  function RowFrom(acc: map<string, NStr>, fields: seq<Field>): Result<map<string, NStr>>
    decreases |fields|
  {
    if fields == [] then Ok(acc)
    else if fields[0].0 in acc then Err(ArgumentError)
    else RowFrom(acc[fields[0].0 := ToText(fields[0].1)], fields[1..])
  }

  /** `rows.Add(row)` over the remaining reader rows. */
  function RowsFrom(acc: seq<map<string, NStr>>, reader: seq<ReaderRow>): Result<seq<map<string, NStr>>>
    decreases |reader|
  {
    if reader == [] then Ok(acc)
    else match RowFrom(map[], reader[0])
      case Err(e) => Err(e)
      case Ok(row) => RowsFrom(acc + [row], reader[1..])
  }

  function Rendered(reader: seq<ReaderRow>): Result<seq<map<string, NStr>>> {
    RowsFrom([], reader)
  }

  /** `ExecuteScalar`: the first column of the first row, or null without rows. */
  function Scalar(reader: seq<ReaderRow>): (v: Option<Value>)
    ensures v.None? <==> reader == [] || reader[0] == []
    ensures v.Some? ==> (reader[0][0].0, v.value) in reader[0]
  {
    if reader == [] || reader[0] == [] then None else Some(reader[0][0].1)
  }

  /** `value as string`: the scalar only when it is a string. */
  function AsString(v: Option<Value>): (r: NStr)
    ensures r.Some? ==> v == Some(Text(r.value))
    ensures v.Some? && v.value.Text? ==> r.Some?
  {
    if v.Some? && v.value.Text? then Some(v.value.s) else None
  }

  /** Result and tables after Execute, given how the connection phase went. */
  function ExecuteOutcome(c: Connect, t: Tables, applied: Result<Effect>): (Result<int>, Tables) {
    if c.Failed? then (Err(c.error), t)
    else match applied
      case Err(_) => (Err(StorageFailure), t)
      case Ok(e) => (Ok(e.count), e.tables)
  }

  function QueryValueOutcome(c: Connect, selected: Result<seq<ReaderRow>>): Result<Option<Value>> {
    if c.Failed? then Err(c.error)
    else match selected
      case Err(_) => Err(StorageFailure)
      case Ok(reader) => Ok(Scalar(reader))
  }

  function QueryOutcome(c: Connect, selected: Result<seq<ReaderRow>>): Result<seq<map<string, NStr>>> {
    if c.Failed? then Err(c.error)
    else match selected
      case Err(_) => Err(StorageFailure)
      case Ok(reader) => Rendered(reader)
  }

  /** AddParameters, binding into a fresh parameter collection. */
  method AddParameters(parameters: Option<map<string, Obj>>) returns (bound: Params)
    ensures parameters.None? ==> bound == map[]
    ensures parameters.Some? ==> bound.Keys == parameters.value.Keys
    ensures parameters.Some? ==> forall k :: k in bound ==> bound[k] == ToValue(parameters.value[k])
  {
    bound := map[];
    if parameters.None? {
      return;
    }
    var todo := parameters.value.Keys;
    while todo != {}
      invariant todo <= parameters.value.Keys
      invariant bound.Keys == parameters.value.Keys - todo
      invariant forall k :: k in bound ==> bound[k] == ToValue(parameters.value[k])
      decreases todo
    {
      var k :| k in todo;
      bound := bound[k := ToValue(parameters.value[k])];
      todo := todo - {k};
    }
  }

  /** The `using (reader)` block of Query: one dictionary per reader row,
      built column by column. */
  method ReadRows(reader: seq<ReaderRow>) returns (r: Result<seq<map<string, NStr>>>)
    ensures r == Rendered(reader)
  {
    var rows: seq<map<string, NStr>> := [];
    var i := 0;
    while i < |reader|
      invariant 0 <= i <= |reader|
      invariant Rendered(reader) == RowsFrom(rows, reader[i..])
    {
      var fields := reader[i];
      var row: map<string, NStr> := map[];
      var j := 0;
      while j < |fields|
        invariant 0 <= j <= |fields|
        invariant RowFrom(map[], fields) == RowFrom(row, fields[j..])
      {
        var columnName := fields[j].0;
        if columnName in row {
          assert RowFrom(map[], fields) == Err(ArgumentError);
          assert reader[i..][0] == fields;
          return Err(ArgumentError);
        }
        row := row[columnName := ToText(fields[j].1)];
        j := j + 1;
      }
      assert fields[j..] == [];
      assert reader[i..][0] == fields && reader[i..][1..] == reader[i + 1..];
      rows := rows + [row];
      i := i + 1;
    }
    assert reader[i..] == [];
    r := Ok(rows);
  }

  // ---------------------------------------------------------------- the open loop

  /** The loop stops at the first call of `Open` that does not leave the
      connection shut: it is open after a call that opens, and the exception
      of a call that throws propagates at once. */
  lemma {:induction false} LoopStopsAtFirstDecisiveCall(opener: nat -> OpenOutcome, calls: nat, retries: int, n: nat)
    requires n <= retries
    requires forall k :: calls <= k < calls + n ==> opener(k) == StaysShut
    requires opener(calls + n) != StaysShut
    ensures OpenLoop(opener, calls, retries)
         == if opener(calls + n) == Opens then Reached(calls + n + 1) else Raised(calls + n + 1)
    decreases n
  {
    if n > 0 {
      assert opener(calls) == StaysShut;
      LoopStopsAtFirstDecisiveCall(opener, calls + 1, retries - 1, n - 1);
    }
  }

  /** A connection that never opens is tried `retries + 1` times, then the
      loop gives up without an exception. */
  lemma {:induction false} LoopGivesUpAfterAllRetries(opener: nat -> OpenOutcome, calls: nat, retries: int)
    requires forall k :: calls <= k < calls + retries + 1 ==> opener(k) == StaysShut
    ensures OpenLoop(opener, calls, retries) == GaveUp(calls + (if retries < 0 then 0 else retries + 1))
    decreases retries + 1
  {
    if retries >= 0 {
      assert opener(calls) == StaysShut;
      LoopGivesUpAfterAllRetries(opener, calls + 1, retries - 1);
    }
  }

  /** A connection that stays shut for its first n < 11 calls and then opens
      is ready after exactly n + 1 calls. */
  lemma ConnectOpensAfterFailures(calls: nat, opener: nat -> OpenOutcome, n: nat)
    requires n <= 10
    requires forall k :: calls <= k < calls + n ==> opener(k) == StaysShut
    requires opener(calls + n) == Opens
    ensures ConnectFor(Closed, calls, opener) == Ready(calls + n + 1)
  {
    LoopStopsAtFirstDecisiveCall(opener, calls, 10, n);
  }

  /** A connection that never opens costs exactly 11 calls, after which the
      statement fails on the closed connection. */
  lemma ConnectNeverOpens(calls: nat, opener: nat -> OpenOutcome)
    requires forall k :: calls <= k < calls + 11 ==> opener(k) == StaysShut
    ensures ConnectFor(Closed, calls, opener) == Failed(InvalidOperation, calls + 11)
  {
    LoopGivesUpAfterAllRetries(opener, calls, 10);
  }

  /** An `Open` that throws is not retried: the failure surfaces after the
      calls that stayed shut before it. */
  lemma ConnectThrowIsNotRetried(calls: nat, opener: nat -> OpenOutcome, n: nat)
    requires n <= 10
    requires forall k :: calls <= k < calls + n ==> opener(k) == StaysShut
    requires opener(calls + n) == Throws
    ensures ConnectFor(Closed, calls, opener) == Failed(StorageFailure, calls + n + 1)
  {
    LoopStopsAtFirstDecisiveCall(opener, calls, 10, n);
  }

  // ---------------------------------------------------------------- result rows

  /** The column names of a reader row. */
  function ColumnNames(fields: seq<Field>): set<string> {
    set i | 0 <= i < |fields| :: fields[i].0
  }

  /** With distinct names, a reader row becomes a dictionary holding exactly
      its columns (besides what it held), each mapped to its text. */
  lemma {:induction false} RowFromDistinct(acc: map<string, NStr>, fields: seq<Field>)
    requires DistinctNames(fields)
    requires forall i :: 0 <= i < |fields| ==> fields[i].0 !in acc
    ensures RowFrom(acc, fields).Ok?
    ensures RowFrom(acc, fields).value.Keys == acc.Keys + ColumnNames(fields)
    ensures forall k :: k in acc ==> RowFrom(acc, fields).value[k] == acc[k]
    ensures forall i :: 0 <= i < |fields| ==> RowFrom(acc, fields).value[fields[i].0] == ToText(fields[i].1)
    decreases |fields|
  {
    if fields != [] {
      var acc' := acc[fields[0].0 := ToText(fields[0].1)];
      assert DistinctNames(fields[1..]) by {
        forall i, j | 0 <= i < j < |fields[1..]| ensures fields[1..][i].0 != fields[1..][j].0 {
          assert fields[1..][i] == fields[i + 1] && fields[1..][j] == fields[j + 1];
        }
      }
      forall i | 0 <= i < |fields[1..]| ensures fields[1..][i].0 !in acc' {
        assert fields[1..][i] == fields[i + 1];
      }
      RowFromDistinct(acc', fields[1..]);
      var m := RowFrom(acc', fields[1..]).value;
      assert RowFrom(acc, fields) == Ok(m);
      assert ColumnNames(fields) == {fields[0].0} + ColumnNames(fields[1..]) by {
        forall x | x in ColumnNames(fields) ensures x in {fields[0].0} + ColumnNames(fields[1..]) {
          var i :| 0 <= i < |fields| && fields[i].0 == x;
          if i > 0 { assert fields[1..][i - 1] == fields[i]; }
        }
      }
      forall i | 0 <= i < |fields| ensures m[fields[i].0] == ToText(fields[i].1) {
        if i > 0 { assert fields[1..][i - 1] == fields[i]; }
      }
    }
  }

  /** A reader row that repeats a column name makes `row.Add` throw. */
  lemma {:induction false} RowFromDuplicate(acc: map<string, NStr>, fields: seq<Field>, i: nat, j: nat)
    requires i < j < |fields| && fields[i].0 == fields[j].0
    ensures RowFrom(acc, fields) == Err(ArgumentError)
    decreases |fields|
  {
    if fields[0].0 !in acc {
      if i == 0 {
        RowFromPresent(acc[fields[0].0 := ToText(fields[0].1)], fields[1..], j - 1);
      } else {
        RowFromDuplicate(acc[fields[0].0 := ToText(fields[0].1)], fields[1..], i - 1, j - 1);
      }
    }
  }

  /** A column whose name the dictionary already holds makes `row.Add` throw. */
  lemma {:induction false} RowFromPresent(acc: map<string, NStr>, fields: seq<Field>, j: nat)
    requires j < |fields| && fields[j].0 in acc
    ensures RowFrom(acc, fields) == Err(ArgumentError)
    decreases |fields|
  {
    if fields[0].0 !in acc {
      RowFromPresent(acc[fields[0].0 := ToText(fields[0].1)], fields[1..], j - 1);
    }
  }

  /** Query's rows: when no reader row repeats a column name, one dictionary
      per reader row, in reader order, mapping each column name to null for a
      database NULL and to the value's text otherwise. */
  lemma {:induction false} RowsFromDistinct(acc: seq<map<string, NStr>>, reader: seq<ReaderRow>)
    requires forall i :: 0 <= i < |reader| ==> DistinctNames(reader[i])
    ensures RowsFrom(acc, reader).Ok?
    ensures |RowsFrom(acc, reader).value| == |acc| + |reader|
    ensures RowsFrom(acc, reader).value[..|acc|] == acc
    ensures forall i :: 0 <= i < |reader| ==>
      RowsFrom(acc, reader).value[|acc| + i].Keys == ColumnNames(reader[i])
    ensures forall i, k :: 0 <= i < |reader| && 0 <= k < |reader[i]| ==>
      && reader[i][k].0 in RowsFrom(acc, reader).value[|acc| + i]
      && RowsFrom(acc, reader).value[|acc| + i][reader[i][k].0] == ToText(reader[i][k].1)
    decreases |reader|
  {
    if reader != [] {
      RowFromDistinct(map[], reader[0]);
      var row := RowFrom(map[], reader[0]).value;
      assert forall i :: 0 <= i < |reader[1..]| ==> reader[1..][i] == reader[i + 1];
      RowsFromDistinct(acc + [row], reader[1..]);
      var v := RowsFrom(acc + [row], reader[1..]).value;
      assert RowsFrom(acc, reader) == Ok(v);
      assert v[..|acc| + 1] == acc + [row];
      assert v[..|acc|] == (acc + [row])[..|acc|];
      forall i | 0 <= i < |reader|
        ensures v[|acc| + i].Keys == ColumnNames(reader[i])
        ensures forall k :: 0 <= k < |reader[i]| ==>
          reader[i][k].0 in v[|acc| + i] && v[|acc| + i][reader[i][k].0] == ToText(reader[i][k].1)
      {
        if i == 0 {
          assert v[|acc|] == (acc + [row])[|acc|];
        } else {
          assert reader[1..][i - 1] == reader[i];
          assert |acc + [row]| + (i - 1) == |acc| + i;
        }
      }
    }
  }

  /** Query fails with the dictionary's exception exactly when some reader row
      repeats a column name. */
  lemma RenderedFailsOnDuplicate(reader: seq<ReaderRow>)
    ensures Rendered(reader).Err? <==> exists i :: 0 <= i < |reader| && !DistinctNames(reader[i])
    ensures Rendered(reader).Err? ==> Rendered(reader).error == ArgumentError
  {
    if forall i :: 0 <= i < |reader| ==> DistinctNames(reader[i]) {
      RowsFromDistinct([], reader);
    } else {
      var i :| 0 <= i < |reader| && !DistinctNames(reader[i]);
      RowsFromFirstDuplicate([], reader, i);
    }
  }

  /** No query the accessors send makes Query raise the dictionary's
      duplicate-key exception: every statement's rows render. */
  lemma QueriesRender(t: Tables, q: Read, p: Params)
    requires Select(t, q, p).Ok?
    ensures Rendered(Select(t, q, p).value).Ok?
    ensures |Rendered(Select(t, q, p).value).value| == |Select(t, q, p).value|
  {
    SelectWellFormed(t, q, p);
    RowsFromDistinct([], Select(t, q, p).value);
  }

  /** QueryValue of a one-column text query, read back with `as string`: the
      first row's value, null for a NULL, and null when nothing matches. */
  lemma ScalarOfColumn<T>(xs: seq<T>, name: string, f: T -> NStr)
    ensures AsString(Scalar(Map(xs, (x: T) => Column(name, f(x))))) == if xs == [] then None else f(xs[0])
  {
  }

  /** Query over rows that all share one layout with distinct column names:
      one dictionary per stored row, each column mapped to its text. */
  lemma RenderedRecords<T>(xs: seq<T>, record: T -> ReaderRow)
    requires forall i :: 0 <= i < |xs| ==> DistinctNames(record(xs[i]))
    ensures Rendered(Map(xs, record)).Ok?
    ensures |Rendered(Map(xs, record)).value| == |xs|
    ensures forall i, k :: 0 <= i < |xs| && 0 <= k < |record(xs[i])| ==>
      && record(xs[i])[k].0 in Rendered(Map(xs, record)).value[i]
      && Rendered(Map(xs, record)).value[i][record(xs[i])[k].0] == ToText(record(xs[i])[k].1)
  {
    var reader := Map(xs, record);
    RowsFromDistinct([], reader);
  }

  lemma {:induction false} RowsFromFirstDuplicate(acc: seq<map<string, NStr>>, reader: seq<ReaderRow>, i: nat)
    requires i < |reader| && !DistinctNames(reader[i])
    ensures RowsFrom(acc, reader) == Err(ArgumentError)
    decreases |reader|
  {
    if DistinctNames(reader[0]) {
      RowFromDistinct(map[], reader[0]);
      assert i > 0 && reader[1..][i - 1] == reader[i];
      RowsFromFirstDuplicate(acc + [RowFrom(map[], reader[0]).value], reader[1..], i - 1);
    } else {
      var a, b :| 0 <= a < b < |reader[0]| && reader[0][a].0 == reader[0][b].0;
      RowFromDuplicate(map[], reader[0], a, b);
    }
  }

  class Database {
    var conn: Conn
    var tables: Tables
    /** The number of `Open` calls made so far. */
    var calls: nat
    /** The number of times the connection handle has been released. */
    ghost var releases: nat
    const opener: nat -> OpenOutcome

    /** A wrapper over a closed connection and a database in state `initial`. */
    constructor (initial: Tables, opener: nat -> OpenOutcome)
      ensures conn == Closed && tables == initial && calls == 0 && releases == 0
      ensures this.opener == opener
    {
      conn := Closed;
      tables := initial;
      calls := 0;
      releases := 0;
      this.opener := opener;
    }

    /** How the connection phase of the current operation went. */
    twostate function Opening(): Connect
      reads this
    {
      ConnectFor(old(conn), old(calls), opener)
    }

    /** One operation ran under the wrapper's discipline: the open loop made
        the calls `Opening` says, and the connection is closed again (or still
        disposed), whatever the outcome. */
    twostate predicate Session()
      reads this
    {
      && calls == Opening().calls
      && conn == (if old(conn) == Disposed then Disposed else Closed)
      && releases == old(releases)
    }

    /** How the connection phase of a second statement went, when one
        operation runs two: the first left the connection closed (or still
        disposed) after the calls `Opening` says. */
    twostate function Reopening(): Connect
      reads this
    {
      ConnectFor(if old(conn) == Disposed then Disposed else Closed, Opening().calls, opener)
    }

    /** Two statements ran under the wrapper's discipline, one after the other. */
    twostate predicate TwoSessions()
      reads this
    {
      && calls == Reopening().calls
      && conn == (if old(conn) == Disposed then Disposed else Closed)
      && releases == old(releases)
    }

    method OpenConnection() returns (r: Result<()>)
      modifies this`conn, this`calls
      ensures old(conn) == Disposed ==> r == Err(NullReference) && conn == Disposed && calls == old(calls)
      ensures old(conn) == Open ==> r == Ok(()) && conn == Open && calls == old(calls)
      ensures old(conn) == Closed ==>
        var e := OpenLoop(opener, old(calls), 10);
        && calls == e.calls
        && (conn == Open <==> e.Reached?)
        && conn != Disposed
        && (r.Err? <==> e.Raised?)
        && (r.Err? ==> r.error == StorageFailure)
    {
      if conn == Disposed {
        return Err(NullReference);
      }
      var retries := 10;
      if conn == Open {
        return Ok(());
      }
      while retries >= 0 && conn != Open
        invariant -1 <= retries <= 10
        invariant conn != Disposed
        invariant conn == Closed ==> OpenLoop(opener, old(calls), 10) == OpenLoop(opener, calls, retries)
        invariant conn == Open ==> OpenLoop(opener, old(calls), 10) == Reached(calls)
        decreases retries + 1
      {
        var outcome := opener(calls);
        calls := calls + 1;
        match outcome {
          case Throws => return Err(StorageFailure);
          case Opens => conn := Open;
          case StaysShut =>
        }
        retries := retries - 1;
      }
      r := Ok(());
    }

    /** `CloseConnection`: close the handle if it is open. */
    method CloseConnection() returns (r: Result<()>)
      modifies this`conn
      ensures old(conn) == Disposed ==> r == Err(NullReference) && conn == Disposed
      ensures old(conn) != Disposed ==> r == Ok(()) && conn == Closed
    {
      if conn == Disposed {
        return Err(NullReference);
      }
      if conn == Open {
        conn := Closed;
      }
      r := Ok(());
    }

    method Execute(commandText: string, statement: Write, parameters: Option<map<string, Obj>>) returns (r: Result<int>)
      modifies this`conn, this`calls, this`tables
      ensures |commandText| == 0 ==> r == Err(ArgumentError) && unchanged(this)
      ensures |commandText| > 0 ==> Session()
      ensures |commandText| > 0 ==> (r, tables) == ExecuteOutcome(Opening(), old(tables), Apply(old(tables), statement, Bound(parameters)))
    {
      if |commandText| == 0 {
        return Err(ArgumentError);
      }
      var connected := OpenConnection();
      if connected.Err? {
        r := Err(connected.error);
      } else {
        var bound := AddParameters(parameters);
        assert bound == Bound(parameters);
        if conn != Open {
          r := Err(InvalidOperation);
        } else {
          match Apply(tables, statement, bound) {
            case Err(_) => r := Err(StorageFailure);
            case Ok(effect) =>
              tables := effect.tables;
              r := Ok(effect.count);
          }
        }
      }
      // finally { _connection.Close(); }
      if conn == Disposed {
        r := Err(NullReference);
      } else {
        conn := Closed;
      }
    }

    method QueryValue(commandText: string, statement: Read, parameters: Option<map<string, Obj>>) returns (r: Result<Option<Value>>)
      modifies this`conn, this`calls
      ensures |commandText| == 0 ==> r == Err(ArgumentError) && unchanged(this)
      ensures |commandText| > 0 ==> Session()
      ensures |commandText| > 0 ==> r == QueryValueOutcome(Opening(), Select(tables, statement, Bound(parameters)))
    {
      if |commandText| == 0 {
        return Err(ArgumentError);
      }
      var connected := OpenConnection();
      if connected.Err? {
        r := Err(connected.error);
      } else {
        var bound := AddParameters(parameters);
        assert bound == Bound(parameters);
        if conn != Open {
          r := Err(InvalidOperation);
        } else {
          match Select(tables, statement, bound) {
            case Err(_) => r := Err(StorageFailure);
            case Ok(reader) => r := Ok(Scalar(reader));
          }
        }
      }
      // finally { CloseConnection(); }
      var closed := CloseConnection();
      if closed.Err? {
        r := Err(closed.error);
      }
    }

    method Query(commandText: string, statement: Read, parameters: Option<map<string, Obj>>)
      returns (r: Result<seq<map<string, NStr>>>)
      modifies this`conn, this`calls
      ensures |commandText| == 0 ==> r == Err(ArgumentError) && unchanged(this)
      ensures |commandText| > 0 ==> Session()
      ensures |commandText| > 0 ==> r == QueryOutcome(Opening(), Select(tables, statement, Bound(parameters)))
    {
      if |commandText| == 0 {
        return Err(ArgumentError);
      }
      ghost var phase := ConnectFor(conn, calls, opener);
      var connected := OpenConnection();
      if connected.Err? {
        r := Err(connected.error);
      } else {
        var bound := AddParameters(parameters);
        assert bound == Bound(parameters);
        if conn != Open {
          r := Err(InvalidOperation);
        } else {
          var selected := Select(tables, statement, bound);
          if selected.Err? {
            r := Err(StorageFailure);
          } else {
            r := ReadRows(selected.value);
          }
        }
      }
      assert r == QueryOutcome(phase, Select(tables, statement, Bound(parameters)));
      // finally { CloseConnection(); }
      var closed := CloseConnection();
      if closed.Err? {
        r := Err(closed.error);
      }
    }

    method GetStrValue(commandText: string, statement: Read, parameters: Option<map<string, Obj>>) returns (r: Result<NStr>)
      modifies this`conn, this`calls
      ensures |commandText| == 0 ==> r == Err(ArgumentError) && unchanged(this)
      ensures |commandText| > 0 ==> Session()
      ensures |commandText| > 0 ==>
        var v := QueryValueOutcome(Opening(), Select(tables, statement, Bound(parameters)));
        r == if v.Ok? then Ok(AsString(v.value)) else Err(v.error)
    {
      var v := QueryValue(commandText, statement, parameters);
      r := if v.Ok? then Ok(AsString(v.value)) else Err(v.error);
    }

    /** Releases the connection handle once; later calls do nothing. */
    method Dispose()
      modifies this`conn, this`releases
      ensures conn == Disposed
      ensures releases == old(releases) + (if old(conn) == Disposed then 0 else 1)
    {
      if conn != Disposed {
        releases := releases + 1;
        conn := Disposed;
      }
    }
  }
}
