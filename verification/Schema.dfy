/** The schema built from additive migrations: tables, columns and partitions. */
module Schema {
  import opened Fields
  import opened Text
  import opened Wrappers

  datatype Table = Table(columns: map<string, string>, origin: string, parent: Option<string>)

  type Tables = map<string, Table>

  /** A statement with its keywords recognised; names are in lower case. */
  datatype Statement =
    | CreatePartition(name: string, parentName: string)
    | CreateTable(name: string, definition: string)
    | UnrecognisedCreate
    | AlterTable(name: string, actions: string)
    | UnrecognisedAlter
    | ForbiddenDdl
    | OtherStatement

  datatype Migration = Migration(name: string, statements: seq<Statement>)

  /** The regular expressions: is a field a table constraint, which column does it declare, and what
      follows ADD COLUMN in an action. */
  datatype Dialect = Dialect(isConstraint: string -> bool, column: string -> Option<(string, string)>,
                             addColumn: string -> Option<string>)

  datatype SchemaError =
    | UnsupportedCreate | DuplicateTable | UnknownParent | Unclosed | UnbalancedParentheses
    | UnsupportedColumn | DuplicateColumn | UnsupportedAlter | UnsupportedDdl | NoTables

  // ----- one statement ---------------------------------------------------------

  /** The columns declared by fields i and following, added to those already found. */
  function DeclareColumns(d: Dialect, fields: seq<string>, i: nat, columns: map<string, string>)
    : Result<map<string, string>, SchemaError>
    requires i <= |fields|
    decreases |fields| - i
  {
    if i == |fields| then Ok(columns)
    else if d.isConstraint(fields[i]) then DeclareColumns(d, fields, i + 1, columns)
    else
      var c := d.column(fields[i]);
      if c.None? then Err(UnsupportedColumn)
      else if c.value.0 in columns then Err(DuplicateColumn)
      else DeclareColumns(d, fields, i + 1, columns[c.value.0 := c.value.1])
  }

  /** The new column goes to the table and to every table whose parent it is. */
  function AddColumn(r: Tables, table: string, key: string, dtype: string): Tables {
    map t | t in r ::
      if t == table || r[t].parent == Some(table) then r[t].(columns := r[t].columns[key := dtype]) else r[t]
  }

  function AddColumns(d: Dialect, r: Tables, table: string, actions: seq<string>, i: nat): Result<Tables, SchemaError>
    requires i <= |actions|
    decreases |actions| - i
  {
    if i == |actions| then Ok(r)
    else
      var add := d.addColumn(actions[i]);
      if add.None? then Err(UnsupportedAlter)
      else
        var c := d.column(add.value);
        if c.None? then Err(UnsupportedColumn)
        else AddColumns(d, AddColumn(r, table, c.value.0, c.value.1), table, actions, i + 1)
  }

  function CreateFrom(d: Dialect, r: Tables, origin: string, name: string, definition: string)
    : Result<Tables, SchemaError>
  {
    if !("(" <= definition) then Err(UnsupportedCreate)
    else
      var end := Closing(definition, 0);
      if end.None? then Err(Unclosed)
      else
        ClosedBodySplits(definition);
        var columns :- DeclareColumns(d, Split(definition[1..end.value]).value, 0, map[]);
        Ok(r[name := Table(columns, origin, None)])
  }

  function ApplyStatement(d: Dialect, r: Tables, origin: string, s: Statement): Result<Tables, SchemaError> {
    match s
    case CreatePartition(name, parent) =>
      if name in r then Err(DuplicateTable)
      else if parent !in r then Err(UnknownParent)
      else Ok(r[name := Table(r[parent].columns, origin, Some(parent))])
    case CreateTable(name, definition) =>
      if name in r then Err(DuplicateTable) else CreateFrom(d, r, origin, name, definition)
    case UnrecognisedCreate => Err(UnsupportedCreate)
    case AlterTable(name, actions) =>
      if name !in r then Err(UnsupportedAlter)
      else
        var fields := Split(actions);
        if fields.Err? then Err(UnbalancedParentheses) else AddColumns(d, r, name, fields.value, 0)
    case UnrecognisedAlter => Err(UnsupportedAlter)
    case ForbiddenDdl => Err(UnsupportedDdl)
    case OtherStatement => Ok(r)
  }

  function ApplyStatements(d: Dialect, r: Tables, origin: string, ss: seq<Statement>): Result<Tables, SchemaError>
    decreases |ss|
  {
    if ss == [] then Ok(r)
    else
      var next :- ApplyStatement(d, r, origin, ss[0]);
      ApplyStatements(d, next, origin, ss[1..])
  }

  function ApplyMigrations(d: Dialect, r: Tables, ms: seq<Migration>): Result<Tables, SchemaError>
    decreases |ms|
  {
    if ms == [] then Ok(r)
    else
      var next :- ApplyStatements(d, r, ms[0].name, ms[0].statements);
      ApplyMigrations(d, next, ms[1..])
  }

  // ----- the code ----------------------------------------------------------------

  method DeclareAll(d: Dialect, fields: seq<string>) returns (r: Result<map<string, string>, SchemaError>)
    ensures r == DeclareColumns(d, fields, 0, map[])
  {
    var columns: map<string, string> := map[];
    for i := 0 to |fields|
      invariant DeclareColumns(d, fields, 0, map[]) == DeclareColumns(d, fields, i, columns)
    {
      if !d.isConstraint(fields[i]) {
        var c := d.column(fields[i]);
        if c.None? { return Err(UnsupportedColumn); }
        if c.value.0 in columns { return Err(DuplicateColumn); }
        columns := columns[c.value.0 := c.value.1];
      }
    }
    r := Ok(columns);
  }

  method Alter(d: Dialect, tables: Tables, table: string, actions: string) returns (r: Result<Tables, SchemaError>)
    requires table in tables
    ensures r == ApplyStatement(d, tables, "", AlterTable(table, actions))
  {
    var fields := SplitFields(actions);
    if fields.Err? { return Err(UnbalancedParentheses); }
    var result := tables;
    for i := 0 to |fields.value|
      invariant AddColumns(d, tables, table, fields.value, 0) == AddColumns(d, result, table, fields.value, i)
    {
      var add := d.addColumn(fields.value[i]);
      if add.None? { return Err(UnsupportedAlter); }
      var c := d.column(add.value);
      if c.None? { return Err(UnsupportedColumn); }
      result := AddColumn(result, table, c.value.0, c.value.1);
    }
    r := Ok(result);
  }

  /** One pass of the inner loop. */
  method ApplyOne(d: Dialect, tables: Tables, origin: string, s: Statement) returns (r: Result<Tables, SchemaError>)
    ensures r == ApplyStatement(d, tables, origin, s)
  {
    match s
    case CreatePartition(name, parent) =>
      if name in tables { return Err(DuplicateTable); }
      if parent !in tables { return Err(UnknownParent); }
      r := Ok(tables[name := Table(tables[parent].columns, origin, Some(parent))]);
    case CreateTable(name, definition) =>
      if name in tables { return Err(DuplicateTable); }
      if !("(" <= definition) { return Err(UnsupportedCreate); }
      var end := FindClosing(definition);
      if end.None? { return Err(Unclosed); }
      ClosedBodySplits(definition);
      var fields := SplitFields(definition[1..end.value]);
      var columns := DeclareAll(d, fields.value);
      if columns.Err? { return Err(columns.error); }
      r := Ok(tables[name := Table(columns.value, origin, None)]);
    case AlterTable(name, actions) =>
      if name !in tables { return Err(UnsupportedAlter); }
      r := Alter(d, tables, name, actions);
    case UnrecognisedCreate => r := Err(UnsupportedCreate);
    case UnrecognisedAlter => r := Err(UnsupportedAlter);
    case ForbiddenDdl => r := Err(UnsupportedDdl);
    case OtherStatement => r := Ok(tables);
  }

  method BuildSchema(d: Dialect, migrations: seq<Migration>) returns (r: Result<Tables, SchemaError>)
    ensures var all := ApplyMigrations(d, map[], migrations);
            r == if all.Ok? && all.value == map[] then Err(NoTables) else all
  {
    var result: Tables := map[];
    for m := 0 to |migrations|
      invariant ApplyMigrations(d, map[], migrations) == ApplyMigrations(d, result, migrations[m..])
    {
      var migration := migrations[m];
      assert migrations[m..][1..] == migrations[m + 1..];
      ghost var before := result;
      for i := 0 to |migration.statements|
        invariant ApplyStatements(d, before, migration.name, migration.statements) ==
                  ApplyStatements(d, result, migration.name, migration.statements[i..])
      {
        assert migration.statements[i..][1..] == migration.statements[i + 1..];
        var next := ApplyOne(d, result, migration.name, migration.statements[i]);
        if next.Err? { return Err(next.error); }
        result := next.value;
      }
    }
    if result == map[] { return Err(NoTables); }
    r := Ok(result);
  }

  // ----- what one statement does -----------------------------------------------------

  /** Every action adds a column that can be read. */
  predicate Readable(d: Dialect, action: string) {
    d.addColumn(action).Some? && d.column(d.addColumn(action).value).Some?
  }

  /** The columns of the actions from i on; a later one of the same name wins. */
  function AddedFrom(d: Dialect, actions: seq<string>, i: nat): map<string, string>
    requires i <= |actions| && forall a | a in actions :: Readable(d, a)
    decreases |actions| - i
  {
    if i == |actions| then map[]
    else
      assert Readable(d, actions[i]);
      var c := d.column(d.addColumn(actions[i]).value).value;
      map[c.0 := c.1] + AddedFrom(d, actions, i + 1)
  }

  lemma {:induction false} ActionsAccepted(d: Dialect, r: Tables, table: string, actions: seq<string>, i: nat)
    requires i <= |actions|
    ensures AddColumns(d, r, table, actions, i).Ok? <==> forall j | i <= j < |actions| :: Readable(d, actions[j])
    decreases |actions| - i
  {
    if i < |actions| && Readable(d, actions[i]) {
      var c := d.column(d.addColumn(actions[i]).value).value;
      ActionsAccepted(d, AddColumn(r, table, c.0, c.1), table, actions, i + 1);
    }
  }

  lemma AddColumnAt(r: Tables, table: string, key: string, dtype: string, t: string)
    requires t in r
    ensures AddColumn(r, table, key, dtype).Keys == r.Keys
    ensures AddColumn(r, table, key, dtype)[t] ==
            if t == table || r[t].parent == Some(table) then r[t].(columns := r[t].columns[key := dtype]) else r[t]
  {
  }

  lemma LaterWins(m: map<string, string>, key: string, dtype: string, rest: map<string, string>)
    ensures m[key := dtype] + rest == m + (map[key := dtype] + rest)
    ensures m + map[] == m
  {
  }

  /** An alteration adds all its columns to the table and to the tables whose parent it is, and leaves every
      other table as it was. */
  lemma {:induction false} AlterationEffect(d: Dialect, r: Tables, table: string, actions: seq<string>, i: nat, t: string)
    requires i <= |actions| && (forall a | a in actions :: Readable(d, a)) && t in r
    ensures AddColumns(d, r, table, actions, i).Ok?
    ensures var s := AddColumns(d, r, table, actions, i).value;
            s.Keys == r.Keys &&
            s[t] == if t == table || r[t].parent == Some(table)
                    then r[t].(columns := r[t].columns + AddedFrom(d, actions, i)) else r[t]
    decreases |actions| - i
  {
    hide AddColumn;
    if i < |actions| {
      assert Readable(d, actions[i]);
      var c := d.column(d.addColumn(actions[i]).value).value;
      AddColumnAt(r, table, c.0, c.1, t);
      AlterationEffect(d, AddColumn(r, table, c.0, c.1), table, actions, i + 1, t);
      LaterWins(r[t].columns, c.0, c.1, AddedFrom(d, actions, i + 1));
    } else {
      LaterWins(r[t].columns, "", "", map[]);
    }
  }

  /** The field declares the column k of that type. */
  predicate Declares(d: Dialect, field: string, k: string, dtype: string) {
    !d.isConstraint(field) && d.column(field) == Some((k, dtype))
  }

  /** Which columns a body declares: those of its fields that are no constraints, all readable, none twice. */
  lemma {:induction false} DeclaredAre(d: Dialect, fields: seq<string>, i: nat, columns: map<string, string>, k: string)
    requires i <= |fields| && DeclareColumns(d, fields, i, columns).Ok?
    ensures var m := DeclareColumns(d, fields, i, columns).value;
            (k in columns ==> k in m && m[k] == columns[k]) &&
            (k in m && k !in columns ==> exists j :: i <= j < |fields| && Declares(d, fields[j], k, m[k])) &&
            (forall j | i <= j < |fields| && !d.isConstraint(fields[j]) ::
              d.column(fields[j]).Some? && (d.column(fields[j]).value.0 == k ==>
                k in m && k !in columns && Declares(d, fields[j], k, m[k])))
    decreases |fields| - i
  {
    if i < |fields| {
      if d.isConstraint(fields[i]) {
        DeclaredAre(d, fields, i + 1, columns, k);
      } else {
        var c := d.column(fields[i]).value;
        var m := DeclareColumns(d, fields, i, columns).value;
        DeclaredAre(d, fields, i + 1, columns[c.0 := c.1], k);
        if k == c.0 {
          assert Declares(d, fields[i], k, m[k]);
        }
      }
    }
  }

  /** A table is made from the body between its parentheses, whatever follows, and is nobody's partition. */
  lemma TableFromBody(d: Dialect, r: Tables, origin: string, name: string, body: string, rest: string)
    requires Balanced(body) && name !in r
    ensures Split(body).Ok?
    ensures ApplyStatement(d, r, origin, CreateTable(name, "(" + body + ")" + rest)) ==
            var c := DeclareColumns(d, Split(body).value, 0, map[]);
            if c.Err? then Err(c.error) else Ok(r[name := Table(c.value, origin, None)])
  {
    ClosingFindsBody(body, rest);
    var definition := "(" + body + ")" + rest;
    assert definition[1..|body| + 1] == body;
    hide Split, Closing, Balanced;
  }

  /** A partition starts with its parent's columns, types included. */
  lemma PartitionStartsEqual(d: Dialect, r: Tables, origin: string, name: string, parent: string)
    ensures var s := ApplyStatement(d, r, origin, CreatePartition(name, parent));
            (s.Ok? <==> name !in r && parent in r) &&
            (s.Ok? ==> s.value == r[name := Table(r[parent].columns, origin, Some(parent))])
  {
  }

  /** Statements of a kind that is not supported are never accepted. */
  predicate Supported(s: Statement) {
    !s.UnrecognisedCreate? && !s.UnrecognisedAlter? && !s.ForbiddenDdl?
  }

  /** Accepted statements are all supported, and every table they make has their migration as its origin. */
  lemma {:induction false} AcceptedStatements(d: Dialect, r: Tables, origin: string, ss: seq<Statement>)
    requires ApplyStatements(d, r, origin, ss).Ok?
    ensures forall s | s in ss :: Supported(s)
    ensures forall t | t in ApplyStatements(d, r, origin, ss).value && t !in r ::
              ApplyStatements(d, r, origin, ss).value[t].origin == origin
    decreases |ss|
  {
    if ss != [] {
      var next := ApplyStatement(d, r, origin, ss[0]).value;
      assert Supported(ss[0]);
      hide ApplyStatement, Supported;
      AcceptedStatements(d, next, origin, ss[1..]);
      StatementsKeep(d, next, origin, ss[1..]);
      OneOrigin(d, r, origin, ss[0]);
      assert ss == [ss[0]] + ss[1..];
    }
  }

  lemma OneOrigin(d: Dialect, r: Tables, origin: string, s: Statement)
    requires ApplyStatement(d, r, origin, s).Ok?
    ensures forall t | t in ApplyStatement(d, r, origin, s).value && t !in r ::
              ApplyStatement(d, r, origin, s).value[t].origin == origin
  {
    if s.AlterTable? {
      KeysStay(d, r, s.name, Split(s.actions).value, 0);
    }
  }

  lemma {:induction false} KeysStay(d: Dialect, r: Tables, table: string, actions: seq<string>, i: nat)
    requires i <= |actions| && AddColumns(d, r, table, actions, i).Ok?
    ensures AddColumns(d, r, table, actions, i).value.Keys == r.Keys
    decreases |actions| - i
  {
    if i < |actions| {
      var c := d.column(d.addColumn(actions[i]).value).value;
      KeysStay(d, AddColumn(r, table, c.0, c.1), table, actions, i + 1);
    }
  }

  // ----- tables and columns only grow ------------------------------------------------

  /** Every table stays, with its origin, its parent and all its columns. */
  ghost predicate Grows(r: Tables, s: Tables) {
    r.Keys <= s.Keys &&
    forall t | t in r ::
      r[t].columns.Keys <= s[t].columns.Keys && r[t].origin == s[t].origin && r[t].parent == s[t].parent
  }

  /** Parents exist, and a partition of a table that is itself no partition has all the table's columns. */
  ghost predicate PartitionsKeepUp(r: Tables) {
    forall t | t in r && r[t].parent.Some? ::
      r[t].parent.value in r &&
      (r[r[t].parent.value].parent.None? ==> r[r[t].parent.value].columns.Keys <= r[t].columns.Keys)
  }

  lemma AddColumnKeeps(r: Tables, table: string, key: string, dtype: string)
    ensures Grows(r, AddColumn(r, table, key, dtype))
    ensures PartitionsKeepUp(r) ==> PartitionsKeepUp(AddColumn(r, table, key, dtype))
  {
  }

  lemma {:induction false} AddColumnsKeep(d: Dialect, r: Tables, table: string, actions: seq<string>, i: nat)
    requires i <= |actions| && AddColumns(d, r, table, actions, i).Ok?
    ensures Grows(r, AddColumns(d, r, table, actions, i).value)
    ensures PartitionsKeepUp(r) ==> PartitionsKeepUp(AddColumns(d, r, table, actions, i).value)
    decreases |actions| - i
  {
    if i < |actions| {
      var c := d.column(d.addColumn(actions[i]).value).value;
      AddColumnKeeps(r, table, c.0, c.1);
      AddColumnsKeep(d, AddColumn(r, table, c.0, c.1), table, actions, i + 1);
    }
  }

  lemma StatementKeeps(d: Dialect, r: Tables, origin: string, s: Statement)
    requires ApplyStatement(d, r, origin, s).Ok?
    ensures Grows(r, ApplyStatement(d, r, origin, s).value)
    ensures PartitionsKeepUp(r) ==> PartitionsKeepUp(ApplyStatement(d, r, origin, s).value)
  {
    if s.AlterTable? {
      AddColumnsKeep(d, r, s.name, Split(s.actions).value, 0);
    }
  }

  lemma GrowsTransitive(r: Tables, s: Tables, t: Tables)
    requires Grows(r, s) && Grows(s, t)
    ensures Grows(r, t)
  {
  }

  lemma {:induction false} StatementsKeep(d: Dialect, r: Tables, origin: string, ss: seq<Statement>)
    requires ApplyStatements(d, r, origin, ss).Ok?
    ensures Grows(r, ApplyStatements(d, r, origin, ss).value)
    ensures PartitionsKeepUp(r) ==> PartitionsKeepUp(ApplyStatements(d, r, origin, ss).value)
    decreases |ss|
  {
    if ss != [] {
      var next := ApplyStatement(d, r, origin, ss[0]).value;
      StatementKeeps(d, r, origin, ss[0]);
      StatementsKeep(d, next, origin, ss[1..]);
      GrowsTransitive(r, next, ApplyStatements(d, r, origin, ss).value);
    }
  }

  /** Over any accepted migrations tables and columns only grow, and partitions keep up with their parents. */
  lemma {:induction false} MigrationsKeep(d: Dialect, r: Tables, ms: seq<Migration>)
    requires ApplyMigrations(d, r, ms).Ok? && PartitionsKeepUp(r)
    ensures Grows(r, ApplyMigrations(d, r, ms).value)
    ensures PartitionsKeepUp(ApplyMigrations(d, r, ms).value)
    decreases |ms|
  {
    if ms != [] {
      var next := ApplyStatements(d, r, ms[0].name, ms[0].statements).value;
      StatementsKeep(d, r, ms[0].name, ms[0].statements);
      MigrationsKeep(d, next, ms[1..]);
      GrowsTransitive(r, next, ApplyMigrations(d, r, ms).value);
    }
  }

  // ----- partitions of partitions ------------------------------------------------------

  /** Every partition, of whatever table, has all its parent's columns. */
  ghost predicate AllPartitionsKeepUp(r: Tables) {
    forall t | t in r && r[t].parent.Some? ::
      r[t].parent.value in r && r[r[t].parent.value].columns.Keys <= r[t].columns.Keys
  }

  /** Adding a column reaches a table's partitions but not theirs: the stronger property survives
      exactly when every partition of a partition of the altered table has the column already. */
  lemma NestedPartitionsKeepUp(r: Tables, table: string, key: string, dtype: string)
    requires AllPartitionsKeepUp(r)
    ensures AllPartitionsKeepUp(AddColumn(r, table, key, dtype)) <==>
              forall t | t in r && r[t].parent.Some? && t != table && r[t].parent != Some(table) &&
                         r[r[t].parent.value].parent == Some(table) :: key in r[t].columns
  {
    var s := AddColumn(r, table, key, dtype);
    if AllPartitionsKeepUp(s) {
      forall t | t in r && r[t].parent.Some? && t != table && r[t].parent != Some(table) &&
                 r[r[t].parent.value].parent == Some(table)
        ensures key in r[t].columns
      {
        assert key in s[r[t].parent.value].columns && s[t] == r[t];
      }
    }
  }

  /** Text without parentheses or commas is one field. */
  lemma {:induction false} PlainTextIsBalanced(s: string)
    requires forall c | c in s :: c !in "(),"
    ensures Balanced(s) && NoTopComma(s, 0)
  {
    if s != "" {
      assert s[0] in s;
      PlainTextIsBalanced(s[1..]);
    }
  }

  lemma PlainTextSplits(s: string)
    requires Trimmed(s) && forall c | c in s :: c !in "(),"
    ensures Split(s) == Ok([s])
  {
    PlainTextIsBalanced(s);
    SplitUndoesJoin([s]);
  }

  const ID_FIELD := "id int"
  const NOTE_FIELD := "note text"
  const ADD_NOTE := "ADD COLUMN note text"

  /** The dialect reads the two columns and the added one as SQL does. */
  predicate ReadsNotes(d: Dialect) {
    !d.isConstraint(ID_FIELD) && d.column(ID_FIELD) == Some(("id", "int")) &&
    d.addColumn(ADD_NOTE) == Some(NOTE_FIELD) && d.column(NOTE_FIELD) == Some(("note", "text"))
  }

  const PLAIN := Table(map["id" := "int"], "1.sql", None)

  /** A table, a partition of it and a partition of that partition. */
  function Nested(): Tables {
    map["t" := PLAIN, "p" := PLAIN.(parent := Some("t")), "q" := PLAIN.(parent := Some("p"))]
  }

  const NESTED_STATEMENTS := [CreateTable("t", "(" + ID_FIELD + ")"), CreatePartition("p", "t"), CreatePartition("q", "p"),
                              AlterTable("t", ADD_NOTE)]

  lemma OneColumnTable(d: Dialect, r: Tables, name: string, field: string, key: string, dtype: string)
    requires name !in r && Balanced(field) && Split(field) == Ok([field])
    requires !d.isConstraint(field) && d.column(field) == Some((key, dtype))
    ensures ApplyStatement(d, r, "1.sql", CreateTable(name, "(" + field + ")"))
            == Ok(r[name := Table(map[key := dtype], "1.sql", None)])
  {
    ClosingFindsBody(field, "");
    hide Split, Closing, Balanced;
    var definition := "(" + field + ")";
    assert definition + "" == definition && definition[1..|field| + 1] == field;
    assert DeclareColumns(d, [field], 1, map[key := dtype]) == Ok(map[key := dtype]);
    assert DeclareColumns(d, [field], 0, map[]) == Ok(map[key := dtype]);
  }

  lemma OneAction(d: Dialect, r: Tables, table: string, action: string, field: string, key: string, dtype: string)
    requires table in r && Split(action) == Ok([action])
    requires d.addColumn(action) == Some(field) && d.column(field) == Some((key, dtype))
    ensures ApplyStatement(d, r, "1.sql", AlterTable(table, action)) == Ok(AddColumn(r, table, key, dtype))
  {
    hide Split, AddColumn;
    var after := AddColumn(r, table, key, dtype);
    assert AddColumns(d, after, table, [action], 1) == Ok(after);
  }

  lemma StatementsUnfold(d: Dialect, r: Tables, origin: string, ss: seq<Statement>, next: Tables)
    requires ss != [] && ApplyStatement(d, r, origin, ss[0]) == Ok(next)
    ensures ApplyStatements(d, r, origin, ss) == ApplyStatements(d, next, origin, ss[1..])
  {
  }

  lemma ThreeStatements(d: Dialect, r0: Tables, r1: Tables, r2: Tables, r3: Tables, a: Statement, b: Statement, c: Statement,
                        more: seq<Statement>)
    requires ApplyStatement(d, r0, "1.sql", a) == Ok(r1) && ApplyStatement(d, r1, "1.sql", b) == Ok(r2)
    requires ApplyStatement(d, r2, "1.sql", c) == Ok(r3)
    ensures ApplyStatements(d, r0, "1.sql", [a, b, c] + more) == ApplyStatements(d, r3, "1.sql", more)
  {
    hide ApplyStatement;
    StatementsUnfold(d, r0, "1.sql", [a, b, c] + more, r1);
    StatementsUnfold(d, r1, "1.sql", [b, c] + more, r2);
    StatementsUnfold(d, r2, "1.sql", [c] + more, r3);
    hide ApplyStatements;
    assert ([a, b, c] + more)[1..] == [b, c] + more && ([b, c] + more)[1..] == [c] + more && ([c] + more)[1..] == more;
  }

  lemma NestedRun(d: Dialect)
    requires ReadsNotes(d)
    ensures ApplyStatements(d, map[], "1.sql", NESTED_STATEMENTS[..3]) == Ok(Nested())
    ensures ApplyStatements(d, map[], "1.sql", NESTED_STATEMENTS) == Ok(AddColumn(Nested(), "t", "note", "text"))
  {
    var ss := NESTED_STATEMENTS;
    var after := AddColumn(Nested(), "t", "note", "text");
    NestedSteps(d);
    assert ss[..3] == [ss[0], ss[1], ss[2]] + [] && ss == [ss[0], ss[1], ss[2]] + [ss[3]];
    hide ApplyStatement, NESTED_STATEMENTS, Nested, AddColumn, ReadsNotes, PLAIN;
    var r1 := map["t" := PLAIN];
    var r2 := r1["p" := PLAIN.(parent := Some("t"))];
    ThreeStatements(d, map[], r1, r2, Nested(), ss[0], ss[1], ss[2], []);
    ThreeStatements(d, map[], r1, r2, Nested(), ss[0], ss[1], ss[2], [ss[3]]);
    StatementsUnfold(d, Nested(), "1.sql", [ss[3]], after);
    assert [ss[3]][1..] == [];
  }

  lemma FieldsArePlain()
    ensures Trimmed(ID_FIELD) && forall c | c in ID_FIELD :: c !in "(),"
    ensures Trimmed(ADD_NOTE) && forall c | c in ADD_NOTE :: c !in "(),"
  {
  }

  lemma FieldsSplit()
    ensures Balanced(ID_FIELD) && Split(ID_FIELD) == Ok([ID_FIELD]) && Split(ADD_NOTE) == Ok([ADD_NOTE])
  {
    FieldsArePlain();
    hide *;
    PlainTextIsBalanced(ID_FIELD);
    PlainTextSplits(ID_FIELD);
    PlainTextSplits(ADD_NOTE);
  }

  /** A partition as its statement makes it. */
  lemma OnePartition(d: Dialect, r: Tables, name: string, parent: string)
    requires name !in r && parent in r
    ensures ApplyStatement(d, r, "1.sql", CreatePartition(name, parent))
            == Ok(r[name := Table(r[parent].columns, "1.sql", Some(parent))])
  {
  }

  lemma NestedSteps(d: Dialect)
    requires ReadsNotes(d)
    ensures var ss := NESTED_STATEMENTS; var r1 := map["t" := PLAIN]; var r2 := r1["p" := PLAIN.(parent := Some("t"))];
            ApplyStatement(d, map[], "1.sql", ss[0]) == Ok(r1) && ApplyStatement(d, r1, "1.sql", ss[1]) == Ok(r2) &&
            ApplyStatement(d, r2, "1.sql", ss[2]) == Ok(Nested()) &&
            ApplyStatement(d, Nested(), "1.sql", ss[3]) == Ok(AddColumn(Nested(), "t", "note", "text"))
  {
    hide ApplyStatement, AddColumn, Split, Balanced, ID_FIELD, ADD_NOTE, NOTE_FIELD;
    FieldsSplit();
    var r1 := map["t" := PLAIN];
    var r2 := r1["p" := PLAIN.(parent := Some("t"))];
    assert map[]["t" := PLAIN] == r1 && r2["q" := PLAIN.(parent := Some("p"))] == Nested();
    OneColumnTable(d, map[], "t", ID_FIELD, "id", "int");
    OnePartition(d, r1, "p", "t");
    OnePartition(d, r2, "q", "p");
    OneAction(d, Nested(), "t", ADD_NOTE, NOTE_FIELD, "note", "text");
  }

  lemma NestedMisses()
    ensures AllPartitionsKeepUp(Nested()) && !AllPartitionsKeepUp(AddColumn(Nested(), "t", "note", "text"))
  {
    NestedPartitionsKeepUp(Nested(), "t", "note", "text");
    assert "note" !in Nested()["q"].columns;
  }

  lemma OneMigration(d: Dialect, m: Migration, r: Tables)
    requires ApplyStatements(d, map[], m.name, m.statements) == Ok(r)
    ensures ApplyMigrations(d, map[], [m]) == Ok(r)
  {
    assert [m][1..] == [];
    assert ApplyMigrations(d, r, []) == Ok(r);
  }

  /** One accepted migration after which a partition of a partition lacks a column of its parent: before its
      last statement, which adds a column to the outermost table, every partition has all of them. */
  lemma NestedPartitionMissesColumn(d: Dialect)
    requires ReadsNotes(d)
    ensures var before := ApplyStatements(d, map[], "1.sql", NESTED_STATEMENTS[..3]);
            before.Ok? && AllPartitionsKeepUp(before.value)
    ensures var r := ApplyMigrations(d, map[], [Migration("1.sql", NESTED_STATEMENTS)]);
            r.Ok? && !AllPartitionsKeepUp(r.value)
  {
    NestedRun(d);
    NestedMisses();
    OneMigration(d, Migration("1.sql", NESTED_STATEMENTS), AddColumn(Nested(), "t", "note", "text"));
    hide *;
  }
}
