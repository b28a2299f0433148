/** mysql-check.rb, the earlier form of the tool: the same table description
    with the suffix and the database fixed, render strings built for every
    table, a per-field comparison, and a loop that only creates the shadows
    that are missing (a changed shadow is reported, never altered). */
module MysqlCheck {
  import opened Wrappers
  import opened ShadowText
  import opened FieldHash
  import MS = MysqlShadow
  import MysqlShadowRun

  /** The shadow suffix the fixed pattern `/(.+)_shadow$/i` looks for. */
  const SHADOW_SUFFIX: string := "_shadow"

  /** The database every statement is qualified with. */
  const DATABASE_NAME: string := "enjyn_qa"

/* ---- the table description ---- */

  /** What `TableDescription.new(tableName)` of this variant knows once it has
      read `rows`: unlike the later variant, every table, shadow or not, gets
      the three render strings. */
  function Analyze(tableName: string, rows: seq<Column>): MS.TableDescription {
    var m := ShadowMatch(tableName, SHADOW_SUFFIX);
    var baseName := if m.Some? then m.value else tableName;
    var hasId := m.None? && MS.HasField(rows, MS.ID_NAME);
    var hasUpdate := m.None? && MS.HasField(rows, MS.UPDATE_NAME);
    MS.TableDescription(
      tableName, m, baseName,
      if hasId && hasUpdate then Some(baseName + SHADOW_SUFFIX) else None,
      |rows|, hasId, hasUpdate,
      Join(MS.CreateEntries(rows), ","),
      Join(MS.FieldEntries(rows), ","),
      Join(MS.NewEntries(rows), ","),
      HashOf(rows))
  }

  /** The `@desc.each_hash` block of this variant: the render strings grow
      for every table, shadow or not. */
  method ScanRows(isShadow: bool, rows: seq<Column>)
    returns (hasId: bool, hasUpdate: bool, createFields: string, fieldList: string, newList: string, fields: Hash)
    ensures hasId == (!isShadow && MS.HasField(rows, MS.ID_NAME))
    ensures hasUpdate == (!isShadow && MS.HasField(rows, MS.UPDATE_NAME))
    ensures createFields == Terminated(MS.CreateEntries(rows), ",")
    ensures fieldList == Terminated(MS.FieldEntries(rows), ",")
    ensures newList == Terminated(MS.NewEntries(rows), ",")
    ensures fields == HashOf(rows)
  {
    hasId, hasUpdate := false, false;
    createFields, fieldList, newList := "", "", "";
    fields := [];
    for i := 0 to |rows|
      invariant hasId == (!isShadow && MS.HasField(rows[..i], MS.ID_NAME))
      invariant hasUpdate == (!isShadow && MS.HasField(rows[..i], MS.UPDATE_NAME))
      invariant createFields == Terminated(MS.CreateEntries(rows[..i]), ",")
      invariant fieldList == Terminated(MS.FieldEntries(rows[..i]), ",")
      invariant newList == Terminated(MS.NewEntries(rows[..i]), ",")
      invariant fields == HashOf(rows[..i])
    {
      var info := rows[i];
      if !isShadow {
        hasId, hasUpdate := MS.NoteKeyField(info.name, hasId, hasUpdate);
      }
      var createEntry, fieldEntry, newEntry := " " + info.name + " " + info.ctype, " " + info.name, " new." + info.name;
      createFields := createFields + createEntry + ",";
      fieldList := fieldList + fieldEntry + ",";
      newList := newList + newEntry + ",";
      fields := Put(fields, info.name, info.ctype);
      MS.ScanStep(rows, i);
    }
    assert rows[..|rows|] == rows;
  }

  /** `TableDescription#initialize` of this variant: the same steps as the
      later one, but with an unconditional `chop!` of each string (which
      leaves an empty string empty). */
  method Describe(tableName: string, rows: seq<Column>) returns (d: MS.TableDescription)
    requires IsSingleLine(tableName)
    ensures d == Analyze(tableName, rows)
  {
    var shadowMatch := ShadowMatch(tableName, SHADOW_SUFFIX);
    var baseName := if shadowMatch.Some? then shadowMatch.value else tableName;
    var hasId, hasUpdate, createFields, fieldList, newList, fields := ScanRows(shadowMatch.Some?, rows);
    ChopTerminated(MS.CreateEntries(rows), ',');
    ChopTerminated(MS.FieldEntries(rows), ',');
    ChopTerminated(MS.NewEntries(rows), ',');
    createFields := Chop(createFields);
    fieldList := Chop(fieldList);
    newList := Chop(newList);
    var shadowName := if hasId && hasUpdate then Some(baseName + SHADOW_SUFFIX) else None;
    d := MS.TableDescription(tableName, shadowMatch, baseName, shadowName, |rows|,
                             hasId, hasUpdate, createFields, fieldList, newList, fields);
  }

  /** Only a table that is not a shadow records its key fields, so no
      shadow is ever eligible; the shadow name is the base name followed by
      "_shadow" exactly when the table is eligible. */
  lemma CheckShadowName(tableName: string, rows: seq<Column>)
    ensures var d := Analyze(tableName, rows);
      && (d.IsShadow() ==> !d.CanShadow())
      && (d.CanShadow() <==> !d.IsShadow() && MS.ID_NAME in ToMap(d.fields) && MS.UPDATE_NAME in ToMap(d.fields))
      && d.shadowName == if d.CanShadow() then Some(d.baseName + SHADOW_SUFFIX) else None
  {
    MS.HasFieldIffNamed(rows, MS.ID_NAME);
    MS.HasFieldIffNamed(rows, MS.UPDATE_NAME);
  }

  /** With the later variant's default suffix, the two variants describe a
      base table identically; a shadow table differs only in the render
      strings, which the later variant leaves empty. */
  lemma VariantsAgree(tableName: string, rows: seq<Column>)
    ensures var d := Analyze(tableName, rows);
      var later := MS.Analyze(MS.SHADOW_SUFFIX, tableName, rows);
      && (!d.IsShadow() ==> d == later)
      && (d.IsShadow() ==> d.(createFields := "", fieldList := "", newList := "") == later)
  {
  }

  /** `@fields.fetch(name, nil)` */
  function Fetch(h: Hash, name: string): (t: Option<string>)
    ensures t.Some? <==> name in ToMap(h)
    ensures t.Some? ==> t.value == ToMap(h)[name]
  {
    if h == [] then None
    else
      var n := |h|;
      var init: Hash := h[..n - 1];
      if h[n - 1].name == name then Some(h[n - 1].ctype) else Fetch(init, name)
  }

  /** `same_field(name, type)`: the table has a field `name` of exactly that
      type, and a nil type matches exactly a missing field. */
  function SameField(d: MS.TableDescription, name: string, t: Option<string>): (b: bool)
    ensures b <==> if t.Some? then name in ToMap(d.fields) && ToMap(d.fields)[name] == t.value
                   else name !in ToMap(d.fields)
  {
    Fetch(d.fields, name) == t
  }

  /** `check_unchanged(shadow)`, Ruby's `Hash#eql?` on the field hashes, holds
      exactly when every name has the same type, or the same absence, in
      both tables. */
  lemma CheckUnchangedIffSameFields(d: MS.TableDescription, shadow: MS.TableDescription)
    ensures MS.Unchanged(d, shadow) ==> forall name :: SameField(d, name, Fetch(shadow.fields, name))
    ensures (forall name :: SameField(d, name, Fetch(shadow.fields, name))) ==> MS.Unchanged(d, shadow)
  {
    var a, b := ToMap(d.fields), ToMap(shadow.fields);
    if forall name :: SameField(d, name, Fetch(shadow.fields, name)) {
      forall k ensures (k in a <==> k in b) && (k in a ==> a[k] == b[k]) {
        assert SameField(d, k, Fetch(shadow.fields, k));
      }
      assert a == b;
    }
    if a == b {
      forall name ensures SameField(d, name, Fetch(shadow.fields, name)) {
        var t, u := Fetch(d.fields, name), Fetch(shadow.fields, name);
        assert t.Some? <==> u.Some?;
        if t.Some? {
          assert t.value == u.value;
        }
      }
    }
  }

/* ---- the statements of the create path ---- */

  function CreateStatement(d: MS.TableDescription): string {
    "CREATE TABLE " + DATABASE_NAME + "." + MS.ShadowNameText(d) + " (" + d.createFields + " )"
  }

  /** For an eligible table this variant creates `<table>_shadow` in its
      fixed database, with the described columns and types, in order. */
  lemma CreateStatementText(tableName: string, rows: seq<Column>)
    requires Analyze(tableName, rows).CanShadow()
    ensures CreateStatement(Analyze(tableName, rows)) ==
      "CREATE TABLE " + DATABASE_NAME + "." + (tableName + SHADOW_SUFFIX) + " (" + Join(MS.CreateEntries(rows), ",") + " )"
  {
    var d := Analyze(tableName, rows);
    assert MS.ShadowNameText(d) == tableName + SHADOW_SUFFIX;
  }

  /** The inline insert trigger is the later variant's insert trigger for
      the same database. */
  function InsertStatement(d: MS.TableDescription): (r: string)
    ensures r == MS.InsertTriggerSql(DATABASE_NAME, d)
  {
    assert "_insert " == "_" + "insert" + " " && "AFTER INSERT ON " == "AFTER " + "INSERT" + " ON ";
    UpcaseEvents();
    TriggerTextMatches(d, "insert", "INSERT");
    "CREATE TRIGGER " + DATABASE_NAME + "." + d.baseName + "_insert "
    + "AFTER INSERT ON " + DATABASE_NAME + "." + d.baseName + " FOR EACH ROW "
    + "INSERT INTO " + DATABASE_NAME + "." + MS.ShadowNameText(d) + " ("
    + d.fieldList + " ) VALUES ("
    + d.newList + " )"
  }

  /** The inline update trigger is the later variant's update trigger for
      the same database. */
  function UpdateStatement(d: MS.TableDescription): (r: string)
    ensures r == MS.UpdateTriggerSql(DATABASE_NAME, d)
  {
    assert "_update " == "_" + "update" + " " && "AFTER UPDATE ON " == "AFTER " + "UPDATE" + " ON ";
    UpcaseEvents();
    TriggerTextMatches(d, "update", "UPDATE");
    "CREATE TRIGGER " + DATABASE_NAME + "." + d.baseName + "_update "
    + "AFTER UPDATE ON " + DATABASE_NAME + "." + d.baseName + " FOR EACH ROW "
    + "INSERT INTO " + DATABASE_NAME + "." + MS.ShadowNameText(d) + " ("
    + d.fieldList + " ) VALUES ("
    + d.newList + " )"
  }

  lemma UpcaseEvents()
    ensures Upcase("insert") == "INSERT" && Upcase("update") == "UPDATE"
  {
  }

  /** The statement text built inline for `event` equals the later
      variant's trigger renderer. */
  lemma TriggerTextMatches(d: MS.TableDescription, event: string, upper: string)
    requires Upcase(event) == upper
    ensures "CREATE TRIGGER " + DATABASE_NAME + "." + d.baseName + ("_" + event + " ")
            + ("AFTER " + upper + " ON ") + DATABASE_NAME + "." + d.baseName + " FOR EACH ROW "
            + "INSERT INTO " + DATABASE_NAME + "." + MS.ShadowNameText(d) + " ("
            + d.fieldList + " ) VALUES ("
            + d.newList + " )"
         == MS.TriggerBody(DATABASE_NAME, d, event)
  {
    var db, base := DATABASE_NAME, d.baseName;
    var tn := MS.TriggerName(db, d, event);
    var c := "CREATE TRIGGER ";
    assert c + tn + " " == c + db + "." + base + ("_" + event + " ") by {
      assert tn == db + "." + base + "_" + event;
      AppendAssoc(c, db + "." + base + "_" + event, " ");
      AppendAssoc(c, db + "." + base, "_" + event + " ");
      AppendAssoc(c, db + ".", base);
      AppendAssoc(c, db, ".");
    }
    var x := c + tn + " ";
    assert x + "AFTER " + Upcase(event) + " ON " == x + ("AFTER " + upper + " ON ");
  }

/* ---- the main program ---- */

  /** The connection: `$dbh.query` submits each statement as it comes; the
      first one the server rejects raises `Mysql::Error`, which the program
      rescues by logging it and ending, so nothing after it reaches the
      server.  The statements are not logged in this variant. */
  class Connection {
    const rejectAt: Option<nat>
    var submitted: seq<string>
    var failed: bool
    /** Every statement the program passed to `$dbh.query`. */
    ghost var issued: seq<string>

    ghost predicate Valid()
      reads this
    {
      var t := MysqlShadowRun.Effect(false, rejectAt, issued);
      submitted == t.submitted && failed == t.failed
    }

    constructor (rejectAt: Option<nat>)
      ensures Valid() && issued == [] && this.rejectAt == rejectAt
    {
      this.rejectAt := rejectAt;
      submitted, failed := [], false;
      issued := [];
    }

    method Query(statement: string)
      requires Valid()
      modifies this
      ensures Valid() && issued == old(issued) + [statement]
    {
      issued := issued + [statement];
      if !failed {
        failed := rejectAt == Some(|submitted|);
        submitted := submitted + [statement];
      }
    }
  }

  /** The statements one pass of the loop issues for `d`: the CREATE TABLE
      and the two CREATE TRIGGER statements when the table can be shadowed
      and no table is named exactly like its shadow, none otherwise (an
      existing shadow that differs is only reported). */
  function TableStatements(registry: seq<MS.TableDescription>, d: MS.TableDescription): seq<string> {
    if d.CanShadow() && MS.FindByName(registry, d.shadowName).None?
    then [CreateStatement(d), InsertStatement(d), UpdateStatement(d)]
    else []
  }

  function PlanOf(registry: seq<MS.TableDescription>, ds: seq<MS.TableDescription>): seq<string> {
    if ds == [] then []
    else PlanOf(registry, ds[..|ds| - 1]) + TableStatements(registry, ds[|ds| - 1])
  }

  function Plan(registry: seq<MS.TableDescription>): seq<string> {
    PlanOf(registry, registry)
  }

  lemma AppendThree<T>(s: seq<T>, a: T, b: T, c: T)
    ensures s + [a] + [b] + [c] == s + [a, b, c]
  {
  }

  /** One pass of the loop, for the description `tabDesc`. */
  method CreateMissingShadow(conn: Connection, registry: seq<MS.TableDescription>, tabDesc: MS.TableDescription)
    requires conn.Valid()
    modifies conn
    ensures conn.Valid() && conn.issued == old(conn.issued) + TableStatements(registry, tabDesc)
  {
    if tabDesc.CanShadow() {
      var ixSh := MS.FindByName(registry, tabDesc.shadowName);
      if ixSh.None? {
        var create, insert, update := CreateStatement(tabDesc), InsertStatement(tabDesc), UpdateStatement(tabDesc);
        ghost var before := conn.issued;
        conn.Query(create);
        conn.Query(insert);
        conn.Query(update);
        AppendThree(before, create, insert, update);
      }
    }
  }

  /** The loop over the registry, in order. */
  method CreateMissingShadows(conn: Connection, registry: seq<MS.TableDescription>)
    requires conn.Valid()
    modifies conn
    ensures conn.Valid() && conn.issued == old(conn.issued) + Plan(registry)
  {
    for i := 0 to |registry|
      invariant conn.Valid()
      invariant conn.issued == old(conn.issued) + PlanOf(registry, registry[..i])
    {
      CreateMissingShadow(conn, registry, registry[i]);
      ghost var visited := registry[..i + 1];
      assert visited[..|visited| - 1] == registry[..i] && visited[|visited| - 1] == registry[i];
      assert PlanOf(registry, visited) == PlanOf(registry, registry[..i]) + TableStatements(registry, registry[i]);
      AppendAssoc(old(conn.issued), PlanOf(registry, registry[..i]), TableStatements(registry, registry[i]));
    }
    assert registry[..|registry|] == registry;
  }

  /** The descriptions of the listed tables, in list order. */
  function Registry(names: seq<string>, catalog: map<string, seq<Column>>): seq<MS.TableDescription>
    requires MysqlShadowRun.AllDescribed(names, catalog)
  {
    if names == [] then []
    else
      var n := |names|;
      Registry(names[..n - 1], catalog) + [Analyze(names[n - 1], catalog[names[n - 1]])]
  }

  /** Describing one more listed table extends the registry by its
      description. */
  lemma RegistryStep(names: seq<string>, catalog: map<string, seq<Column>>, i: nat)
    requires i < |names| && MysqlShadowRun.AllDescribed(names[..i], catalog) && names[i] in catalog
    ensures MysqlShadowRun.AllDescribed(names[..i + 1], catalog)
    ensures Registry(names[..i + 1], catalog) == Registry(names[..i], catalog) + [Analyze(names[i], catalog[names[i]])]
  {
    var listed := names[..i + 1];
    assert listed[..i] == names[..i] && listed[i] == names[i];
    forall j | 0 <= j <= i ensures listed[j] in catalog {
      if j < i {
        assert listed[j] == names[..i][j];
      }
    }
  }

  /** `tablist.each { |table| $tables << TableDescription.new(table) }`; a
      DESCRIBE the server refuses raises and ends the program before any
      statement is issued. */
  method BuildRegistry(names: seq<string>, catalog: map<string, seq<Column>>)
    returns (registry: Option<seq<MS.TableDescription>>)
    requires forall i :: 0 <= i < |names| ==> IsSingleLine(names[i])
    ensures registry.Some? <==> MysqlShadowRun.AllDescribed(names, catalog)
    ensures registry.Some? ==> registry.value == Registry(names, catalog)
  {
    var tables: seq<MS.TableDescription> := [];
    for i := 0 to |names|
      invariant MysqlShadowRun.AllDescribed(names[..i], catalog)
      invariant tables == Registry(names[..i], catalog)
    {
      if names[i] !in catalog {
        return None;
      }
      var d := Describe(names[i], catalog[names[i]]);
      RegistryStep(names, catalog, i);
      tables := tables + [d];
    }
    assert names[..|names|] == names;
    return Some(tables);
  }

  /** One run of the program. */
  method Run(names: seq<string>, catalog: map<string, seq<Column>>, rejectAt: Option<nat>)
    returns (conn: Connection)
    requires forall i :: 0 <= i < |names| ==> IsSingleLine(names[i])
    ensures fresh(conn) && conn.Valid() && conn.rejectAt == rejectAt
    ensures conn.issued == if MysqlShadowRun.AllDescribed(names, catalog)
                           then Plan(Registry(names, catalog))
                           else []
  {
    conn := new Connection(rejectAt);
    var registry := BuildRegistry(names, catalog);
    if registry.Some? {
      CreateMissingShadows(conn, registry.value);
    }
  }

/* ---- properties of the loop ---- */

  /** Table by table, this loop issues what the later variant issues on
      its create path, less the two DROP TRIGGER statements, and nothing
      where the later variant would alter an existing shadow. */
  lemma EarlierLoopIsLaterCreatePath(registry: seq<MS.TableDescription>, d: MS.TableDescription)
    ensures var later := MysqlShadowRun.TableStatements(MS.Options(DATABASE_NAME, MS.SHADOW_SUFFIX, false), registry, d);
      && (d.CanShadow() && MS.FindByName(registry, d.shadowName).None? ==>
            |later| == 5 && TableStatements(registry, d) == [later[0], later[2], later[4]])
      && (MS.FindByName(registry, d.shadowName).Some? ==> TableStatements(registry, d) == [])
  {
    if d.CanShadow() && MS.FindByName(registry, d.shadowName).None? {
      var opts := MS.Options(DATABASE_NAME, MS.SHADOW_SUFFIX, false);
      var later := MysqlShadowRun.TableStatements(opts, registry, d);
      assert later == [MS.CreateTableSql(DATABASE_NAME, d)] + MysqlShadowRun.TriggerStatements(DATABASE_NAME, d);
    }
  }
}
