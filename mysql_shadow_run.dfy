/** The main program of mysql-shadow.rb: build the registry of descriptions
    of every table, then walk it and create, alter or skip each shadow,
    issuing statements through `exec_sql`.  The database is replaced by a
    catalog of DESCRIBE rows per table name and a session that records what
    was logged and what was submitted. */
module MysqlShadowRun {
  import opened Wrappers
  import opened ShadowText
  import opened FieldHash
  import opened MysqlShadow

/* ---- exec_sql ---- */

  /** `log`: the statements passed to the logger at debug level (they reach
      the log file only at debug verbosity); `submitted`: the statements the
      server received; `failed`: whether the server rejected one. */
  datatype Trace = Trace(log: seq<string>, submitted: seq<string>, failed: bool)

  /** What the debug logger and the server have seen after `exec_sql` was
      called with the statements `issued`, in order, when the server rejects the
      submitted statement at position `rejectAt` (None: it rejects none).
      Every statement is logged before it is submitted; in test mode none is
      submitted; the rejection raises and ends the run, so nothing after the
      rejected statement is logged or submitted. */
  function Effect(testMode: bool, rejectAt: Option<nat>, issued: seq<string>): Trace {
    if !testMode && rejectAt.Some? && rejectAt.value < |issued| then
      var upTo := issued[..rejectAt.value + 1];
      Trace(upTo, upTo, true)
    else
      Trace(issued, if testMode then [] else issued, false)
  }

  /** The log is the issued statements up to and including the rejected
      one, or all of them when none is rejected; the server saw exactly the
      log unless in test mode. */
  lemma EffectSpec(testMode: bool, rejectAt: Option<nat>, issued: seq<string>)
    ensures var t := Effect(testMode, rejectAt, issued);
      && t.log <= issued
      && t.submitted == (if testMode then [] else t.log)
      && (t.failed <==> !testMode && rejectAt.Some? && rejectAt.value < |issued|)
      && (!t.failed ==> t.log == issued)
      && (t.failed ==> |t.log| == rejectAt.value + 1)
  {
  }

  /** The log and the server connection of one run. */
  class Session {
    const testMode: bool
    const rejectAt: Option<nat>
    var log: seq<string>
    var submitted: seq<string>
    var failed: bool
    /** Every statement `exec_sql` was called with. */
    ghost var issued: seq<string>

    ghost predicate Valid()
      reads this
    {
      Trace(log, submitted, failed) == Effect(testMode, rejectAt, issued)
    }

    constructor (testMode: bool, rejectAt: Option<nat>)
      ensures Valid() && issued == []
      ensures this.testMode == testMode && this.rejectAt == rejectAt
    {
      this.testMode := testMode;
      this.rejectAt := rejectAt;
      log, submitted, failed := [], [], false;
      issued := [];
    }

    /** `exec_sql`: log the statement, then submit it unless in test mode.
        Once the server has rejected a statement the run is over and a call
        changes nothing observable. */
    method ExecSql(statement: string)
      requires Valid()
      modifies this
      ensures Valid() && issued == old(issued) + [statement]
    {
      issued := issued + [statement];
      if !failed {
        log := log + [statement];
        if !testMode {
          failed := rejectAt == Some(|submitted|);
          submitted := submitted + [statement];
        }
      }
    }
  }

/* ---- what the loop issues ---- */

  lemma EndsWith<T>(x: seq<T>, t: seq<T>)
    ensures |x + t| == |x| + |t| && (x + t)[|x|..] == t
  {
  }

  /** Four appends in a row append their concatenation. */
  lemma AppendChain<T>(s: seq<T>, a: seq<T>, b: seq<T>, c: seq<T>, d: seq<T>,
                       s1: seq<T>, s2: seq<T>, s3: seq<T>, s4: seq<T>)
    requires s1 == s + a && s2 == s1 + b && s3 == s2 + c && s4 == s3 + d
    ensures s4 == s + (a + b + c + d)
  {
  }

  lemma AppendFour<T>(s: seq<T>, a: T, b: T, c: T, d: T)
    ensures s + [a] + [b] + [c] + [d] == s + [a, b, c, d]
  {
  }

  /** `generate_triggers`: drop and recreate the insert trigger, then the
      update trigger. */
  function TriggerStatements(schema: string, d: TableDescription): seq<string> {
    [DropInsertSql(schema, d), InsertTriggerSql(schema, d), DropUpdateSql(schema, d), UpdateTriggerSql(schema, d)]
  }

  method GenerateTriggers(session: Session, schema: string, d: TableDescription)
    requires session.Valid()
    modifies session
    ensures session.Valid() && session.issued == old(session.issued) + TriggerStatements(schema, d)
  {
    var dropInsert, insert := DropInsertSql(schema, d), InsertTriggerSql(schema, d);
    var dropUpdate, update := DropUpdateSql(schema, d), UpdateTriggerSql(schema, d);
    ghost var before := session.issued;
    session.ExecSql(dropInsert);
    session.ExecSql(insert);
    session.ExecSql(dropUpdate);
    session.ExecSql(update);
    AppendFour(before, dropInsert, insert, dropUpdate, update);
  }

  /** The statements one pass of the loop issues for `d`: none for a table
      that cannot be shadowed; CREATE TABLE and the triggers when no table is
      named exactly like its shadow; otherwise, when the field maps differ,
      the ADD, DROP and MODIFY statements that are not empty, in that order,
      and the triggers again when fields were added or dropped.  Nothing is
      issued exactly when the table cannot be shadowed, or its shadow exists
      and has the same field map. */
  function TableStatements(opts: Options, registry: seq<TableDescription>, d: TableDescription): (r: seq<string>)
    ensures var ix := FindByName(registry, d.shadowName);
      r == [] <==> !d.CanShadow() || (ix.Some? && Unchanged(d, registry[ix.value]))
  {
    if !d.CanShadow() then []
    else
      match FindByName(registry, d.shadowName)
      case None => [CreateTableSql(opts.schema, d)] + TriggerStatements(opts.schema, d)
      case Some(ix) =>
        if Unchanged(d, registry[ix]) then [] else UpdateStatements(opts.schema, d, registry[ix])
  }

  /** The statements for the descriptions `ds`, one after the other, each
      looked up against the whole registry. */
  function PlanOf(opts: Options, registry: seq<TableDescription>, ds: seq<TableDescription>): seq<string> {
    if ds == [] then []
    else PlanOf(opts, registry, ds[..|ds| - 1]) + TableStatements(opts, registry, ds[|ds| - 1])
  }

  function Plan(opts: Options, registry: seq<TableDescription>): seq<string> {
    PlanOf(opts, registry, registry)
  }

  /** One pass of the convergence loop, for the description `tabDesc`. */
  method ConvergeTable(session: Session, opts: Options, registry: seq<TableDescription>, tabDesc: TableDescription)
    requires session.Valid()
    modifies session
    ensures session.Valid() && session.issued == old(session.issued) + TableStatements(opts, registry, tabDesc)
  {
    if tabDesc.CanShadow() {
      var ixSh := FindByName(registry, tabDesc.shadowName);
      if ixSh.Some? {
        var shadow := registry[ixSh.value];
        if !Unchanged(tabDesc, shadow) {
          UpdateShadow(session, opts, tabDesc, shadow);
        }
      } else {
        ghost var before := session.issued;
        var create := CreateTableSql(opts.schema, tabDesc);
        session.ExecSql(create);
        GenerateTriggers(session, opts.schema, tabDesc);
        AppendAssoc(before, [create], TriggerStatements(opts.schema, tabDesc));
      }
    }
  }

  /** The statements that bring an existing shadow's fields in line with
      the base table's. */
  function UpdateStatements(schema: string, d: TableDescription, shadow: TableDescription): (r: seq<string>)
    ensures r == [] <==> Unchanged(d, shadow)
  {
    UnchangedIffNoDiff(d, shadow);
    var added := ExtraFields(d.fields, shadow.fields);
    var dropped := ExtraFields(shadow.fields, d.fields);
    var modified := ModifiedFields(d.fields, shadow.fields);
    (if added != [] then [AlterTableSql(schema, d, added, AddClause)] else [])
    + (if dropped != [] then [AlterTableSql(schema, d, dropped, DropClause)] else [])
    + (if modified != [] then [AlterTableSql(schema, d, modified, ModifyClause)] else [])
    + (if added != [] || dropped != [] then TriggerStatements(schema, d) else [])
  }

  method UpdateShadow(session: Session, opts: Options, tabDesc: TableDescription, shadow: TableDescription)
    requires session.Valid()
    modifies session
    ensures session.Valid() && session.issued == old(session.issued) + UpdateStatements(opts.schema, tabDesc, shadow)
  {
    ghost var before := session.issued;
    var newFields := ExtraFields(tabDesc.fields, shadow.fields);
    ExecUnlessEmpty(session, newFields != [], AlterTableSql(opts.schema, tabDesc, newFields, AddClause));
    ghost var afterAdds := session.issued;
    var dropFields := ExtraFields(shadow.fields, tabDesc.fields);
    ExecUnlessEmpty(session, dropFields != [], AlterTableSql(opts.schema, tabDesc, dropFields, DropClause));
    ghost var afterDrops := session.issued;
    var modifyFields := ModifiedFields(tabDesc.fields, shadow.fields);
    ExecUnlessEmpty(session, modifyFields != [], AlterTableSql(opts.schema, tabDesc, modifyFields, ModifyClause));
    ghost var afterRetypes := session.issued;
    if newFields != [] || dropFields != [] {
      GenerateTriggers(session, opts.schema, tabDesc);
    }
    AppendChain(before, if newFields != [] then [AlterTableSql(opts.schema, tabDesc, newFields, AddClause)] else [],
                if dropFields != [] then [AlterTableSql(opts.schema, tabDesc, dropFields, DropClause)] else [],
                if modifyFields != [] then [AlterTableSql(opts.schema, tabDesc, modifyFields, ModifyClause)] else [],
                if newFields != [] || dropFields != [] then TriggerStatements(opts.schema, tabDesc) else [],
                afterAdds, afterDrops, afterRetypes, session.issued);
  }

  /** `exec_sql(statement) if !fields.empty?`: the statement is issued
      exactly when its field list is not empty. */
  method ExecUnlessEmpty(session: Session, nonEmpty: bool, statement: string)
    requires session.Valid()
    modifies session
    ensures session.Valid() && session.issued == old(session.issued) + (if nonEmpty then [statement] else [])
  {
    if nonEmpty {
      session.ExecSql(statement);
    }
  }

  /** The convergence loop: every description is visited once, in registry
      order, and its statements go through `exec_sql` as they are decided. */
  method Converge(session: Session, opts: Options, registry: seq<TableDescription>)
    requires session.Valid()
    modifies session
    ensures session.Valid() && session.issued == old(session.issued) + Plan(opts, registry)
  {
    for i := 0 to |registry|
      invariant session.Valid()
      invariant session.issued == old(session.issued) + PlanOf(opts, registry, registry[..i])
    {
      ConvergeTable(session, opts, registry, registry[i]);
      ghost var visited := registry[..i + 1];
      assert visited[..|visited| - 1] == registry[..i] && visited[|visited| - 1] == registry[i];
      assert PlanOf(opts, registry, visited)
          == PlanOf(opts, registry, registry[..i]) + TableStatements(opts, registry, registry[i]);
      AppendAssoc(old(session.issued), PlanOf(opts, registry, registry[..i]), TableStatements(opts, registry, registry[i]));
    }
    assert registry[..|registry|] == registry;
  }

/* ---- building the registry ---- */

  predicate AllDescribed(names: seq<string>, catalog: map<string, seq<Column>>) {
    forall i :: 0 <= i < |names| ==> names[i] in catalog
  }

  /** The descriptions of the listed tables, in list order. */
  function Registry(suffix: string, names: seq<string>, catalog: map<string, seq<Column>>): seq<TableDescription>
    requires AllDescribed(names, catalog)
  {
    if names == [] then []
    else
      var n := |names|;
      Registry(suffix, names[..n - 1], catalog) + [Analyze(suffix, names[n - 1], catalog[names[n - 1]])]
  }

  /** Describing one more listed table extends the registry by its
      description. */
  lemma RegistryStep(suffix: string, names: seq<string>, catalog: map<string, seq<Column>>, i: nat)
    requires i < |names| && AllDescribed(names[..i], catalog) && names[i] in catalog
    ensures AllDescribed(names[..i + 1], catalog)
    ensures Registry(suffix, names[..i + 1], catalog)
         == Registry(suffix, names[..i], catalog) + [Analyze(suffix, names[i], catalog[names[i]])]
  {
    var listed := names[..i + 1];
    assert listed[..i] == names[..i] && listed[i] == names[i];
    forall j | 0 <= j <= i ensures listed[j] in catalog {
      if j < i {
        assert listed[j] == names[..i][j];
      }
    }
  }

  /** `tablist.each { |table| $tables << TableDescription.new(table) }`.
      DESCRIBE of a table the catalog does not have raises, which ends the
      run before anything is issued. */
  method BuildRegistry(suffix: string, names: seq<string>, catalog: map<string, seq<Column>>)
    returns (registry: Option<seq<TableDescription>>)
    requires IsLiteralPattern(suffix)
    requires forall i :: 0 <= i < |names| ==> IsSingleLine(names[i])
    ensures registry.Some? <==> AllDescribed(names, catalog)
    ensures registry.Some? ==> registry.value == Registry(suffix, names, catalog)
  {
    var tables: seq<TableDescription> := [];
    for i := 0 to |names|
      invariant AllDescribed(names[..i], catalog)
      invariant tables == Registry(suffix, names[..i], catalog)
    {
      if names[i] !in catalog {
        return None;
      }
      var d := Describe(suffix, names[i], catalog[names[i]]);
      RegistryStep(suffix, names, catalog, i);
      tables := tables + [d];
    }
    assert names[..|names|] == names;
    return Some(tables);
  }

  /** One run: describe every table, then converge. */
  method Run(opts: Options, names: seq<string>, catalog: map<string, seq<Column>>, rejectAt: Option<nat>)
    returns (session: Session)
    requires IsLiteralPattern(opts.shadowSuffix)
    requires forall i :: 0 <= i < |names| ==> IsSingleLine(names[i])
    ensures fresh(session) && session.Valid()
    ensures session.testMode == opts.testMode && session.rejectAt == rejectAt
    ensures session.issued == if AllDescribed(names, catalog)
                              then Plan(opts, Registry(opts.shadowSuffix, names, catalog))
                              else []
  {
    session := new Session(opts.testMode, rejectAt);
    var registry := BuildRegistry(opts.shadowSuffix, names, catalog);
    if registry.Some? {
      Converge(session, opts, registry.value);
    }
  }

/* ---- properties of the loop ---- */

  /** A table that is itself a shadow never gets a statement of its own. */
  lemma ShadowTablesSkipped(opts: Options, registry: seq<TableDescription>, tableName: string, rows: seq<Column>)
    requires Analyze(opts.shadowSuffix, tableName, rows).IsShadow()
    ensures TableStatements(opts, registry, Analyze(opts.shadowSuffix, tableName, rows)) == []
  {
  }

  /** When only types changed, the update is a single MODIFY and the
      triggers are left alone. */
  lemma TypeOnlyChange(opts: Options, registry: seq<TableDescription>, d: TableDescription, ix: nat)
    requires d.CanShadow() && FindByName(registry, d.shadowName) == Some(ix)
    requires ToMap(d.fields).Keys == ToMap(registry[ix].fields).Keys
    requires !Unchanged(d, registry[ix])
    ensures TableStatements(opts, registry, d)
         == [AlterTableSql(opts.schema, d, ModifiedFields(d.fields, registry[ix].fields), ModifyClause)]
  {
    var shadow := registry[ix];
    var added, dropped := ExtraFields(d.fields, shadow.fields), ExtraFields(shadow.fields, d.fields);
    assert ToMap(added) == map[];
    assert ToMap(dropped) == map[];
    UnchangedIffNoDiff(d, shadow);
    assert TableStatements(opts, registry, d) == UpdateStatements(opts.schema, d, shadow);
  }

  /** When the set of field names changed, at least one ADD or DROP is
      issued and the update ends by regenerating both triggers. */
  lemma ColumnSetChange(opts: Options, registry: seq<TableDescription>, d: TableDescription, ix: nat)
    requires d.CanShadow() && FindByName(registry, d.shadowName) == Some(ix)
    requires ToMap(d.fields).Keys != ToMap(registry[ix].fields).Keys
    ensures var shadow := registry[ix];
      var added, dropped := ExtraFields(d.fields, shadow.fields), ExtraFields(shadow.fields, d.fields);
      var modified := ModifiedFields(d.fields, shadow.fields);
      var r := TableStatements(opts, registry, d);
      && (added != [] || dropped != [])
      && r == (if added != [] then [AlterTableSql(opts.schema, d, added, AddClause)] else [])
            + (if dropped != [] then [AlterTableSql(opts.schema, d, dropped, DropClause)] else [])
            + (if modified != [] then [AlterTableSql(opts.schema, d, modified, ModifyClause)] else [])
            + TriggerStatements(opts.schema, d)
      && 5 <= |r| <= 7
      && r[|r| - 4..] == TriggerStatements(opts.schema, d)
  {
    var shadow := registry[ix];
    var added, dropped := ExtraFields(d.fields, shadow.fields), ExtraFields(shadow.fields, d.fields);
    var modified := ModifiedFields(d.fields, shadow.fields);
    assert added != [] || dropped != [];
    assert !Unchanged(d, shadow);
    var alters := (if added != [] then [AlterTableSql(opts.schema, d, added, AddClause)] else [])
      + (if dropped != [] then [AlterTableSql(opts.schema, d, dropped, DropClause)] else [])
      + (if modified != [] then [AlterTableSql(opts.schema, d, modified, ModifyClause)] else []);
    var triggers := TriggerStatements(opts.schema, d);
    var r := TableStatements(opts, registry, d);
    assert 1 <= |alters| <= 3 && |triggers| == 4;
    assert r == alters + triggers;
    EndsWith(alters, triggers);
  }

  /** The columns a shadow has once the statements for `d` ran against it. */
  function UpdatedShadowColumns(d: TableDescription, shadow: TableDescription): seq<Column> {
    ApplyModify(ApplyDrop(ApplyAdd(shadow.fields, ExtraFields(d.fields, shadow.fields)),
                          ExtraFields(shadow.fields, d.fields)),
                ModifiedFields(d.fields, shadow.fields))
  }

  /** Idempotence after an update: once the ALTER statements ran, describing
      the shadow again and looking it up by its exact name leaves nothing to
      issue for the base table. */
  lemma RerunAfterUpdate(opts: Options, registry: seq<TableDescription>, d: TableDescription,
                         shadow: TableDescription, ix: nat)
    requires d.CanShadow() && FindByName(registry, d.shadowName) == Some(ix)
    requires registry[ix] == Analyze(opts.shadowSuffix, d.shadowName.value, UpdatedShadowColumns(d, shadow))
    ensures TableStatements(opts, registry, d) == []
  {
    AlterConverges(d.fields, shadow.fields);
  }

  /** Idempotence after a creation: a shadow created with the base table's
      columns, found again by its exact name, leaves nothing to issue. */
  lemma RerunAfterCreate(opts: Options, registry: seq<TableDescription>, tableName: string,
                         rows: seq<Column>, ix: nat)
    requires Analyze(opts.shadowSuffix, tableName, rows).CanShadow()
    requires FindByName(registry, Analyze(opts.shadowSuffix, tableName, rows).shadowName) == Some(ix)
    requires registry[ix] == Analyze(opts.shadowSuffix, registry[ix].tableName, rows)
    ensures TableStatements(opts, registry, Analyze(opts.shadowSuffix, tableName, rows)) == []
  {
  }

  /** Shadows are recognised ignoring case: a name that equals a table's
      shadow name up to case is a shadow, and its base equals the table's
      name up to case. */
  lemma CaseVariantIsShadow(suffix: string, tableName: string, other: string, otherRows: seq<Column>)
    requires tableName != ""
    requires SameIgnoringCase(other, tableName + suffix)
    ensures var s := Analyze(suffix, other, otherRows);
      s.IsShadow() && SameIgnoringCase(s.baseName, tableName)
  {
    var n := |tableName|;
    var full := tableName + suffix;
    assert SameIgnoringCase(other[n..], suffix) by {
      forall i | 0 <= i < |suffix| ensures LowerChar(other[n..][i]) == LowerChar(suffix[i]) {
        assert other[n..][i] == other[n + i] && full[n + i] == suffix[i];
      }
    }
    assert SameIgnoringCase(other[..n], tableName) by {
      forall i | 0 <= i < n ensures LowerChar(other[..n][i]) == LowerChar(tableName[i]) {
        assert full[i] == tableName[i];
      }
    }
  }

  /** The lookup of the shadow is exact while the recognition of shadows
      ignores case: with only a case variant of the shadow name in the
      schema, that table is taken for the shadow, yet the base table is
      still treated as unshadowed and a new shadow is created beside it. */
  lemma CaseOnlyShadowIsNotFound(opts: Options, registry: seq<TableDescription>, tableName: string,
                                 rows: seq<Column>, other: string, otherRows: seq<Column>)
    requires tableName != ""
    requires Analyze(opts.shadowSuffix, tableName, rows).CanShadow()
    requires SameIgnoringCase(other, tableName + opts.shadowSuffix)
    requires forall j :: 0 <= j < |registry| ==> registry[j].tableName != tableName + opts.shadowSuffix
    ensures Analyze(opts.shadowSuffix, other, otherRows).IsShadow()
    ensures var d := Analyze(opts.shadowSuffix, tableName, rows);
      TableStatements(opts, registry, d) == [CreateTableSql(opts.schema, d)] + TriggerStatements(opts.schema, d)
  {
    CaseVariantIsShadow(opts.shadowSuffix, tableName, other, otherRows);
    Eligibility(opts.shadowSuffix, tableName, rows);
  }
}
