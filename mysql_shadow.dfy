/** The table description, diff engine and SQL renderers of mysql-shadow.rb.
    A TableDescription is built once from a table name and the rows DESCRIBE
    returned for it and is never changed afterwards, so it is a value here. */
module MysqlShadow {
  import opened Wrappers
  import opened ShadowText
  import opened FieldHash

  /** The two fields a table needs to be shadowed; their types are not checked. */
  const ID_NAME: string := "id"
  const UPDATE_NAME: string := "updated_at"

  /** The default shadow-table suffix. */
  const SHADOW_SUFFIX: string := "_shadow"

  /** The option values the core reads: the schema every statement is
      qualified with, the shadow suffix and the test-mode switch. */
  datatype Options = Options(schema: string, shadowSuffix: string, testMode: bool)

  datatype TableDescription = TableDescription(
    tableName: string,
    shadowMatch: Option<string>,   // the capture of the shadow pattern, if it matched
    baseName: string,
    shadowName: Option<string>,
    columnCount: nat,
    hasId: bool,
    hasUpdate: bool,
    createFields: string,          // " name type" entries for CREATE TABLE
    fieldList: string,             // " name" entries for the trigger INSERT list
    newList: string,               // " new.name" entries for the trigger VALUES list
    fields: Hash)
  {
    /** `shadow?` */
    predicate IsShadow() {
      shadowMatch.Some?
    }

    /** `can_shadow?` */
    predicate CanShadow() {
      hasId && hasUpdate
    }
  }

  predicate HasField(rows: seq<Column>, name: string) {
    exists i :: 0 <= i < |rows| && rows[i].name == name
  }

  function CreateEntries(rows: seq<Column>): seq<string> {
    seq(|rows|, i requires 0 <= i < |rows| => " " + rows[i].name + " " + rows[i].ctype)
  }

  function FieldEntries(rows: seq<Column>): seq<string> {
    seq(|rows|, i requires 0 <= i < |rows| => " " + rows[i].name)
  }

  function NewEntries(rows: seq<Column>): seq<string> {
    seq(|rows|, i requires 0 <= i < |rows| => " new." + rows[i].name)
  }

  /** One more row extends each entry list by one entry. */
  lemma EntriesSnoc(rows: seq<Column>, i: nat)
    requires i < |rows|
    ensures rows[..i + 1] == rows[..i] + [rows[i]]
    ensures HasField(rows[..i + 1], ID_NAME) == (HasField(rows[..i], ID_NAME) || rows[i].name == ID_NAME)
    ensures HasField(rows[..i + 1], UPDATE_NAME) == (HasField(rows[..i], UPDATE_NAME) || rows[i].name == UPDATE_NAME)
    ensures CreateEntries(rows[..i + 1]) == CreateEntries(rows[..i]) + [" " + rows[i].name + " " + rows[i].ctype]
    ensures FieldEntries(rows[..i + 1]) == FieldEntries(rows[..i]) + [" " + rows[i].name]
    ensures NewEntries(rows[..i + 1]) == NewEntries(rows[..i]) + [" new." + rows[i].name]
  {
    var p := rows[..i + 1];
    assert p[i] == rows[i];
    assert HasField(rows[..i], ID_NAME) ==> HasField(p, ID_NAME);
    assert HasField(rows[..i], UPDATE_NAME) ==> HasField(p, UPDATE_NAME);
  }

  /** What reading row `i` adds to each accumulated value. */
  lemma ScanStep(rows: seq<Column>, i: nat)
    requires i < |rows|
    ensures HasField(rows[..i + 1], ID_NAME) == (HasField(rows[..i], ID_NAME) || rows[i].name == ID_NAME)
    ensures HasField(rows[..i + 1], UPDATE_NAME) == (HasField(rows[..i], UPDATE_NAME) || rows[i].name == UPDATE_NAME)
    ensures Terminated(CreateEntries(rows[..i + 1]), ",")
         == Terminated(CreateEntries(rows[..i]), ",") + (" " + rows[i].name + " " + rows[i].ctype) + ","
    ensures Terminated(FieldEntries(rows[..i + 1]), ",") == Terminated(FieldEntries(rows[..i]), ",") + (" " + rows[i].name) + ","
    ensures Terminated(NewEntries(rows[..i + 1]), ",") == Terminated(NewEntries(rows[..i]), ",") + (" new." + rows[i].name) + ","
    ensures HashOf(rows[..i + 1]) == Put(HashOf(rows[..i]), rows[i].name, rows[i].ctype)
  {
    EntriesSnoc(rows, i);
    TerminatedSnoc(CreateEntries(rows[..i]), " " + rows[i].name + " " + rows[i].ctype, ",");
    TerminatedSnoc(FieldEntries(rows[..i]), " " + rows[i].name, ",");
    TerminatedSnoc(NewEntries(rows[..i]), " new." + rows[i].name, ",");
    assert rows[..i + 1][..i] == rows[..i];
  }

  /** What `TableDescription.new(tableName)` knows once it has read `rows`:
      a shadow table gets no render strings and is never eligible; every
      table gets the field hash. */
  function Analyze(suffix: string, tableName: string, rows: seq<Column>): TableDescription {
    var m := ShadowMatch(tableName, suffix);
    var baseName := if m.Some? then m.value else tableName;
    var hasId := m.None? && HasField(rows, ID_NAME);
    var hasUpdate := m.None? && HasField(rows, UPDATE_NAME);
    TableDescription(
      tableName, m, baseName,
      if hasId && hasUpdate then Some(baseName + suffix) else None,
      |rows|, hasId, hasUpdate,
      if m.Some? then "" else Join(CreateEntries(rows), ","),
      if m.Some? then "" else Join(FieldEntries(rows), ","),
      if m.Some? then "" else Join(NewEntries(rows), ","),
      HashOf(rows))
  }

  /** The `case info["Field"]` of the describe loop: the key field sets its
      flag, any other field leaves both as they were. */
  method NoteKeyField(name: string, hasId: bool, hasUpdate: bool) returns (hasId': bool, hasUpdate': bool)
    ensures hasId' == (hasId || name == ID_NAME)
    ensures hasUpdate' == (hasUpdate || name == UPDATE_NAME)
  {
    hasId', hasUpdate' := hasId, hasUpdate;
    if name == ID_NAME {
      hasId' := true;
    } else if name == UPDATE_NAME {
      hasUpdate' := true;
    }
  }

  /** The `@desc.each_hash` block of `TableDescription#initialize`: one pass
      over the DESCRIBE rows that sets the eligibility flags, grows the three
      render strings by `+=` (for a table that is not a shadow) and fills the
      field hash. */
  method ScanRows(isShadow: bool, rows: seq<Column>)
    returns (hasId: bool, hasUpdate: bool, createFields: string, fieldList: string, newList: string, fields: Hash)
    ensures hasId == (!isShadow && HasField(rows, ID_NAME))
    ensures hasUpdate == (!isShadow && HasField(rows, UPDATE_NAME))
    ensures createFields == if isShadow then "" else Terminated(CreateEntries(rows), ",")
    ensures fieldList == if isShadow then "" else Terminated(FieldEntries(rows), ",")
    ensures newList == if isShadow then "" else Terminated(NewEntries(rows), ",")
    ensures fields == HashOf(rows)
  {
    hasId, hasUpdate := false, false;
    createFields, fieldList, newList := "", "", "";
    fields := [];
    for i := 0 to |rows|
      invariant hasId == (!isShadow && HasField(rows[..i], ID_NAME))
      invariant hasUpdate == (!isShadow && HasField(rows[..i], UPDATE_NAME))
      invariant createFields == if isShadow then "" else Terminated(CreateEntries(rows[..i]), ",")
      invariant fieldList == if isShadow then "" else Terminated(FieldEntries(rows[..i]), ",")
      invariant newList == if isShadow then "" else Terminated(NewEntries(rows[..i]), ",")
      invariant fields == HashOf(rows[..i])
    {
      var info := rows[i];
      ScanStep(rows, i);
      if !isShadow {
        hasId, hasUpdate := NoteKeyField(info.name, hasId, hasUpdate);
        var createEntry, fieldEntry, newEntry := " " + info.name + " " + info.ctype, " " + info.name, " new." + info.name;
        createFields := createFields + createEntry + ",";
        fieldList := fieldList + fieldEntry + ",";
        newList := newList + newEntry + ",";
      }
      fields := Put(fields, info.name, info.ctype);
    }
    assert rows[..|rows|] == rows;
  }

  /** `TableDescription#initialize`: match the name against the shadow
      pattern, scan the rows, chop the trailing commas when there are any
      and derive the shadow name.  The preconditions say when the literal
      suffix test is what the regular expression does. */
  method Describe(suffix: string, tableName: string, rows: seq<Column>) returns (d: TableDescription)
    requires IsLiteralPattern(suffix) && IsSingleLine(tableName)
    ensures d == Analyze(suffix, tableName, rows)
  {
    var shadowMatch := ShadowMatch(tableName, suffix);
    var baseName := if shadowMatch.Some? then shadowMatch.value else tableName;
    var hasId, hasUpdate, createFields, fieldList, newList, fields := ScanRows(shadowMatch.Some?, rows);
    ChopTerminated(CreateEntries(rows), ',');
    ChopTerminated(FieldEntries(rows), ',');
    ChopTerminated(NewEntries(rows), ',');
    if createFields != "" {
      // when this one is non-empty the other two are as well
      createFields := Chop(createFields);
      fieldList := Chop(fieldList);
      newList := Chop(newList);
    }
    var shadowName := if hasId && hasUpdate then Some(baseName + suffix) else None;
    d := TableDescription(tableName, shadowMatch, baseName, shadowName, |rows|,
                          hasId, hasUpdate, createFields, fieldList, newList, fields);
  }

  /** Shadow detection: a table is a shadow exactly when its name is at least
      one character followed by the suffix, compared without case; its base
      name is then the name less the suffix's length, and otherwise the name
      itself. */
  lemma ShadowDetection(suffix: string, tableName: string, rows: seq<Column>)
    ensures var d := Analyze(suffix, tableName, rows);
      && (d.IsShadow() <==> |tableName| > |suffix| && SameIgnoringCase(tableName[|tableName| - |suffix|..], suffix))
      && (d.IsShadow() ==> d.baseName == tableName[..|tableName| - |suffix|])
      && (!d.IsShadow() ==> d.baseName == tableName)
  {
    var k := |tableName| - |suffix|;
    if Analyze(suffix, tableName, rows).IsShadow() {
      var j :| 1 <= j <= |tableName| && SameIgnoringCase(tableName[j..], suffix);
      assert j == k;
    }
  }

  /** The render strings of a base table list its columns in DESCRIBE order,
      comma-separated with no trailing comma, and the i-th VALUES entry is
      `new.` before the i-th INSERT entry's name; a shadow table's strings are
      empty.  Every table's field hash denotes the rows' name-to-type map. */
  lemma RenderStrings(suffix: string, tableName: string, rows: seq<Column>)
    ensures var d := Analyze(suffix, tableName, rows);
      && (d.IsShadow() ==> d.createFields == "" && d.fieldList == "" && d.newList == "")
      && (!d.IsShadow() ==> && d.createFields == Join(CreateEntries(rows), ",")
                            && d.fieldList == Join(FieldEntries(rows), ",")
                            && d.newList == Join(NewEntries(rows), ","))
      && |FieldEntries(rows)| == |NewEntries(rows)| == |CreateEntries(rows)| == |rows|
      && (forall i :: 0 <= i < |rows| ==> NewEntries(rows)[i] == " new." + FieldEntries(rows)[i][1..])
      && ToMap(d.fields) == ToMap(rows)
      && d.columnCount == |rows|
  {
    forall i | 0 <= i < |rows| ensures NewEntries(rows)[i] == " new." + FieldEntries(rows)[i][1..] {
      assert FieldEntries(rows)[i][1..] == rows[i].name;
    }
  }

  lemma HasFieldIffNamed(rows: seq<Column>, name: string)
    ensures HasField(rows, name) <==> name in ToMap(rows)
  {
    if HasField(rows, name) {
      var i :| 0 <= i < |rows| && rows[i].name == name;
      NamesAt(rows, i);
    }
    if name in ToMap(rows) {
      var i := NamesWitness(rows, name);
    }
  }

  /** Eligibility: a table can be shadowed exactly when it is not itself a
      shadow and its field hash has both "id" and "updated_at"; the shadow
      name exists exactly then, and is the base name followed by the suffix. */
  lemma Eligibility(suffix: string, tableName: string, rows: seq<Column>)
    ensures var d := Analyze(suffix, tableName, rows);
      && (d.CanShadow() <==> !d.IsShadow() && ID_NAME in ToMap(d.fields) && UPDATE_NAME in ToMap(d.fields))
      && (d.shadowName.Some? <==> d.CanShadow())
      && (d.CanShadow() ==> d.shadowName == Some(d.baseName + suffix))
  {
    HasFieldIffNamed(rows, ID_NAME);
    HasFieldIffNamed(rows, UPDATE_NAME);
  }

  /** Naming round trip: the shadow name of an eligible table is itself a
      shadow name whose base is that table, and such a table is never
      eligible, whatever its columns. */
  lemma ShadowNameRoundTrip(suffix: string, tableName: string, rows: seq<Column>, shadowRows: seq<Column>)
    requires tableName != ""
    requires Analyze(suffix, tableName, rows).CanShadow()
    ensures var s := Analyze(suffix, Analyze(suffix, tableName, rows).shadowName.value, shadowRows);
      && s.IsShadow()
      && s.baseName == tableName
      && !s.CanShadow()
      && s.shadowName == None
  {
    var name := tableName + suffix;
    assert name[|tableName|..] == suffix;
    assert name[..|tableName|] == tableName;
    assert SameIgnoringCase(name[|tableName|..], suffix);
  }

  /** When DESCRIBE lists each field once, the CREATE TABLE field text of a
      base table lists exactly the entries of its field hash, in order. */
  lemma CreateFieldsListHash(suffix: string, tableName: string, rows: seq<Column>)
    requires DistinctNames(rows)
    ensures var d := Analyze(suffix, tableName, rows);
      !d.IsShadow() ==> d.createFields == Join(CreateEntries(d.fields), ",")
  {
  }

/* ---- diff engine ---- */

  /** `unchanged?`: Ruby's `Hash#eql?`, equality of the name-to-type maps
      whatever the insertion order. */
  predicate Unchanged(d: TableDescription, shadow: TableDescription) {
    ToMap(d.fields) == ToMap(shadow.fields)
  }

  /** `unchanged?` ignores the order of the entries: it holds exactly when
      both field hashes hold the same name-type entries. */
  lemma UnchangedIffSameEntries(d: TableDescription, shadow: TableDescription)
    ensures Unchanged(d, shadow) <==> forall c :: c in d.fields <==> c in shadow.fields
  {
    var a, b := ToMap(d.fields), ToMap(shadow.fields);
    if forall c :: c in d.fields <==> c in shadow.fields {
      forall k | k in a ensures k in b && b[k] == a[k] {
        InHash(d.fields, Column(k, a[k]));
        InHash(shadow.fields, Column(k, a[k]));
      }
      forall k | k in b ensures k in a {
        InHash(shadow.fields, Column(k, b[k]));
        InHash(d.fields, Column(k, b[k]));
      }
      assert a == b;
    }
    if a == b {
      forall c ensures c in d.fields <==> c in shadow.fields {
        InHash(d.fields, c);
        InHash(shadow.fields, c);
      }
    }
  }

  /** `r` holds exactly the entries of `a` whose key `b` lacks. */
  predicate IsMissing(r: map<string, string>, a: map<string, string>, b: map<string, string>) {
    && (forall k :: k in r ==> k in a && k !in b && r[k] == a[k])
    && (forall k :: k in a && k !in b ==> k in r)
  }

  /** `r` holds exactly the entries of `a` whose key `b` has with another
      value. */
  predicate IsRetyped(r: map<string, string>, a: map<string, string>, b: map<string, string>) {
    && (forall k :: k in r ==> k in a && k in b && b[k] != a[k] && r[k] == a[k])
    && (forall k :: k in a && k in b && b[k] != a[k] ==> k in r)
  }

  /** `a.extra_fields(b)`: the entries of `a` whose name `b` lacks, in `a`'s
      order and with `a`'s types.  Used base-to-shadow it gives the added
      fields, shadow-to-base the dropped ones. */
  function ExtraFields(a: Hash, b: Hash): (r: Hash)
    ensures IsMissing(ToMap(r), ToMap(a), ToMap(b))
    ensures IsSubsequence(r, a)
  {
    if a == [] then []
    else
      var n := |a|;
      var c := a[n - 1];
      var init: Hash := a[..n - 1];
      var r0 := ExtraFields(init, b);
      LastNameFresh(a);
      SplitLast(a);
      SubsequenceSnoc(r0, init, c);
      ToMapSnoc(init, c);
      MissingStep(ToMap(r0), ToMap(init), ToMap(b), c);
      if c.name in ToMap(b) then r0
      else
        assert c.name !in ToMap(r0);
        Snoc(r0, c);
        r0 + [c]
  }

  /** `a.modified_fields(b)`: the entries of `a` whose name `b` also has but
      with a different type string, in `a`'s order and with `a`'s types. */
  function ModifiedFields(a: Hash, b: Hash): (r: Hash)
    ensures IsRetyped(ToMap(r), ToMap(a), ToMap(b))
    ensures IsSubsequence(r, a)
  {
    if a == [] then []
    else
      var n := |a|;
      var c := a[n - 1];
      var init: Hash := a[..n - 1];
      var r0 := ModifiedFields(init, b);
      LastNameFresh(a);
      SplitLast(a);
      SubsequenceSnoc(r0, init, c);
      ToMapSnoc(init, c);
      RetypedStep(ToMap(r0), ToMap(init), ToMap(b), c);
      if c.name in ToMap(b) && ToMap(b)[c.name] != c.ctype then
        assert c.name !in ToMap(r0);
        Snoc(r0, c);
        r0 + [c]
      else r0
  }

  /** The map-level step of `ExtraFields`: one more entry with a new name. */
  lemma MissingStep(r: map<string, string>, a: map<string, string>, b: map<string, string>, c: Column)
    requires IsMissing(r, a, b) && c.name !in a
    ensures c.name in b ==> IsMissing(r, a[c.name := c.ctype], b)
    ensures c.name !in b ==> IsMissing(r[c.name := c.ctype], a[c.name := c.ctype], b)
  {
  }

  /** The map-level step of `ModifiedFields`: one more entry with a new name. */
  lemma RetypedStep(r: map<string, string>, a: map<string, string>, b: map<string, string>, c: Column)
    requires IsRetyped(r, a, b) && c.name !in a
    ensures (c.name in b && b[c.name] != c.ctype) ==> IsRetyped(r[c.name := c.ctype], a[c.name := c.ctype], b)
    ensures !(c.name in b && b[c.name] != c.ctype) ==> IsRetyped(r, a[c.name := c.ctype], b)
  {
  }

  /** Added, dropped and modified fields never share a name. */
  lemma DiffDisjoint(a: Hash, b: Hash)
    ensures Names(ExtraFields(a, b)) !! Names(ModifiedFields(a, b))
    ensures Names(ExtraFields(a, b)) !! Names(ExtraFields(b, a))
    ensures Names(ExtraFields(b, a)) !! Names(ModifiedFields(a, b))
  {
  }

  /** `unchanged?` holds exactly when there is nothing to add, drop or modify. */
  lemma UnchangedIffNoDiff(d: TableDescription, shadow: TableDescription)
    ensures Unchanged(d, shadow) <==>
      && ExtraFields(d.fields, shadow.fields) == []
      && ExtraFields(shadow.fields, d.fields) == []
      && ModifiedFields(d.fields, shadow.fields) == []
  {
    var a, b := ToMap(d.fields), ToMap(shadow.fields);
    var added, dropped, modified := ExtraFields(d.fields, shadow.fields), ExtraFields(shadow.fields, d.fields), ModifiedFields(d.fields, shadow.fields);
    if added == [] && dropped == [] && modified == [] {
      assert ToMap(added) == map[] && ToMap(dropped) == map[] && ToMap(modified) == map[];
      forall k | k in a ensures k in b && b[k] == a[k] {
        assert k !in ToMap(added);
        assert k !in ToMap(modified);
      }
      forall k | k in b ensures k in a {
        assert k !in ToMap(dropped);
      }
    }
  }

/* ---- what the server does with the ALTER clauses ---- */

  /** ADD COLUMN puts each new column after the existing ones. */
  function ApplyAdd(cols: seq<Column>, added: Hash): seq<Column> {
    cols + added
  }

  function RemoveName(cols: seq<Column>, name: string): (r: seq<Column>)
    ensures ToMap(r) == ToMap(cols) - {name}
  {
    if cols == [] then []
    else
      var n := |cols|;
      var init, last := cols[..n - 1], cols[n - 1];
      var r0 := RemoveName(init, name);
      SplitLast(cols);
      ToMapSnoc(init, last);
      if last.name == name then
        assert ToMap(cols) - {name} == ToMap(init) - {name};
        r0
      else
        ToMapSnoc(r0, last);
        RemoveOther(ToMap(init), name, last.name, last.ctype);
        r0 + [last]
  }

  lemma RemoveOther(m: map<string, string>, name: string, k: string, v: string)
    requires k != name
    ensures (m - {name})[k := v] == m[k := v] - {name}
  {
  }

  /** DROP COLUMN, clause by clause. */
  function ApplyDrop(cols: seq<Column>, dropped: Hash): (r: seq<Column>)
    ensures ToMap(r) == ToMap(cols) - Names(dropped)
  {
    if dropped == [] then cols
    else
      var n := |dropped|;
      var init: Hash := dropped[..n - 1];
      RemoveName(ApplyDrop(cols, init), dropped[n - 1].name)
  }

  /** MODIFY COLUMN, clause by clause: the column keeps its place and takes
      the new type. */
  function ApplyModify(cols: seq<Column>, modified: Hash): (r: seq<Column>)
    ensures IsOverridden(ToMap(r), ToMap(cols), ToMap(modified))
  {
    if modified == [] then cols
    else
      var n := |modified|;
      var init: Hash := modified[..n - 1];
      var last := modified[n - 1];
      var r0 := ApplyModify(cols, init);
      RetypeMap(r0, last.name, last.ctype);
      SplitLast(modified);
      ToMapSnoc(init, last);
      OverrideStep(ToMap(r0), ToMap(cols), ToMap(init), last.name, last.ctype);
      Retype(r0, last.name, last.ctype)
  }

  /** One more MODIFY clause overrides one more key, if the map has it. */
  lemma OverrideStep(r: map<string, string>, m: map<string, string>, newer: map<string, string>, k: string, v: string)
    requires IsOverridden(r, m, newer)
    ensures IsOverridden(if k in r then r[k := v] else r, m, newer[k := v])
  {
  }

  /** `r` is `m` with the value of every key that `newer` also has taken
      from `newer`. */
  predicate IsOverridden(r: map<string, string>, m: map<string, string>, newer: map<string, string>) {
    && r.Keys == m.Keys
    && (forall k :: k in r ==> r[k] == if k in newer then newer[k] else m[k])
  }

  /** The map-level core of convergence: the shadow's map with the missing
      entries added, the extra ones removed and the retyped ones overridden
      is the base's map. */
  lemma ConvergeMaps(b: map<string, string>, s: map<string, string>, added: map<string, string>,
                     dropped: map<string, string>, modified: map<string, string>, r: map<string, string>)
    requires IsMissing(added, b, s) && IsMissing(dropped, s, b) && IsRetyped(modified, b, s)
    requires IsOverridden(r, (s + added) - dropped.Keys, modified)
    ensures r == b
  {
    forall k ensures (k in r <==> k in b) && (k in r ==> r[k] == b[k]) {
    }
  }

  /** Convergence: adding the added fields with the base's types, dropping the
      dropped ones and modifying the modified ones to the base's types turns
      the shadow's field map into exactly the base's. */
  lemma {:induction false} AlterConverges(base: Hash, shadow: Hash)
    ensures ToMap(ApplyModify(ApplyDrop(ApplyAdd(shadow, ExtraFields(base, shadow)), ExtraFields(shadow, base)),
                              ModifiedFields(base, shadow)))
         == ToMap(base)
  {
    var added, dropped, modified := ExtraFields(base, shadow), ExtraFields(shadow, base), ModifiedFields(base, shadow);
    ToMapAppend(shadow, added);
    var grown := ApplyAdd(shadow, added);
    var shrunk := ApplyDrop(grown, dropped);
    ConvergeMaps(ToMap(base), ToMap(shadow), ToMap(added), ToMap(dropped), ToMap(modified),
                 ToMap(ApplyModify(shrunk, modified)));
  }

  /** The diff compares column names exactly: a column whose name changed
      only in case is added under its new spelling and dropped under its old
      one.  (A MySQL server compares column names without regard to case and
      refuses such an ADD COLUMN as a duplicate; `ApplyAdd` does not.) */
  lemma CaseOnlyColumnRename()
    ensures var base: Hash := [Column("id", "int"), Column("updated_at", "datetime"), Column("Email", "varchar(100)")];
      var shadow: Hash := [Column("id", "int"), Column("updated_at", "datetime"), Column("email", "varchar(100)")];
      && ExtraFields(base, shadow) == [Column("Email", "varchar(100)")]
      && ExtraFields(shadow, base) == [Column("email", "varchar(100)")]
      && ModifiedFields(base, shadow) == []
  {
    var id, upd := Column("id", "int"), Column("updated_at", "datetime");
    var upper, lower := Column("Email", "varchar(100)"), Column("email", "varchar(100)");
    assert upper.name != lower.name by {
      assert upper.name[0] != lower.name[0];
    }
    var common: Hash := [id, upd];
    var base: Hash := common + [upper];
    var shadow: Hash := common + [lower];
    assert base == [id, upd, upper] && shadow == [id, upd, lower];
    assert ToMap(base) == ToMap(common)[upper.name := upper.ctype] by {
      ToMapSnoc(common, upper);
    }
    assert ToMap(shadow) == ToMap(common)[lower.name := lower.ctype] by {
      ToMapSnoc(common, lower);
    }
    assert upper.name !in ToMap(common) && lower.name !in ToMap(common) by {
      assert ToMap(common).Keys == {id.name, upd.name};
      assert upper.name[0] != id.name[0] && upper.name[0] != upd.name[0];
      assert lower.name[0] != id.name[0] && lower.name[0] != upd.name[0];
    }
    CommonPrefixDiff(common, upper, lower);
  }

  /** Two hashes that share their leading entries and differ in one last
      name: each diff is that last entry alone. */
  lemma CommonPrefixDiff(common: Hash, x: Column, y: Column)
    requires x.name != y.name && x.name !in ToMap(common) && y.name !in ToMap(common)
    requires DistinctNames(common + [x]) && DistinctNames(common + [y])
    ensures ExtraFields(common + [x], common + [y]) == [x]
    ensures ExtraFields(common + [y], common + [x]) == [y]
    ensures ModifiedFields(common + [x], common + [y]) == []
  {
    LastEntryDiff(common, x, y);
    LastEntryDiff(common, y, x);
  }

  lemma LastEntryDiff(common: Hash, x: Column, y: Column)
    requires x.name != y.name && x.name !in ToMap(common) && y.name !in ToMap(common)
    requires DistinctNames(common + [x]) && DistinctNames(common + [y])
    ensures ExtraFields(common + [x], common + [y]) == [x]
    ensures ModifiedFields(common + [x], common + [y]) == []
  {
    var a: Hash, b: Hash := common + [x], common + [y];
    assert a[..|a| - 1] == common && a[|a| - 1] == x;
    ToMapSnoc(common, y);
    forall i | 0 <= i < |common|
      ensures common[i].name in ToMap(b) && ToMap(b)[common[i].name] == common[i].ctype
    {
      ToMapAt(common, i);
    }
    ExtraOfCovered(common, b);
    ModifiedOfAgreeing(common, b);
    assert x.name !in ToMap(b);
  }

  /** Nothing is extra in entries whose names the other hash all has. */
  lemma {:induction false} ExtraOfCovered(a: Hash, b: Hash)
    requires forall i :: 0 <= i < |a| ==> a[i].name in ToMap(b)
    ensures ExtraFields(a, b) == []
  {
    if a != [] {
      var init: Hash := a[..|a| - 1];
      ExtraOfCovered(init, b);
    }
  }

  /** Nothing is modified in entries the other hash maps to the same type. */
  lemma {:induction false} ModifiedOfAgreeing(a: Hash, b: Hash)
    requires forall i :: 0 <= i < |a| ==> a[i].name in ToMap(b) && ToMap(b)[a[i].name] == a[i].ctype
    ensures ModifiedFields(a, b) == []
  {
    if a != [] {
      var init: Hash := a[..|a| - 1];
      ModifiedOfAgreeing(init, b);
    }
  }

/* ---- SQL renderers ---- */

  /** The text `#{shadow_name}` interpolates to: empty for nil. */
  function ShadowNameText(d: TableDescription): string {
    d.shadowName.GetOr("")
  }

  /** The trigger a CREATE TRIGGER for `event` creates and the matching
      DROP TRIGGER removes: `<schema>.<base>_<event>`. */
  function TriggerName(schema: string, d: TableDescription, event: string): string {
    schema + "." + d.baseName + "_" + event
  }

  function TriggerBody(schema: string, d: TableDescription, event: string): string {
    "CREATE TRIGGER " + TriggerName(schema, d, event) + " "
    + "AFTER " + Upcase(event) + " ON " + schema + "." + d.baseName + " FOR EACH ROW "
    + "INSERT INTO " + schema + "." + ShadowNameText(d) + " ("
    + d.fieldList + " ) VALUES ("
    + d.newList + " )"
  }

  function InsertTriggerSql(schema: string, d: TableDescription): string {
    TriggerBody(schema, d, "insert")
  }

  function UpdateTriggerSql(schema: string, d: TableDescription): string {
    TriggerBody(schema, d, "update")
  }

  /** Does nothing, and raises nothing, when the trigger is absent. */
  function DropTriggerSql(schema: string, d: TableDescription, event: string): string {
    "DROP TRIGGER IF EXISTS " + TriggerName(schema, d, event)
  }

  function DropInsertSql(schema: string, d: TableDescription): string {
    DropTriggerSql(schema, d, "insert")
  }

  function DropUpdateSql(schema: string, d: TableDescription): string {
    DropTriggerSql(schema, d, "update")
  }

  /** The three clause procs of the main program. */
  datatype ClauseKind = AddClause | DropClause | ModifyClause

  /** A clause without the trailing comma its proc appends. */
  function Clause(kind: ClauseKind, c: Column): string {
    match kind
    case AddClause => " ADD COLUMN " + c.name + " " + c.ctype
    case DropClause => " DROP COLUMN " + c.name
    case ModifyClause => " MODIFY COLUMN " + c.name + " " + c.ctype
  }

  /** A clause names its column unambiguously: for a name without a space,
      two clauses of one kind are equal exactly when they name the same
      column, with the same type for ADD and MODIFY. */
  lemma ClauseReadsBack(kind: ClauseKind, c1: Column, c2: Column)
    requires ' ' !in c1.name && ' ' !in c2.name
    ensures Clause(kind, c1) == Clause(kind, c2) <==>
      c1.name == c2.name && (kind == DropClause || c1.ctype == c2.ctype)
  {
    if Clause(kind, c1) == Clause(kind, c2) {
      var keyword := match kind
        case AddClause => " ADD COLUMN "
        case DropClause => " DROP COLUMN "
        case ModifyClause => " MODIFY COLUMN ";
      if kind == DropClause {
        StripPrefix(keyword, c1.name, c2.name);
      } else {
        AppendAssoc(keyword, c1.name, " ");
        AppendAssoc(keyword, c1.name + " ", c1.ctype);
        AppendAssoc(c1.name, " ", c1.ctype);
        AppendAssoc(keyword, c2.name, " ");
        AppendAssoc(keyword, c2.name + " ", c2.ctype);
        AppendAssoc(c2.name, " ", c2.ctype);
        StripPrefix(keyword, c1.name + " " + c1.ctype, c2.name + " " + c2.ctype);
        SpaceSplit(c1.name, c1.ctype, c2.name, c2.ctype);
      }
    }
  }

  lemma StripPrefix<T>(p: seq<T>, u: seq<T>, v: seq<T>)
    requires p + u == p + v
    ensures u == v
  {
    assert u == (p + u)[|p|..];
  }

  /** Text split at its first space: the part before it is determined. */
  lemma SpaceSplit(a: string, x: string, b: string, y: string)
    requires ' ' !in a && ' ' !in b
    requires a + " " + x == b + " " + y
    ensures a == b && x == y
  {
    var s := a + " " + x;
    assert s[|a|] == ' ' && (b + " " + y)[|b|] == ' ';
    assert a == s[..|a|] && b == s[..|b|];
    assert x == s[|a| + 1..] && y == s[|b| + 1..];
  }

  function Clauses(kind: ClauseKind, h: Hash): seq<string> {
    seq(|h|, i requires 0 <= i < |h| => Clause(kind, h[i]))
  }

  /** `alter_table_sql`: the proc outputs (each ending in a comma) joined and
      chopped, after the receiver's shadow name.  The result is one clause
      per entry, in the hash's order, separated by commas. */
  function AlterTableSql(schema: string, d: TableDescription, fieldHash: Hash, kind: ClauseKind): (r: string)
    ensures r == "ALTER TABLE " + schema + "." + ShadowNameText(d) + Join(Clauses(kind, fieldHash), ",")
  {
    ChopTerminated(Clauses(kind, fieldHash), ',');
    "ALTER TABLE " + schema + "." + ShadowNameText(d) + Chop(Terminated(Clauses(kind, fieldHash), ","))
  }

  function CreateTableSql(schema: string, d: TableDescription): string {
    "CREATE TABLE " + schema + "." + ShadowNameText(d) + " (" + d.createFields + " )"
  }

  /** For an eligible table the trigger is `<table>_<event>`; it fires after
      that event on the table and copies the described columns, in order,
      from `new` into the shadow table `<table><suffix>`. */
  lemma RenderedStatements(opts: Options, tableName: string, rows: seq<Column>, event: string)
    requires Analyze(opts.shadowSuffix, tableName, rows).CanShadow()
    ensures var d := Analyze(opts.shadowSuffix, tableName, rows);
      var s := opts.schema;
      && TriggerName(s, d, event) == s + "." + tableName + "_" + event
      && TriggerBody(s, d, event) ==
           "CREATE TRIGGER " + TriggerName(s, d, event) + " "
           + "AFTER " + Upcase(event) + " ON " + s + "." + tableName + " FOR EACH ROW "
           + "INSERT INTO " + s + "." + (tableName + opts.shadowSuffix) + " ("
           + Join(FieldEntries(rows), ",") + " ) VALUES ("
           + Join(NewEntries(rows), ",") + " )"
  {
    var d := Analyze(opts.shadowSuffix, tableName, rows);
    assert d.shadowMatch.None? && d.baseName == tableName;
    assert ShadowNameText(d) == tableName + opts.shadowSuffix;
    assert d.fieldList == Join(FieldEntries(rows), ",");
    assert d.newList == Join(NewEntries(rows), ",");
  }

  /** For an eligible table the shadow table `<table><suffix>` is created
      with the described columns and types, in order. */
  lemma CreateTableRendering(opts: Options, tableName: string, rows: seq<Column>)
    requires Analyze(opts.shadowSuffix, tableName, rows).CanShadow()
    ensures var d := Analyze(opts.shadowSuffix, tableName, rows);
      CreateTableSql(opts.schema, d) ==
        "CREATE TABLE " + opts.schema + "." + (tableName + opts.shadowSuffix) + " (" + Join(CreateEntries(rows), ",") + " )"
  {
    var d := Analyze(opts.shadowSuffix, tableName, rows);
    assert ShadowNameText(d) == tableName + opts.shadowSuffix;
    assert d.createFields == Join(CreateEntries(rows), ",");
  }

  /** For an eligible table the DROP TRIGGER for an event names the very
      trigger the CREATE TRIGGER for that event creates,
      `<schema>.<table>_<event>`, so dropping and recreating rebuilds it
      under the same name. */
  lemma DropNamesCreatedTrigger(opts: Options, tableName: string, rows: seq<Column>, event: string)
    requires Analyze(opts.shadowSuffix, tableName, rows).CanShadow()
    ensures var d := Analyze(opts.shadowSuffix, tableName, rows);
      var name := TriggerName(opts.schema, d, event);
      && name == opts.schema + "." + tableName + "_" + event
      && DropTriggerSql(opts.schema, d, event) == "DROP TRIGGER IF EXISTS " + name
      && "CREATE TRIGGER " + name + " " <= TriggerBody(opts.schema, d, event)
  {
    var d := Analyze(opts.shadowSuffix, tableName, rows);
    assert d.shadowMatch.None? && d.baseName == tableName;
    TriggerNamed(opts.schema, d, event);
  }

  lemma TriggerNamed(schema: string, d: TableDescription, event: string)
    ensures var name := TriggerName(schema, d, event);
      && DropTriggerSql(schema, d, event) == "DROP TRIGGER IF EXISTS " + name
      && "CREATE TRIGGER " + name + " " <= TriggerBody(schema, d, event)
  {
  }

/* ---- the table registry ---- */

  /** `$tables.index { |item| item.table_name == shadow_name }`: the first
      position whose table name equals the key exactly (a nil key matches
      nothing). */
  function FindByName(registry: seq<TableDescription>, key: Option<string>): (ix: Option<nat>)
    ensures ix.Some? ==> ix.value < |registry| && Some(registry[ix.value].tableName) == key
    ensures forall j :: 0 <= j < |registry| && Some(registry[j].tableName) == key ==> ix.Some? && ix.value <= j
  {
    if registry == [] then None
    else if Some(registry[0].tableName) == key then Some(0)
    else
      match FindByName(registry[1..], key)
      case Some(i) => Some(i + 1)
      case None => None
  }
}
