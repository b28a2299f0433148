/** The columns of a table as DESCRIBE reports them, and the insertion-ordered
    Ruby Hash from field name to type string that the tool keeps of them. */
module FieldHash {

  /** One DESCRIBE row, reduced to the Field and Type columns the tool reads;
      the type is an opaque string compared with exact equality. */
  datatype Column = Column(name: string, ctype: string)

  predicate DistinctNames(cols: seq<Column>) {
    forall i, j :: 0 <= i < j < |cols| ==> cols[i].name != cols[j].name
  }

  /** A Ruby Hash from field name to type: one entry per name, kept in the
      order the names were first inserted. */
  type Hash = h: seq<Column> | DistinctNames(h)

  /** The set of field names among the columns. */
  function Names(cols: seq<Column>): set<string> {
    if cols == [] then {} else Names(cols[..|cols| - 1]) + {cols[|cols| - 1].name}
  }

  lemma {:induction false} NamesAt(cols: seq<Column>, i: nat)
    requires i < |cols|
    ensures cols[i].name in Names(cols)
  {
    if i < |cols| - 1 {
      NamesAt(cols[..|cols| - 1], i);
    }
  }

  lemma {:induction false} NamesWitness(cols: seq<Column>, n: string) returns (i: nat)
    requires n in Names(cols)
    ensures i < |cols| && cols[i].name == n
  {
    var init := cols[..|cols| - 1];
    if n in Names(init) {
      i := NamesWitness(init, n);
    } else {
      i := |cols| - 1;
    }
  }

  /** The name-to-type map the columns denote; a later column overrides an
      earlier one of the same name, as successive `h[name] = type` do. */
  function ToMap(cols: seq<Column>): (m: map<string, string>)
    ensures m.Keys == Names(cols)
    ensures m == map[] <==> cols == []
  {
    if cols == [] then map[]
    else ToMap(cols[..|cols| - 1])[cols[|cols| - 1].name := cols[|cols| - 1].ctype]
  }

  lemma SplitLast<T>(s: seq<T>)
    requires s != []
    ensures s == s[..|s| - 1] + [s[|s| - 1]]
  {
  }

  /** Sequence concatenation regroups freely. */
  lemma AppendAssoc<T>(a: seq<T>, b: seq<T>, c: seq<T>)
    ensures a + b + c == a + (b + c)
  {
  }

  /** `r` is `a` with some elements left out and the rest kept in order. */
  predicate IsSubsequence<T(==)>(r: seq<T>, a: seq<T>)
    decreases |a|
  {
    if a == [] then r == []
    else
      || (r != [] && r[|r| - 1] == a[|a| - 1] && IsSubsequence(r[..|r| - 1], a[..|a| - 1]))
      || IsSubsequence(r, a[..|a| - 1])
  }

  /** A subsequence stays one when an element is appended to the whole,
      with or without appending it to the part too. */
  lemma SubsequenceSnoc<T>(r: seq<T>, a: seq<T>, x: T)
    requires IsSubsequence(r, a)
    ensures IsSubsequence(r, a + [x]) && IsSubsequence(r + [x], a + [x])
  {
    assert (a + [x])[..|a|] == a && (r + [x])[..|r|] == r;
  }

  /** Appending one column updates the map at its name. */
  lemma ToMapSnoc(cols: seq<Column>, c: Column)
    ensures ToMap(cols + [c]) == ToMap(cols)[c.name := c.ctype]
  {
    assert (cols + [c])[..|cols|] == cols;
  }

  /** The last entry of a Hash has a name no earlier entry has. */
  lemma LastNameFresh(h: Hash)
    requires h != []
    ensures h[|h| - 1].name !in Names(h[..|h| - 1])
  {
    var n := |h|;
    if h[n - 1].name in Names(h[..n - 1]) {
      var i := NamesWitness(h[..n - 1], h[n - 1].name);
      assert false;
    }
  }

  /** Appending a column with a new name keeps the names distinct and adds
      one entry to the map. */
  lemma Snoc(h: Hash, c: Column)
    requires c.name !in Names(h)
    ensures DistinctNames(h + [c])
    ensures ToMap(h + [c]) == ToMap(h)[c.name := c.ctype]
  {
    forall i | 0 <= i < |h| ensures h[i].name != c.name {
      NamesAt(h, i);
    }
    assert (h + [c])[..|h|] == h;
  }

  /** In a Hash every entry is what the map says for its name. */
  lemma {:induction false} ToMapAt(h: Hash, i: nat)
    requires i < |h|
    ensures h[i].name in ToMap(h) && ToMap(h)[h[i].name] == h[i].ctype
  {
    NamesAt(h, i);
    var n := |h|;
    if i < n - 1 {
      var init: Hash := h[..n - 1];
      ToMapAt(init, i);
      assert h[i].name != h[n - 1].name;
    }
  }

  /** A Hash holds an entry exactly when its map agrees with it. */
  lemma InHash(h: Hash, c: Column)
    ensures c in h <==> c.name in ToMap(h) && ToMap(h)[c.name] == c.ctype
  {
    if c in h {
      var i :| 0 <= i < |h| && h[i] == c;
      ToMapAt(h, i);
    }
    if c.name in ToMap(h) && ToMap(h)[c.name] == c.ctype {
      var i := NamesWitness(h, c.name);
      ToMapAt(h, i);
      assert h[i] == c;
    }
  }

  lemma MapUnionUpdate(x: map<string, string>, y: map<string, string>, k: string, v: string)
    ensures (x + y)[k := v] == x + y[k := v]
  {
  }

  lemma {:induction false} ToMapAppend(a: seq<Column>, b: seq<Column>)
    ensures ToMap(a + b) == ToMap(a) + ToMap(b)
  {
    if b == [] {
      assert a + b == a;
    } else {
      var n := |b|;
      var last, init := b[n - 1], b[..n - 1];
      ToMapAppend(a, init);
      SplitLast(b);
      AppendAssoc(a, init, [last]);
      ToMapSnoc(a + init, last);
      ToMapSnoc(init, last);
      MapUnionUpdate(ToMap(a), ToMap(init), last.name, last.ctype);
    }
  }

  /** Every entry named `k` with its type replaced by `v`, in place: the
      names stay where they were. */
  function Retype(cols: seq<Column>, k: string, v: string): (r: seq<Column>)
    ensures |r| == |cols|
    ensures forall i :: 0 <= i < |cols| ==> r[i].name == cols[i].name
    ensures forall i :: 0 <= i < |cols| ==> r[i].ctype == if cols[i].name == k then v else cols[i].ctype
  {
    if cols == [] then []
    else
      var n := |cols|;
      var r0 := Retype(cols[..n - 1], k, v);
      var c := if cols[n - 1].name == k then Column(k, v) else cols[n - 1];
      assert forall i | 0 <= i < n - 1 :: (r0 + [c])[i] == r0[i];
      r0 + [c]
  }

  /** Retyping changes the map at `k` when `k` is present and nowhere else. */
  lemma {:induction false} RetypeMap(cols: seq<Column>, k: string, v: string)
    ensures ToMap(Retype(cols, k, v)) == if k in ToMap(cols) then ToMap(cols)[k := v] else ToMap(cols)
  {
    if cols != [] {
      var n := |cols|;
      var last := cols[n - 1];
      var init := cols[..n - 1];
      RetypeMap(init, k, v);
      var c := if last.name == k then Column(k, v) else last;
      SplitLast(cols);
      assert Retype(cols, k, v) == Retype(init, k, v) + [c];
      ToMapSnoc(init, last);
      ToMapSnoc(Retype(init, k, v), c);
      RetypeLast(ToMap(init), k, v, last);
    }
  }

  /** The map-level step of `Retype`: retyping and then adding the last
      column commute. */
  lemma RetypeLast(m: map<string, string>, k: string, v: string, last: Column)
    ensures var c := if last.name == k then Column(k, v) else last;
            var m1 := m[last.name := last.ctype];
            (if k in m then m[k := v] else m)[c.name := c.ctype] == if k in m1 then m1[k := v] else m1
  {
    if last.name != k && k in m {
      assert m[k := v][last.name := last.ctype] == m[last.name := last.ctype][k := v];
    }
  }

  /** Ruby's `h[k] = v`: an existing entry keeps its place and takes the new
      type; a new name goes to the end. */
  function Put(h: Hash, k: string, v: string): (r: Hash)
    ensures ToMap(r) == ToMap(h)[k := v]
    ensures k in ToMap(h) ==> |r| == |h| && forall i :: 0 <= i < |h| ==>
      r[i].name == h[i].name && r[i].ctype == if h[i].name == k then v else h[i].ctype
    ensures k !in ToMap(h) ==> r == h + [Column(k, v)]
  {
    if k in ToMap(h) then
      RetypeMap(h, k, v);
      Retype(h, k, v)
    else
      var r := h + [Column(k, v)];
      assert r[..|h|] == h;
      assert DistinctNames(r) by {
        forall i | 0 <= i < |h| ensures h[i].name != k {
          NamesAt(h, i);
        }
      }
      r
  }

  /** The Hash built by inserting every row in order, as the describe loop
      does with `@fields[info["Field"]] = info["Type"]`: it denotes the same
      map as the rows, and when DESCRIBE reports each name once it is exactly
      the rows, in the same order. */
  function HashOf(rows: seq<Column>): (h: Hash)
    ensures ToMap(h) == ToMap(rows)
    ensures DistinctNames(rows) ==> h == rows
  {
    if rows == [] then []
    else
      var n := |rows|;
      var last := rows[n - 1];
      var init := rows[..n - 1];
      var h0 := HashOf(init);
      SplitLast(rows);
      ToMapSnoc(init, last);
      assert DistinctNames(rows) ==> DistinctNames(init) && last.name !in Names(init) by {
        if DistinctNames(rows) {
          DistinctSnoc(init, last);
        }
      }
      Put(h0, last.name, last.ctype)
  }

  /** A column sequence with distinct names splits into distinct names and a
      last name that is new. */
  lemma DistinctSnoc(init: seq<Column>, last: Column)
    requires DistinctNames(init + [last])
    ensures DistinctNames(init) && last.name !in Names(init)
  {
    var rows := init + [last];
    assert rows[|init|] == last;
    forall i, j | 0 <= i < j < |init| ensures init[i].name != init[j].name {
      assert rows[i] == init[i] && rows[j] == init[j];
    }
    forall i | 0 <= i < |init| ensures init[i].name != last.name {
      assert rows[i] == init[i];
    }
    if last.name in Names(init) {
      var i := NamesWitness(init, last.name);
      assert false;
    }
  }
}
