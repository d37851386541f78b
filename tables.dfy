/** A polygon layer's attribute table: an ordered sequence of named
    columns of equal height, each cell as `astype(str)` renders it. */
module Tables {
  import opened Wrappers
  import opened Strings

  /** One attribute value: missing (NaN/None) or present with its text. */
  datatype Cell = Missing | Present(text: string)

  /** `astype(str)`: a missing float renders as "nan". */
  function Render(c: Cell): (s: string)
    ensures c.Present? ==> s == c.text
    ensures c.Missing? ==> s == "nan"
  {
    match c
    case Missing => "nan"
    case Present(t) => t
  }

  /** A column of strings, as assigned into the frame. */
  function Texts(ss: seq<string>): (cs: seq<Cell>)
    ensures |cs| == |ss|
    ensures forall r :: 0 <= r < |ss| ==> cs[r] == Present(ss[r]) && Render(cs[r]) == ss[r]
  {
    seq(|ss|, r requires 0 <= r < |ss| => Present(ss[r]))
  }

  datatype Column = Column(name: string, cells: seq<Cell>)

  datatype Table = Table(rows: nat, columns: seq<Column>)

  /** `gdf.columns`, in order. */
  function Names(t: Table): (ns: seq<string>)
    ensures |ns| == |t.columns|
    ensures forall i :: 0 <= i < |ns| ==> ns[i] == t.columns[i].name
  {
    seq(|t.columns|, i requires 0 <= i < |t.columns| => t.columns[i].name)
  }

  /** Every column is as tall as the table and no two share a name. */
  predicate Valid(t: Table) {
    && (forall i :: 0 <= i < |t.columns| ==> |t.columns[i].cells| == t.rows)
    && (forall i, j :: 0 <= i < j < |t.columns| ==> t.columns[i].name != t.columns[j].name)
  }

  /** Where the first column called `name` stands in `cols`. */
  function IndexOf(cols: seq<Column>, name: string): (i: nat)
    requires exists k :: 0 <= k < |cols| && cols[k].name == name
    ensures i < |cols| && cols[i].name == name
    ensures forall j :: 0 <= j < i ==> cols[j].name != name
  {
    if cols[0].name == name then 0
    else
      var k :| 0 <= k < |cols| && cols[k].name == name;
      assert cols[1..][k - 1].name == name;
      1 + IndexOf(cols[1..], name)
  }

  function ColumnIndex(t: Table, name: string): (i: nat)
    requires name in Names(t)
    ensures i < |t.columns| && t.columns[i].name == name
    ensures forall j :: 0 <= j < i ==> t.columns[j].name != name
  {
    var k :| 0 <= k < |Names(t)| && Names(t)[k] == name;
    IndexOf(t.columns, name)
  }

  /** `gdf[name]`. */
  function CellsOf(t: Table, name: string): (cs: seq<Cell>)
    requires Valid(t) && name in Names(t)
    ensures |cs| == t.rows
  {
    t.columns[ColumnIndex(t, name)].cells
  }

  /** In a valid table a name's index is the one position holding it. */
  lemma ColumnIndexOf(t: Table, i: int)
    requires Valid(t) && 0 <= i < |t.columns|
    ensures t.columns[i].name in Names(t) && ColumnIndex(t, t.columns[i].name) == i
  {
    assert Names(t)[i] == t.columns[i].name;
  }

  /** The column names after assigning `name`: unchanged when it is
      already a column, otherwise `name` joins at the end. */
  function AddName(ns: seq<string>, name: string): (r: seq<string>)
    ensures name in r && forall n :: n in r <==> n in ns || n == name
  {
    if name in ns then ns else ns + [name]
  }

  /** `gdf[name] = cells`: an existing column is overwritten where it
      stands, a new one is appended at the end. */
  function SetColumn(t: Table, name: string, cells: seq<Cell>): (r: Table)
    requires Valid(t) && |cells| == t.rows
    ensures Valid(r) && r.rows == t.rows
    ensures Names(r) == AddName(Names(t), name)
    ensures name in Names(r) && CellsOf(r, name) == cells
    ensures forall n :: n in Names(t) && n != name ==> CellsOf(r, n) == CellsOf(t, n)
  {
    var r := if name in Names(t) then Table(t.rows, t.columns[ColumnIndex(t, name) := Column(name, cells)])
             else Table(t.rows, t.columns + [Column(name, cells)]);
    SetColumnFacts(t, name, cells, r);
    r
  }

  lemma SetColumnFacts(t: Table, name: string, cells: seq<Cell>, r: Table)
    requires Valid(t) && |cells| == t.rows
    requires r == if name in Names(t) then Table(t.rows, t.columns[ColumnIndex(t, name) := Column(name, cells)])
                  else Table(t.rows, t.columns + [Column(name, cells)])
    ensures Valid(r) && r.rows == t.rows
    ensures Names(r) == if name in Names(t) then Names(t) else Names(t) + [name]
    ensures name in Names(r) && CellsOf(r, name) == cells
    ensures forall n :: n in Names(t) && n != name ==> CellsOf(r, n) == CellsOf(t, n)
  {
    var k := if name in Names(t) then ColumnIndex(t, name) else |t.columns|;
    assert forall i :: 0 <= i < |r.columns| && i != k ==> r.columns[i] == t.columns[i];
    assert r.columns[k] == Column(name, cells);
    assert Names(r) == if name in Names(t) then Names(t) else Names(t) + [name];
    ColumnIndexOf(r, k);
    forall n | n in Names(t) && n != name ensures CellsOf(r, n) == CellsOf(t, n) {
      var i := ColumnIndex(t, n);
      ColumnIndexOf(r, i);
    }
  }

  /** Assigning a column its own cells changes nothing. */
  lemma SetColumnSame(t: Table, name: string)
    requires Valid(t) && name in Names(t)
    ensures SetColumn(t, name, CellsOf(t, name)) == t
  {
    var i := ColumnIndex(t, name);
    assert t.columns[i := Column(name, CellsOf(t, name))] == t.columns;
  }

  // ------------------------------------------------- normalize_keys_upper

  /** The lookup key of a column name: upper-cased, then stripped. */
  function Key(name: string): string {
    Strip(Upper(name))
  }

  /** `names[i]` is the last name whose key under `key` is `k`. */
  predicate LastWithKey(key: string -> string, names: seq<string>, k: string, i: int) {
    && 0 <= i < |names|
    && key(names[i]) == k
    && forall j :: i < j < |names| ==> key(names[j]) != k
  }

  /** The dictionary comprehension `{key(c): c for c in names}`. */
  function KeyMap(key: string -> string, names: seq<string>): (m: map<string, string>)
    ensures forall k :: k in m ==> m[k] in names
  {
    if names == [] then map[]
    else
      var init := names[..|names| - 1];
      assert forall i :: 0 <= i < |init| ==> names[i] == init[i];
      KeyMap(key, init)[key(names[|names| - 1]) := names[|names| - 1]]
  }

  /** Every name's key is present, and each key maps to a name that has it. */
  lemma {:induction false} KeyMapKeys(key: string -> string, names: seq<string>)
    ensures forall i :: 0 <= i < |names| ==> key(names[i]) in KeyMap(key, names)
    ensures forall k :: k in KeyMap(key, names) ==> key(KeyMap(key, names)[k]) == k
  {
    if names != [] {
      var init := names[..|names| - 1];
      KeyMapKeys(key, init);
      assert forall i :: 0 <= i < |init| ==> names[i] == init[i];
    }
  }

  /** Of two names with one key, the later one wins. */
  lemma {:induction false} KeyMapLastWins(key: string -> string, names: seq<string>, k: string)
    requires k in KeyMap(key, names)
    ensures exists i :: LastWithKey(key, names, k, i) && names[i] == KeyMap(key, names)[k]
  {
    var last := names[|names| - 1];
    var init := names[..|names| - 1];
    var m0 := KeyMap(key, init);
    if key(last) == k {
      assert LastWithKey(key, names, k, |names| - 1);
    } else {
      assert k in m0;
      KeyMapLastWins(key, init, k);
      var i :| LastWithKey(key, init, k, i) && init[i] == m0[k];
      assert forall j :: i <= j < |names| - 1 ==> names[j] == init[j];
      assert LastWithKey(key, names, k, i);
    }
  }

  /** `normalize_keys_upper`: each column's key (upper-cased, stripped)
      mapped to the column's own name. */
  function NormalizeKeys(names: seq<string>): (m: map<string, string>)
    ensures forall k :: k in m ==> m[k] in names
  {
    KeyMap(Key, names)
  }

  /** Every column is reachable through its key, and each key leads to a
      column that has it. */
  lemma NormalizeKeysKeys(names: seq<string>)
    ensures forall i :: 0 <= i < |names| ==> Key(names[i]) in NormalizeKeys(names)
    ensures forall k :: k in NormalizeKeys(names) ==> Key(NormalizeKeys(names)[k]) == k
  {
    KeyMapKeys(Key, names);
  }

  /** Of two column names with one key, the later one is the one kept. */
  lemma NormalizeKeysLastWins(names: seq<string>, k: string)
    requires k in NormalizeKeys(names)
    ensures exists i :: LastWithKey(Key, names, k, i) && names[i] == NormalizeKeys(names)[k]
  {
    KeyMapLastWins(Key, names, k);
  }

  /** `names[i]` is the first alias that is a key of `cmap`. */
  predicate FirstHit(aliases: seq<string>, cmap: map<string, string>, i: int) {
    && 0 <= i < |aliases|
    && aliases[i] in cmap
    && forall j :: 0 <= j < i ==> aliases[j] !in cmap
  }

  /** `next((cmap[x] for x in aliases if x in cmap), None)`: the column
      that the first alias present in `cmap` stands for. */
  function FirstPresent(aliases: seq<string>, cmap: map<string, string>): (r: Option<string>)
    ensures r.None? <==> forall i :: 0 <= i < |aliases| ==> aliases[i] !in cmap
    ensures r.Some? ==> r.value in cmap.Values
    ensures r.Some? ==> exists i :: FirstHit(aliases, cmap, i) && r.value == cmap[aliases[i]]
  {
    if aliases == [] then None
    else if aliases[0] in cmap then
      assert FirstHit(aliases, cmap, 0);
      Some(cmap[aliases[0]])
    else
      var r := FirstPresent(aliases[1..], cmap);
      if r.Some? then
        var i :| FirstHit(aliases[1..], cmap, i) && r.value == cmap[aliases[1..][i]];
        assert FirstHit(aliases, cmap, i + 1);
        r
      else r
  }

  /** The first hit is unique, so it names the one column the lookup returns. */
  lemma {:induction false} FirstHitUnique(aliases: seq<string>, cmap: map<string, string>, i: int, j: int)
    requires FirstHit(aliases, cmap, i) && FirstHit(aliases, cmap, j)
    ensures i == j
  {
  }

  /** The lookup returns the column of the first hit. */
  lemma FirstPresentAt(aliases: seq<string>, cmap: map<string, string>, i: int)
    requires FirstHit(aliases, cmap, i)
    ensures FirstPresent(aliases, cmap) == Some(cmap[aliases[i]])
  {
    var j :| FirstHit(aliases, cmap, j) && FirstPresent(aliases, cmap).value == cmap[aliases[j]];
    FirstHitUnique(aliases, cmap, i, j);
  }

  /** The lookup only looks at the aliases: two maps that agree on them
      give the same column. */
  lemma {:induction false} FirstPresentAgrees(aliases: seq<string>, m1: map<string, string>, m2: map<string, string>)
    requires forall i :: 0 <= i < |aliases| ==> (aliases[i] in m1 <==> aliases[i] in m2)
    requires forall i :: 0 <= i < |aliases| && aliases[i] in m1 ==> m1[aliases[i]] == m2[aliases[i]]
    ensures FirstPresent(aliases, m1) == FirstPresent(aliases, m2)
  {
    if aliases != [] && aliases[0] !in m1 {
      FirstPresentAgrees(aliases[1..], m1, m2);
    }
  }

  /** Appending a column only rebinds that column's key. */
  lemma NormalizeKeysAppend(names: seq<string>, x: string)
    ensures NormalizeKeys(names + [x]) == NormalizeKeys(names)[Key(x) := x]
  {
    assert (names + [x])[..|names|] == names;
  }

  /** Rebinding a key that is not an alias leaves the lookup unchanged. */
  lemma FirstPresentIgnoresRebind(aliases: seq<string>, m: map<string, string>, k: string, v: string)
    requires k !in aliases
    ensures FirstPresent(aliases, m[k := v]) == FirstPresent(aliases, m)
  {
    FirstPresentAgrees(aliases, m[k := v], m);
  }

  /** Setting a column whose name is its own key and not an alias does not
      change what an alias lookup on the recomputed keys finds. */
  lemma FirstPresentAfterSetColumn(t: Table, x: string, cells: seq<Cell>, aliases: seq<string>)
    requires Valid(t) && |cells| == t.rows
    requires Key(x) == x && x !in aliases
    ensures FirstPresent(aliases, NormalizeKeys(Names(SetColumn(t, x, cells))))
      == FirstPresent(aliases, NormalizeKeys(Names(t)))
  {
    if x !in Names(t) {
      NormalizeKeysAppend(Names(t), x);
      FirstPresentIgnoresRebind(aliases, NormalizeKeys(Names(t)), x, x);
    }
  }
}
