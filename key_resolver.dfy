/** Finding or building the six-character district code (`UBIGEO_OK`) of a
    polygon layer, and choosing its display name (`NOMBRE_OK`). Three
    strategies are tried in order and the first that applies wins: a direct
    code column, a code composed of department/province/district parts, and
    a scan for a column that mostly holds six-digit strings. */
module KeyResolver {
  import opened Wrappers
  import opened Strings
  import opened Tables

  /** Column keys accepted as a ready-made district code, in priority order. */
  const DirectAliases: seq<string> := ["UBIGEO", "UBIGEO_DIST", "UBIGEO_D", "UBI_DIST", "CODUBIGEO",
    "COD_UBIGEO", "ID_UBIGEO", "CODIGO_UBIGEO", "UBIGEO6", "UBIGEO_6", "CODDIST", "ID_DIST",
    "COD_DIST", "COD_DISTRITO"]
  const DeptAliases: seq<string> := ["CCDD", "CODDPTO", "COD_DEPA", "DEPARTAMENTO_ID", "ID_DPTO", "DPTO"]
  const ProvAliases: seq<string> := ["CCPP", "CODPROV", "COD_PROV", "PROVINCIA_ID", "ID_PROV", "PROV"]
  const DistAliases: seq<string> := ["CCDI", "CODDIST", "COD_DIST", "DISTRITO_ID", "ID_DIST", "DIST"]
  /** Column keys accepted as the district's name, in priority order. */
  const NameAliases: seq<string> := ["NOMBDIST", "NOMB_DIST", "NOMBRE", "DIST_NAME", "DISTRITO",
    "NOM_DIST", "NAME"]

  /** The one fatal outcome: no strategy yields a district code. */
  datatype KeyError = NoDistrictCode

  /** Stands for `pd.to_numeric` on one value: `Some(x)` when the text reads
      as the finite number `x`, `None` when coercion gives NaN. */
  type NumberParser = string -> Option<real>

  /** Stands for `strip_accents_upper`. */
  type AccentStripper = string -> string

  /** Python truthiness of a column name found by `next(..., None)`. */
  predicate Truthy(col: Option<string>) {
    col.Some? && col.value != ""
  }

  // ------------------------------------------------ strategy 1: direct code

  /** `astype(int)`: truncation toward zero. */
  function Trunc(x: real): (n: int)
    ensures 0.0 <= x ==> 0 <= n && n as real <= x < n as real + 1.0
    ensures x < 0.0 ==> n <= 0 && n as real - 1.0 < x <= n as real
  {
    if x >= 0.0 then x.Floor else -((-x).Floor)
  }

  /** `pd.to_numeric(errors='coerce').fillna(-1).astype(int)` on one cell. */
  function Coerce(parse: NumberParser, c: Cell): (n: int)
    ensures c.Missing? ==> n == -1
    ensures c.Present? && parse(c.text).None? ==> n == -1
    ensures c.Present? && parse(c.text).Some? && 0.0 <= parse(c.text).value ==>
      0 <= n && n as real <= parse(c.text).value < n as real + 1.0
    ensures c.Present? && parse(c.text).Some? && parse(c.text).value < 0.0 ==>
      n <= 0 && n as real - 1.0 < parse(c.text).value <= n as real
  {
    match c
    case Missing => -1
    case Present(s) =>
      match parse(s)
      case Some(x) => Trunc(x)
      case None => -1
  }

  /** `str(n).zfill(6)`. */
  function DirectCode(n: int): string {
    ZFill(IntToString(n), 6)
  }

  lemma {:induction false} Pow10Monotone(j: nat, k: nat)
    requires j <= k
    ensures Pow10(j) <= Pow10(k)
  {
    if j < k {
      Pow10Monotone(j, k - 1);
    }
  }

  /** A natural number has at most `k` digits exactly when it is below `10^k`. */
  lemma NatToStringLength(m: nat, k: nat)
    requires k >= 1
    ensures |NatToString(m)| <= k <==> m < Pow10(k)
  {
    var s := NatToString(m);
    DigitsValueBounds(s);
    if |s| <= k {
      Pow10Monotone(|s|, k);
    } else {
      Pow10Monotone(k, |s| - 1);
    }
  }

  /** The code of a direct column is at least six characters, exactly six
      for -99999..999999, six digits exactly for 0..999999, and it reads
      back as the number it was made from. */
  lemma DirectCodeMeaning(n: int)
    ensures |DirectCode(n)| >= 6
    ensures |DirectCode(n)| == 6 <==> -99999 <= n <= 999999
    ensures IsSixDigits(DirectCode(n)) <==> 0 <= n <= 999999
    ensures IsSignedDigits(DirectCode(n)) && SignedValue(DirectCode(n)) == n
  {
    var s := IntToString(n);
    IntToStringValue(n);
    ZFillValue(s, 6);
    assert Pow10(5) == 100000 && Pow10(6) == 1000000;
    if n < 0 {
      NatToStringLength(-n, 5);
      assert DirectCode(n)[0] == '-';
    } else {
      NatToStringLength(n, 6);
      assert AllDigits(DirectCode(n)) by {
        if |s| < 6 {
          assert DirectCode(n) == Zeros(6 - |s|) + s;
        }
      }
    }
  }

  /** The sentinel for a non-numeric value keeps its sign in front. */
  lemma SentinelCode()
    ensures DirectCode(-1) == "-00001"
  {
    assert NatToString(1) == "1";
    assert IntToString(-1) == "-1";
    assert Zeros(4) == "0000";
  }

  function DirectCodes(parse: NumberParser, cells: seq<Cell>): (ids: seq<string>)
    ensures |ids| == |cells|
    ensures forall r :: 0 <= r < |cells| ==> ids[r] == DirectCode(Coerce(parse, cells[r]))
  {
    seq(|cells|, r requires 0 <= r < |cells| => DirectCode(Coerce(parse, cells[r])))
  }

  // --------------------------------------------- strategy 2: composite code

  /** One part: the first digit run of the rendered cell, zero-filled to 2. */
  function CompositePart(c: Cell): string {
    ZFill(DigitRun(Render(c)), 2)
  }

  /** A part is all digits, has the value of the digit run it came from, and
      is that run itself when the run has two or more digits. */
  lemma CompositePartMeaning(c: Cell)
    ensures AllDigits(CompositePart(c))
    ensures DigitsValue(CompositePart(c)) == DigitsValue(DigitRun(Render(c)))
    ensures |DigitRun(Render(c))| >= 2 ==> CompositePart(c) == DigitRun(Render(c))
    ensures |DigitRun(Render(c))| <= 2 ==> |CompositePart(c)| == 2
  {
    var run := DigitRun(Render(c));
    if |run| < 2 {
      assert run == [] || !(run[0] == '-' || run[0] == '+');
      assert CompositePart(c) == Zeros(2 - |run|) + run;
      LeadingZerosValue(2 - |run|, run);
    }
  }

  /** `dept + prov + dist` for one row. */
  function CompositeCode(d: Cell, p: Cell, q: Cell): string {
    CompositePart(d) + CompositePart(p) + CompositePart(q)
  }

  lemma PairsSlice(a: string, b: string, c: string)
    requires |a| == 2 && |b| == 2 && |c| == 2
    ensures (a + b + c)[0..2] == a && (a + b + c)[2..4] == b && (a + b + c)[4..6] == c
  {
  }

  /** Three two-digit strings make a six-digit one whose pairs they are. */
  lemma PairsSixDigits(a: string, b: string, c: string)
    requires |a| == 2 && |b| == 2 && |c| == 2 && AllDigits(a) && AllDigits(b) && AllDigits(c)
    ensures IsSixDigits(a + b + c)
    ensures (a + b + c)[0..2] == a && (a + b + c)[2..4] == b && (a + b + c)[4..6] == c
  {
    PairsSlice(a, b, c);
    var s := a + b + c;
    forall i | 0 <= i < 6 ensures IsDigit(s[i]) {
      if i < 2 { assert s[i] == a[i]; }
      else if i < 4 { assert s[i] == b[i - 2]; }
      else { assert s[i] == c[i - 4]; }
    }
  }

  /** When each part has at most two digits, the code is six digits and its
      three pairs give back the department, province and district numbers. */
  lemma {:induction false} CompositeCodeSplits(d: Cell, p: Cell, q: Cell)
    requires |DigitRun(Render(d))| <= 2 && |DigitRun(Render(p))| <= 2 && |DigitRun(Render(q))| <= 2
    ensures IsSixDigits(CompositeCode(d, p, q))
    ensures AllDigits(CompositeCode(d, p, q)[0..2])
      && DigitsValue(CompositeCode(d, p, q)[0..2]) == DigitsValue(DigitRun(Render(d)))
    ensures AllDigits(CompositeCode(d, p, q)[2..4])
      && DigitsValue(CompositeCode(d, p, q)[2..4]) == DigitsValue(DigitRun(Render(p)))
    ensures AllDigits(CompositeCode(d, p, q)[4..6])
      && DigitsValue(CompositeCode(d, p, q)[4..6]) == DigitsValue(DigitRun(Render(q)))
  {
    CompositePartMeaning(d);
    CompositePartMeaning(p);
    CompositePartMeaning(q);
    PairsSixDigits(CompositePart(d), CompositePart(p), CompositePart(q));
  }

  /** A part made of one or two digits is kept, zero-filled to two. */
  lemma {:induction false} CompositePartOfDigits(s: string)
    requires AllDigits(s) && 1 <= |s| <= 2
    ensures CompositePart(Present(s)) == Zeros(2 - |s|) + s
  {
    assert FirstDigitIndex(s) == 0;
    assert s[0..] == s;
  }

  /** A one-digit part gets one leading zero; a two-digit part is kept. */
  lemma CompositePartPadded(s: string)
    requires AllDigits(s) && 1 <= |s| <= 2
    ensures CompositePart(Present(s)) == if |s| == 1 then ['0'] + s else s
  {
    CompositePartOfDigits(s);
    assert Zeros(0) == [] && Zeros(1) == ['0'];
  }

  /** Department "15", province "1", district "3" give "150103". */
  lemma CompositeExample(d: string, p: string, q: string)
    requires d == "15" && p == "1" && q == "3"
    ensures CompositeCode(Present(d), Present(p), Present(q)) == "150103"
  {
    CompositePartPadded(d);
    CompositePartPadded(p);
    CompositePartPadded(q);
  }

  function CompositeCodes(ds: seq<Cell>, ps: seq<Cell>, qs: seq<Cell>): (ids: seq<string>)
    requires |ds| == |ps| == |qs|
    ensures |ids| == |ds|
    ensures forall r :: 0 <= r < |ds| ==> ids[r] == CompositeCode(ds[r], ps[r], qs[r])
  {
    seq(|ds|, r requires 0 <= r < |ds| => CompositeCode(ds[r], ps[r], qs[r]))
  }

  // ----------------------------------------------- strategy 3: pattern scan

  /** `astype(str).str.strip()` of a column. */
  function StrippedCells(cells: seq<Cell>): (ss: seq<string>)
    ensures |ss| == |cells|
    ensures forall r :: 0 <= r < |cells| ==> ss[r] == Strip(Render(cells[r]))
  {
    seq(|cells|, r requires 0 <= r < |cells| => Strip(Render(cells[r])))
  }

  /** How many of `ss` fully match `\d{6}`. */
  function CountSixDigits(ss: seq<string>): (n: nat)
    ensures n <= |ss|
  {
    if ss == [] then 0
    else CountSixDigits(ss[..|ss| - 1]) + (if IsSixDigits(ss[|ss| - 1]) then 1 else 0)
  }

  /** `s.str.fullmatch(r'\d{6}').mean() > 0.8`, over all `rows` rows. */
  predicate Qualifies(col: Column, rows: nat) {
    5 * CountSixDigits(StrippedCells(col.cells)) > 4 * rows
  }

  /** The first column at or after position `k` that qualifies. */
  function FirstQualifyingFrom(cols: seq<Column>, rows: nat, k: nat): (r: Option<nat>)
    requires k <= |cols|
    ensures r.None? <==> forall c :: k <= c < |cols| ==> !Qualifies(cols[c], rows)
    ensures r.Some? ==> k <= r.value < |cols| && Qualifies(cols[r.value], rows)
    ensures r.Some? ==> forall c :: k <= c < r.value ==> !Qualifies(cols[c], rows)
    decreases |cols| - k
  {
    if k == |cols| then None
    else if Qualifies(cols[k], rows) then Some(k)
    else FirstQualifyingFrom(cols, rows, k + 1)
  }

  /** The first column, in column order, that qualifies. */
  function FirstQualifying(cols: seq<Column>, rows: nat): (r: Option<nat>)
    ensures r.None? <==> forall c :: 0 <= c < |cols| ==> !Qualifies(cols[c], rows)
    ensures r.Some? ==> r.value < |cols| && Qualifies(cols[r.value], rows)
    ensures r.Some? ==> forall c :: 0 <= c < r.value ==> !Qualifies(cols[c], rows)
  {
    FirstQualifyingFrom(cols, rows, 0)
  }

  // ------------------------------------------------------------ resolution

  /** What the strategies need of the column-name map: it leads to columns
      of `t`, and a non-empty key leads to a non-empty name. */
  predicate ColumnMap(cmap: map<string, string>, t: Table) {
    forall k :: k in cmap ==> cmap[k] in Names(t) && (k != "" ==> cmap[k] != "")
  }

  /** `normalize_keys_upper` gives such a map: a key is a stripped name,
      never longer than the name. */
  lemma NormalizeKeysIsColumnMap(t: Table)
    ensures ColumnMap(NormalizeKeys(Names(t)), t)
  {
    var cmap := NormalizeKeys(Names(t));
    NormalizeKeysKeys(Names(t));
    forall k | k in cmap ensures k != "" ==> cmap[k] != "" {
      assert |Upper(cmap[k])| == |cmap[k]|;
    }
  }

  /** Lines 42-45: the department, province and district columns, when the
      three lookups all find a (non-empty) column name. */
  function CompositeColumns(cmap: map<string, string>): (r: Option<(string, string, string)>)
    ensures r.Some? ==> r.value.0 in cmap.Values && r.value.1 in cmap.Values && r.value.2 in cmap.Values
  {
    var dd := FirstPresent(DeptAliases, cmap);
    var pp := FirstPresent(ProvAliases, cmap);
    var di := FirstPresent(DistAliases, cmap);
    if Truthy(dd) && Truthy(pp) && Truthy(di) then Some((dd.value, pp.value, di.value)) else None
  }

  /** The three strategies and the failure, given the column-name map. */
  function Resolve(t: Table, cmap: map<string, string>, parse: NumberParser): (r: Result<seq<string>, KeyError>)
    requires Valid(t) && ColumnMap(cmap, t)
    ensures r.Success? ==> |r.value| == t.rows
  {
    match FirstPresent(DirectAliases, cmap)
    case Some(col) => Success(DirectCodes(parse, CellsOf(t, col)))
    case None =>
      match CompositeColumns(cmap)
      case Some((dd, pp, di)) => Success(CompositeCodes(CellsOf(t, dd), CellsOf(t, pp), CellsOf(t, di)))
      case None =>
        match FirstQualifying(t.columns, t.rows)
        case Some(c) => Success(StrippedCells(t.columns[c].cells))
        case None => Failure(NoDistrictCode)
  }

  /** `build_or_find_ubigeo`. */
  function BuildOrFindUbigeo(t: Table, parse: NumberParser): (r: Result<seq<string>, KeyError>)
    requires Valid(t)
    ensures r.Success? ==> |r.value| == t.rows
  {
    NormalizeKeysIsColumnMap(t);
    Resolve(t, NormalizeKeys(Names(t)), parse)
  }

  /** Some alias of `aliases` is a key of `cmap`. */
  predicate AnyPresent(aliases: seq<string>, cmap: map<string, string>) {
    exists i :: 0 <= i < |aliases| && aliases[i] in cmap
  }

  /** With non-empty aliases, Python's truthiness test on the found column
      name is a presence test. */
  lemma {:induction false} FoundColumnTruthy(t: Table, cmap: map<string, string>, aliases: seq<string>)
    requires ColumnMap(cmap, t)
    requires forall i :: 0 <= i < |aliases| ==> aliases[i] != ""
    ensures Truthy(FirstPresent(aliases, cmap)) <==> AnyPresent(aliases, cmap)
  {
    var col := FirstPresent(aliases, cmap);
    if col.Some? {
      var i :| FirstHit(aliases, cmap, i) && col.value == cmap[aliases[i]];
    }
  }

  lemma AliasesNonEmpty()
    ensures forall i :: 0 <= i < |DeptAliases| ==> DeptAliases[i] != ""
    ensures forall i :: 0 <= i < |ProvAliases| ==> ProvAliases[i] != ""
    ensures forall i :: 0 <= i < |DistAliases| ==> DistAliases[i] != ""
    ensures forall i :: 0 <= i < |NameAliases| ==> NameAliases[i] != ""
  {
  }

  /** The composite strategy fires exactly when each of the three alias
      lists has an alias present. */
  lemma {:induction false} CompositeColumnsFound(t: Table, cmap: map<string, string>)
    requires ColumnMap(cmap, t)
    ensures CompositeColumns(cmap).Some? <==>
      AnyPresent(DeptAliases, cmap) && AnyPresent(ProvAliases, cmap) && AnyPresent(DistAliases, cmap)
  {
    AliasesNonEmpty();
    FoundColumnTruthy(t, cmap, DeptAliases);
    FoundColumnTruthy(t, cmap, ProvAliases);
    FoundColumnTruthy(t, cmap, DistAliases);
  }

  /** Strategy 1: the first direct alias present (in list order) decides;
      every code is at least six characters and reads back as the number
      its cell coerces to; the other strategies are not consulted. */
  lemma DirectStrategyWins(t: Table, cmap: map<string, string>, parse: NumberParser, i: int)
    requires Valid(t) && ColumnMap(cmap, t) && FirstHit(DirectAliases, cmap, i)
    ensures Resolve(t, cmap, parse) == Success(DirectCodes(parse, CellsOf(t, cmap[DirectAliases[i]])))
    ensures forall r :: 0 <= r < t.rows ==>
      var code := Resolve(t, cmap, parse).value[r];
      var n := Coerce(parse, CellsOf(t, cmap[DirectAliases[i]])[r]);
      && |code| >= 6
      && IsSignedDigits(code) && SignedValue(code) == n
      && (IsSixDigits(code) <==> 0 <= n <= 999999)
  {
    FirstPresentAt(DirectAliases, cmap, i);
    var ids := Resolve(t, cmap, parse).value;
    var cells := CellsOf(t, cmap[DirectAliases[i]]);
    forall r | 0 <= r < t.rows
      ensures |ids[r]| >= 6 && IsSignedDigits(ids[r]) && SignedValue(ids[r]) == Coerce(parse, cells[r])
      ensures IsSixDigits(ids[r]) <==> 0 <= Coerce(parse, cells[r]) <= 999999
    {
      DirectCodeMeaning(Coerce(parse, cells[r]));
    }
  }

  /** CODDIST, COD_DIST and ID_DIST are direct aliases as well, so when the
      composite strategy runs, its district column was found through CCDI,
      DISTRITO_ID or DIST. */
  lemma CompositeDistrictAlias(cmap: map<string, string>, k: int)
    requires !AnyPresent(DirectAliases, cmap)
    requires FirstHit(DistAliases, cmap, k)
    ensures DistAliases[k] == "CCDI" || DistAliases[k] == "DISTRITO_ID" || DistAliases[k] == "DIST"
  {
    assert DirectAliases[10] !in cmap && DirectAliases[11] !in cmap && DirectAliases[12] !in cmap;
  }

  /** Strategy 2: with no direct alias, and an alias present for each of
      department, province and district, each code is the three parts side
      by side, each part from the column of the first alias present in its
      list. */
  lemma CompositeStrategyWins(t: Table, cmap: map<string, string>, parse: NumberParser, i: int, j: int, k: int)
    requires Valid(t) && ColumnMap(cmap, t)
    requires !AnyPresent(DirectAliases, cmap)
    requires FirstHit(DeptAliases, cmap, i) && FirstHit(ProvAliases, cmap, j) && FirstHit(DistAliases, cmap, k)
    ensures Resolve(t, cmap, parse) == Success(CompositeCodes(
      CellsOf(t, cmap[DeptAliases[i]]), CellsOf(t, cmap[ProvAliases[j]]), CellsOf(t, cmap[DistAliases[k]])))
  {
    CompositeColumnsFound(t, cmap);
    FirstPresentAt(DeptAliases, cmap, i);
    FirstPresentAt(ProvAliases, cmap, j);
    FirstPresentAt(DistAliases, cmap, k);
  }

  /** Strategy 3: with neither of the first two applicable, the stripped
      strings of the first column (in column order) where more than 80% of
      all rows are six digits; failing that, the configuration error. */
  lemma ScanStrategyWins(t: Table, cmap: map<string, string>, parse: NumberParser)
    requires Valid(t) && ColumnMap(cmap, t)
    requires !AnyPresent(DirectAliases, cmap)
    requires !(AnyPresent(DeptAliases, cmap) && AnyPresent(ProvAliases, cmap) && AnyPresent(DistAliases, cmap))
    ensures match FirstQualifying(t.columns, t.rows)
      case Some(c) =>
        && Resolve(t, cmap, parse) == Success(StrippedCells(t.columns[c].cells))
        && 5 * CountSixDigits(Resolve(t, cmap, parse).value) > 4 * |Resolve(t, cmap, parse).value|
      case None => Resolve(t, cmap, parse) == Failure(NoDistrictCode)
  {
    CompositeColumnsFound(t, cmap);
  }

  /** Resolution fails exactly when no strategy applies. */
  lemma ResolutionFailsIff(t: Table, cmap: map<string, string>, parse: NumberParser)
    requires Valid(t) && ColumnMap(cmap, t)
    ensures Resolve(t, cmap, parse).Failure? <==>
      && !AnyPresent(DirectAliases, cmap)
      && !(AnyPresent(DeptAliases, cmap) && AnyPresent(ProvAliases, cmap) && AnyPresent(DistAliases, cmap))
      && forall c :: 0 <= c < |t.columns| ==> !Qualifies(t.columns[c], t.rows)
  {
    CompositeColumnsFound(t, cmap);
    var direct := FirstPresent(DirectAliases, cmap);
    assert direct.None? <==> !AnyPresent(DirectAliases, cmap);
    var scan := FirstQualifying(t.columns, t.rows);
    assert Resolve(t, cmap, parse).Failure? <==> direct.None? && CompositeColumns(cmap).None? && scan.None?;
  }

  lemma SignedDigitsHaveNoSpace(s: string)
    requires IsSignedDigits(s)
    ensures forall i :: 0 <= i < |s| ==> !IsSpace(s[i])
  {
    if s != [] && (s[0] == '-' || s[0] == '+') {
      assert forall i :: 1 <= i < |s| ==> s[i] == s[1..][i - 1];
    }
  }

  /** A string that is all digits, or a sign and digits, is its own strip. */
  lemma SignedDigitsStripped(s: string)
    requires IsSignedDigits(s)
    ensures Strip(s) == s
  {
    SignedDigitsHaveNoSpace(s);
    StripNoSpace(s);
  }

  lemma DirectCodesStripped(parse: NumberParser, cells: seq<Cell>)
    ensures forall r :: 0 <= r < |cells| ==> Strip(DirectCodes(parse, cells)[r]) == DirectCodes(parse, cells)[r]
  {
    forall r | 0 <= r < |cells| ensures Strip(DirectCodes(parse, cells)[r]) == DirectCodes(parse, cells)[r] {
      DirectCodeMeaning(Coerce(parse, cells[r]));
      SignedDigitsStripped(DirectCode(Coerce(parse, cells[r])));
    }
  }

  lemma CompositeCodesStripped(ds: seq<Cell>, ps: seq<Cell>, qs: seq<Cell>)
    requires |ds| == |ps| == |qs|
    ensures forall r :: 0 <= r < |ds| ==> Strip(CompositeCodes(ds, ps, qs)[r]) == CompositeCodes(ds, ps, qs)[r]
  {
    forall r | 0 <= r < |ds| ensures Strip(CompositeCodes(ds, ps, qs)[r]) == CompositeCodes(ds, ps, qs)[r] {
      CompositeCodeStripped(ds[r], ps[r], qs[r]);
    }
  }

  /** Three digit strings side by side are digits only, hence their own strip. */
  lemma DigitsConcatStripped(a: string, b: string, c: string)
    requires AllDigits(a) && AllDigits(b) && AllDigits(c)
    ensures Strip(a + b + c) == a + b + c
  {
    var code := a + b + c;
    forall i | 0 <= i < |code| ensures IsDigit(code[i]) {
      if i < |a| { assert code[i] == a[i]; }
      else if i < |a| + |b| { assert code[i] == b[i - |a|]; }
      else { assert code[i] == c[i - |a| - |b|]; }
    }
    SignedDigitsStripped(code);
  }

  /** A composite code is its own strip. */
  lemma CompositeCodeStripped(d: Cell, p: Cell, q: Cell)
    ensures Strip(CompositeCode(d, p, q)) == CompositeCode(d, p, q)
  {
    CompositePartMeaning(d);
    CompositePartMeaning(p);
    CompositePartMeaning(q);
    DigitsConcatStripped(CompositePart(d), CompositePart(p), CompositePart(q));
  }

  lemma StrippedCellsStripped(cells: seq<Cell>)
    ensures forall r :: 0 <= r < |cells| ==> Strip(StrippedCells(cells)[r]) == StrippedCells(cells)[r]
  {
    forall r | 0 <= r < |cells| ensures Strip(StrippedCells(cells)[r]) == StrippedCells(cells)[r] {
      StripIdempotent(Render(cells[r]));
    }
  }

  /** Every resolved code is its own strip, so stripping `UBIGEO_OK` after
      the names are chosen changes nothing. */
  lemma ResolvedCodesStripped(t: Table, cmap: map<string, string>, parse: NumberParser)
    requires Valid(t) && ColumnMap(cmap, t) && Resolve(t, cmap, parse).Success?
    ensures forall r :: 0 <= r < t.rows ==>
      Strip(Resolve(t, cmap, parse).value[r]) == Resolve(t, cmap, parse).value[r]
  {
    match FirstPresent(DirectAliases, cmap)
    case Some(col) =>
      DirectCodesStripped(parse, CellsOf(t, col));
    case None =>
      match CompositeColumns(cmap)
      case Some((dd, pp, di)) =>
        CompositeCodesStripped(CellsOf(t, dd), CellsOf(t, pp), CellsOf(t, di));
      case None =>
        StrippedCellsStripped(t.columns[FirstQualifying(t.columns, t.rows).value].cells);
  }

  // ---------------------------------------------------------- display name

  /** `.astype(str).str.strip().apply(strip_accents_upper)` on a column. */
  function Displayed(cells: seq<Cell>, accents: AccentStripper): (ns: seq<string>)
    ensures |ns| == |cells|
    ensures forall r :: 0 <= r < |cells| ==> ns[r] == accents(Strip(Render(cells[r])))
  {
    seq(|cells|, r requires 0 <= r < |cells| => accents(Strip(Render(cells[r]))))
  }

  /** Lines 84-87, stated on the layer as read: `NOMBRE_OK` is the first name
      alias present, or else the resolved code, rendered, stripped and passed
      through `strip_accents_upper`. */
  function DisplayNames(layer: Table, ids: seq<string>, accents: AccentStripper): (names: seq<string>)
    requires Valid(layer) && |ids| == layer.rows
    ensures |names| == layer.rows
  {
    var col := FirstPresent(NameAliases, NormalizeKeys(Names(layer)));
    if Truthy(col) then Displayed(CellsOf(layer, col.value), accents)
    else Displayed(Texts(ids), accents)
  }

  /** The name comes from the column of the first name alias present, in
      the order of the alias list. */
  lemma DisplayNameFromAlias(layer: Table, ids: seq<string>, accents: AccentStripper, i: int)
    requires Valid(layer) && |ids| == layer.rows
    requires FirstHit(NameAliases, NormalizeKeys(Names(layer)), i)
    ensures NormalizeKeys(Names(layer))[NameAliases[i]] in Names(layer)
    ensures forall r :: 0 <= r < layer.rows ==>
      (DisplayNames(layer, ids, accents)[r]
         == accents(Strip(Render(CellsOf(layer, NormalizeKeys(Names(layer))[NameAliases[i]])[r]))))
  {
    var cmap := NormalizeKeys(Names(layer));
    NormalizeKeysIsColumnMap(layer);
    AliasesNonEmpty();
    FoundColumnTruthy(layer, cmap, NameAliases);
    var col := FirstPresent(NameAliases, cmap);
    var j :| FirstHit(NameAliases, cmap, j) && col.value == cmap[NameAliases[j]];
    FirstHitUnique(NameAliases, cmap, i, j);
  }

  /** With no name alias present, the name is the district code itself. */
  lemma DisplayNameFallback(layer: Table, ids: seq<string>, accents: AccentStripper)
    requires Valid(layer) && |ids| == layer.rows
    requires !AnyPresent(NameAliases, NormalizeKeys(Names(layer)))
    ensures forall r :: 0 <= r < layer.rows ==> DisplayNames(layer, ids, accents)[r] == accents(Strip(ids[r]))
  {
    NormalizeKeysIsColumnMap(layer);
    AliasesNonEmpty();
    FoundColumnTruthy(layer, NormalizeKeys(Names(layer)), NameAliases);
  }

  /** The name of the code column is its own key, is no name alias and
      differs from the name column's. */
  lemma CodeColumnKey()
    ensures Key("UBIGEO_OK") == "UBIGEO_OK"
    ensures "UBIGEO_OK" !in NameAliases && "UBIGEO_OK" != "NOMBRE_OK"
  {
    var u := Upper("UBIGEO_OK");
    assert u == "UBIGEO_OK";
    StripNoSpace(u);
  }

  /** Adding a column that is its own key and no name alias (line 83 before
      line 84) neither changes which name column the lookup finds nor that
      column's cells. */
  lemma NameLookupIgnoresColumn(layer: Table, x: string, cells: seq<Cell>)
    requires Valid(layer) && |cells| == layer.rows
    requires Key(x) == x && x !in NameAliases
    ensures FirstPresent(NameAliases, NormalizeKeys(Names(SetColumn(layer, x, cells))))
      == FirstPresent(NameAliases, NormalizeKeys(Names(layer)))
    ensures var col := FirstPresent(NameAliases, NormalizeKeys(Names(layer)));
      col.Some? ==>
        (col.value in Names(layer) && col.value != x
         && CellsOf(SetColumn(layer, x, cells), col.value) == CellsOf(layer, col.value))
  {
    FirstPresentAfterSetColumn(layer, x, cells, NameAliases);
    var cmap := NormalizeKeys(Names(layer));
    var col := FirstPresent(NameAliases, cmap);
    if col.Some? {
      var i :| FirstHit(NameAliases, cmap, i) && col.value == cmap[NameAliases[i]];
      NormalizeKeysKeys(Names(layer));
      assert Key(col.value) == NameAliases[i];
    }
  }

  /** The resolved codes are each their own strip. */
  lemma BuildOrFindUbigeoStripped(layer: Table, parse: NumberParser)
    requires Valid(layer) && BuildOrFindUbigeo(layer, parse).Success?
    ensures forall r :: 0 <= r < |BuildOrFindUbigeo(layer, parse).value| ==>
      Strip(BuildOrFindUbigeo(layer, parse).value[r]) == BuildOrFindUbigeo(layer, parse).value[r]
  {
    NormalizeKeysIsColumnMap(layer);
    ResolvedCodesStripped(layer, NormalizeKeys(Names(layer)), parse);
  }

  /** Stripping texts that are each their own strip gives them back. */
  lemma StrippedTexts(ids: seq<string>)
    requires forall r :: 0 <= r < |ids| ==> Strip(ids[r]) == ids[r]
    ensures StrippedCells(Texts(ids)) == ids
  {
    assert forall r :: 0 <= r < |ids| ==> StrippedCells(Texts(ids))[r] == ids[r];
  }

  /** The name column found after the code column `code` is added (lines
      84-85), or else the code column, gives the display names. */
  lemma NameSourceAfterCodeColumn(layer: Table, ids: seq<string>, accents: AccentStripper, code: string)
    requires Valid(layer) && |ids| == layer.rows
    requires Key(code) == code && code !in NameAliases
    ensures var gdf := SetColumn(layer, code, Texts(ids));
      var nameCol := FirstPresent(NameAliases, NormalizeKeys(Names(gdf)));
      Displayed(if Truthy(nameCol) then CellsOf(gdf, nameCol.value) else CellsOf(gdf, code), accents)
        == DisplayNames(layer, ids, accents)
  {
    NameLookupIgnoresColumn(layer, code, Texts(ids));
  }

  /** Lines 83-88 once the codes `ids` are resolved: assign the code
      column `code` (`UBIGEO_OK`), choose and assign the name column `name`
      (`NOMBRE_OK`), strip the code column. */
  method AssignKeyColumns(layer: Table, ids: seq<string>, accents: AccentStripper, code: string, name: string)
    returns (gdf: Table)
    requires Valid(layer) && |ids| == layer.rows
    requires forall r :: 0 <= r < |ids| ==> Strip(ids[r]) == ids[r]
    requires Key(code) == code && code !in NameAliases && code != name
    ensures Valid(gdf) && gdf.rows == layer.rows
    ensures code in Names(gdf) && CellsOf(gdf, code) == Texts(ids)
    ensures name in Names(gdf) && CellsOf(gdf, name) == Texts(DisplayNames(layer, ids, accents))
    ensures Names(gdf) == AddName(AddName(Names(layer), code), name)
    ensures forall n :: n in Names(layer) && n != code && n != name ==>
      n in Names(gdf) && CellsOf(gdf, n) == CellsOf(layer, n)
  {
    gdf := SetColumn(layer, code, Texts(ids));
    var nameCol := FirstPresent(NameAliases, NormalizeKeys(Names(gdf)));
    var source := if Truthy(nameCol) then CellsOf(gdf, nameCol.value) else CellsOf(gdf, code);
    var names := Displayed(source, accents);
    assert names == DisplayNames(layer, ids, accents) by {
      NameSourceAfterCodeColumn(layer, ids, accents, code);
    }
    gdf := SetColumn(gdf, name, Texts(names));
    StrippedTexts(ids);
    var codes := StrippedCells(CellsOf(gdf, code));
    SetColumnSame(gdf, code);
    gdf := SetColumn(gdf, code, Texts(codes));
  }

  /** `load_vector` after the layer is read: resolve the codes (or fail),
      then assign the key columns. */
  method LoadVector(layer: Table, parse: NumberParser, accents: AccentStripper) returns (r: Result<Table, KeyError>)
    requires Valid(layer)
    ensures r.Failure? <==> BuildOrFindUbigeo(layer, parse).Failure?
    ensures r.Success? ==>
      var ids := BuildOrFindUbigeo(layer, parse).value;
      && Valid(r.value) && r.value.rows == layer.rows
      && "UBIGEO_OK" in Names(r.value) && CellsOf(r.value, "UBIGEO_OK") == Texts(ids)
      && "NOMBRE_OK" in Names(r.value) && CellsOf(r.value, "NOMBRE_OK") == Texts(DisplayNames(layer, ids, accents))
      && Names(r.value) == AddName(AddName(Names(layer), "UBIGEO_OK"), "NOMBRE_OK")
      && forall n :: n in Names(layer) && n != "UBIGEO_OK" && n != "NOMBRE_OK" ==>
           n in Names(r.value) && CellsOf(r.value, n) == CellsOf(layer, n)
  {
    var resolved := BuildOrFindUbigeo(layer, parse);
    if resolved.Failure? {
      return Failure(resolved.error);
    }
    BuildOrFindUbigeoStripped(layer, parse);
    CodeColumnKey();
    var gdf := AssignKeyColumns(layer, resolved.value, accents, "UBIGEO_OK", "NOMBRE_OK");
    return Success(gdf);
  }
}
