/**
 * The in-memory record store of pokedex_citron_db: the ordered list of
 * rows read from the CSV file, the name index built from it, the
 * `search_by_name` projection and the five list filters.
 *
 * A row is what `csv.DictReader` yields, a dictionary from column name to
 * value, where a short line gives `None` for its missing trailing columns.
 * A column that is absent, one that is `None`, one that is `""` and one that
 * is `"0"` are four different things here, as they are in the source.
 */
module PokedexCitronDb {
  import opened Wrappers
  import opened Casefold

  type Row = map<string, Option<string>>

  // Column names of the dataset.
  const Number := "number"
  const NameField := "name"
  const PrimaryType := "primary_type"
  const SecondaryType := "secondary_type"
  const Generation := "generation"
  const MegaEvolution := "mega_evolution"
  const Legendary := "legendary"
  const FinalStage := "final_stage"
  const RegionalForm := "regional_form"
  const OverallLegendary := "overall_legendary"

  /** Columns `search_by_name` copies, as strings, when they are truthy. */
  const TextFields: set<string> := {Number, NameField, PrimaryType, Generation, SecondaryType, RegionalForm}
  /** Columns `search_by_name` reports as `True` when they hold exactly "1". */
  const FlagFields: set<string> := {MegaEvolution, Legendary, FinalStage}

  // ---------------------------------------------------------------------
  // Rows and the name index
  // ---------------------------------------------------------------------

  /** `row['name']` exists and is a string, so `row['name'].lower()` does not raise. */
  predicate Named(row: Row)
  {
    NameField in row && row[NameField].Some?
  }

  predicate AllNamed(rows: seq<Row>)
  {
    forall i :: 0 <= i < |rows| ==> Named(rows[i])
  }

  function NameOf(row: Row): string
    requires Named(row)
  {
    row[NameField].value
  }

  /** The key a row is indexed under: its lower-cased name. */
  function Key(row: Row): string
    requires Named(row)
  {
    Lower(NameOf(row))
  }

  /**
   * The dictionary comprehension `{row['name'].lower(): row for row in rows}`:
   * rows are inserted in order, so a later row overwrites an earlier one
   * with the same key.
   */
  function NameIndex(rows: seq<Row>): (m: map<string, Row>)
    requires AllNamed(rows)
    ensures forall k :: k in m ==> Named(m[k]) && Key(m[k]) == k
  {
    if rows == [] then map[]
    else
      var last := rows[|rows| - 1];
      NameIndex(rows[..|rows| - 1])[Key(last) := last]
  }

  /** Row `i` is the last row of `rows` whose key is `k`. */
  ghost predicate LastWithKey(rows: seq<Row>, i: int, k: string)
    requires AllNamed(rows)
  {
    && 0 <= i < |rows|
    && Key(rows[i]) == k
    && forall j :: i < j < |rows| ==> Key(rows[j]) != k
  }

  /** The index has a key exactly when some row lower-cases to it. */
  lemma {:induction false} NameIndexKeys(rows: seq<Row>, k: string)
    requires AllNamed(rows)
    ensures k in NameIndex(rows) <==> exists i :: 0 <= i < |rows| && Key(rows[i]) == k
  {
    if rows != [] {
      var init := rows[..|rows| - 1];
      NameIndexKeys(init, k);
      if k in NameIndex(init) {
        var i :| 0 <= i < |init| && Key(init[i]) == k;
        assert Key(rows[i]) == k;
      }
      if exists i :: 0 <= i < |rows| && Key(rows[i]) == k {
        var i :| 0 <= i < |rows| && Key(rows[i]) == k;
        if i < |init| {
          assert Key(init[i]) == k;
        }
      }
    }
  }

  /** The last row with a given key is the one the index keeps (last wins). */
  lemma {:induction false} NameIndexLastWins(rows: seq<Row>, i: int, k: string)
    requires AllNamed(rows)
    requires LastWithKey(rows, i, k)
    ensures k in NameIndex(rows) && NameIndex(rows)[k] == rows[i]
  {
    var n := |rows|;
    var init := rows[..n - 1];
    var last := rows[n - 1];
    var m0 := NameIndex(init);
    assert NameIndex(rows) == m0[Key(last) := last];
    if i < n - 1 {
      assert Key(last) != k;
      assert LastWithKey(init, i, k) by {
        forall j | i < j < |init| ensures Key(init[j]) != k {
          assert init[j] == rows[j];
        }
      }
      NameIndexLastWins(init, i, k);
      assert m0[k] == init[i] == rows[i];
    }
  }

  /** Whatever the index holds under `k` is the last row with key `k`. */
  lemma NameIndexHoldsLast(rows: seq<Row>, k: string)
    requires AllNamed(rows)
    requires k in NameIndex(rows)
    ensures exists i :: LastWithKey(rows, i, k) && NameIndex(rows)[k] == rows[i]
  {
    NameIndexKeys(rows, k);
    var i0 :| 0 <= i0 < |rows| && Key(rows[i0]) == k;
    var i := LastIndexFrom(rows, i0, k);
    NameIndexLastWins(rows, i, k);
  }

  /** Moves from a row with key `k` to the last row with key `k`. */
  lemma {:induction false} LastIndexFrom(rows: seq<Row>, i0: int, k: string) returns (i: int)
    requires AllNamed(rows)
    requires 0 <= i0 < |rows| && Key(rows[i0]) == k
    ensures i0 <= i && LastWithKey(rows, i, k)
    decreases |rows| - i0
  {
    if j :| i0 < j < |rows| && Key(rows[j]) == k {
      i := LastIndexFrom(rows, j, k);
    } else {
      i := i0;
    }
  }

  /** Why loading failed: the row at this position has no usable `name`. */
  datatype LoadError = RuntimeError(row: nat)

  /**
   * Builds the name index in one pass, as the comprehension at line 27 does.
   * A row without a `name` column raises `KeyError`, one whose `name` is
   * `None` raises `AttributeError`; either is re-raised as `RuntimeError`.
   */
  method BuildNameIndex(rows: seq<Row>) returns (r: Result<map<string, Row>, LoadError>)
    ensures r.Success? <==> AllNamed(rows)
    ensures r.Success? ==> r.value == NameIndex(rows)
    ensures r.Failure? ==> r.error.row < |rows| && !Named(rows[r.error.row]) && AllNamed(rows[..r.error.row])
  {
    var m := map[];
    var i := 0;
    while i < |rows|
      invariant 0 <= i <= |rows|
      invariant AllNamed(rows[..i])
      invariant m == NameIndex(rows[..i])
    {
      if !Named(rows[i]) {
        return Failure(RuntimeError(i));
      }
      assert rows[..i + 1][..i] == rows[..i];
      m := m[Key(rows[i]) := rows[i]];
      i := i + 1;
    }
    assert rows[..i] == rows;
    return Success(m);
  }

  // ---------------------------------------------------------------------
  // The projection returned by search_by_name
  // ---------------------------------------------------------------------

  /** A value of the returned dictionary: a copied string, or Python's `True`. */
  datatype Value = Text(s: string) | Bool(b: bool)

  /** `row.get(f)` is truthy: present, not `None`, not the empty string. */
  predicate Truthy(row: Row, f: string)
  {
    f in row && row[f].Some? && row[f].value != ""
  }

  /** `row.get(f) == '1'`. */
  predicate IsOne(row: Row, f: string)
  {
    f in row && row[f] == Some("1")
  }

  /** The column names are pairwise distinct: no flag column is a text column. */
  lemma ColumnsDistinct()
    ensures MegaEvolution !in TextFields && Legendary !in TextFields && FinalStage !in TextFields
  {
    assert MegaEvolution[0] == 'm' && Legendary[0] == 'l' && FinalStage[0] == 'f';
    assert Number[0] == 'n' && NameField[0] == 'n' && PrimaryType[0] == 'p';
    assert Generation[0] == 'g' && SecondaryType[0] == 's' && RegionalForm[0] == 'r';
  }

  /** The entry `v` under key `f` is one the projection of `row` may hold. */
  predicate Justified(v: Value, row: Row, f: string)
  {
    if f in TextFields then Truthy(row, f) && v == Text(row[f].value)
    else f in FlagFields && IsOne(row, f) && v == Bool(true)
  }

  /**
   * `res` is the projection of `row`: a text column is copied exactly when
   * it is truthy, a flag column becomes `True` exactly when it is "1", and
   * nothing else is present.
   */
  ghost predicate IsSummary(res: map<string, Value>, row: Row)
  {
    && (forall f :: f in res ==> Justified(res[f], row, f))
    && (forall f :: f in TextFields && Truthy(row, f) ==> f in res)
    && (forall f :: f in FlagFields && IsOne(row, f) ==> f in res)
  }

  /** What callers can read off a projection. */
  lemma SummaryKeys(res: map<string, Value>, row: Row)
    requires IsSummary(res, row)
    ensures res.Keys <= TextFields + FlagFields
    ensures forall f :: f in TextFields ==> (f in res <==> Truthy(row, f))
    ensures forall f :: f in TextFields && f in res ==> res[f] == Text(row[f].value)
    ensures forall f :: f in FlagFields ==> (f in res <==> IsOne(row, f))
    ensures forall f :: f in FlagFields && f in res ==> res[f] == Bool(true)
  {
    forall f | f in TextFields
      ensures f !in FlagFields
    {
    }
  }

  /** No key of a projection maps to `False` or to an empty string. */
  lemma SummaryHasNoFalsyValue(res: map<string, Value>, row: Row)
    requires IsSummary(res, row)
    ensures forall f :: f in res ==> res[f] != Bool(false) && res[f] != Text("")
  {
  }

  /** A row has exactly one projection. */
  lemma SummaryUnique(a: map<string, Value>, b: map<string, Value>, row: Row)
    requires IsSummary(a, row) && IsSummary(b, row)
    ensures a == b
  {
    assert a.Keys == b.Keys by {
      forall f | f in a ensures f in b {
        assert Justified(a[f], row, f);
      }
      forall f | f in b ensures f in a {
        assert Justified(b[f], row, f);
      }
    }
    forall f | f in a ensures a[f] == b[f] {
      assert Justified(a[f], row, f) && Justified(b[f], row, f);
    }
  }

  /**
   * The dictionary `search_by_name` builds from the row it found: the four
   * always-considered columns in a loop, then `secondary_type`, the three
   * flags in a loop, and `regional_form`, each only when truthy (or "1").
   */
  method Project(row: Row) returns (result: map<string, Value>)
    ensures IsSummary(result, row)
  {
    ColumnsDistinct();
    result := map[];

    var always := [Number, NameField, PrimaryType, Generation];
    var i := 0;
    while i < |always|
      invariant 0 <= i <= |always|
      invariant forall f :: f in result ==> Justified(result[f], row, f)
      invariant forall j :: 0 <= j < i && Truthy(row, always[j]) ==> always[j] in result
    {
      var field := always[i];
      if field in row && row[field].Some? && row[field].value != "" {
        result := result[field := Text(row[field].value)];
      }
      i := i + 1;
    }

    if Truthy(row, SecondaryType) {
      result := result[SecondaryType := Text(row[SecondaryType].value)];
    }

    var flags := [MegaEvolution, Legendary, FinalStage];
    i := 0;
    while i < |flags|
      invariant 0 <= i <= |flags|
      invariant forall f :: f in result ==> Justified(result[f], row, f)
      invariant forall j :: 0 <= j < |always| && Truthy(row, always[j]) ==> always[j] in result
      invariant Truthy(row, SecondaryType) ==> SecondaryType in result
      invariant forall j :: 0 <= j < i && IsOne(row, flags[j]) ==> flags[j] in result
    {
      var field := flags[i];
      if field in row && row[field] == Some("1") {
        result := result[field := Bool(true)];
      }
      i := i + 1;
    }

    if Truthy(row, RegionalForm) {
      result := result[RegionalForm := Text(row[RegionalForm].value)];
    }

    assert IsSummary(result, row) by {
      forall f | f in TextFields && Truthy(row, f) ensures f in result {
        if f != SecondaryType && f != RegionalForm {
          assert f == always[0] || f == always[1] || f == always[2] || f == always[3];
        }
      }
      forall f | f in FlagFields && IsOne(row, f) ensures f in result {
        assert f == flags[0] || f == flags[1] || f == flags[2];
      }
    }
  }

  // ---------------------------------------------------------------------
  // The list filters
  // ---------------------------------------------------------------------

  /** The condition a filter keeps a row on. */
  datatype Criterion =
    | FieldEquals(field: string, wanted: string)  // row.get(field, '').lower() == wanted.lower()
    | FlagSet(flag: string)                       // row.get(flag) == '1'
    | HasRegionalForm                             // regional_form present and not in ('', '0', None)

  /** `row.get(f, default)`. */
  function Get(row: Row, f: string, default: string): Option<string>
  {
    if f in row then row[f] else Some(default)
  }

  predicate Holds(c: Criterion, row: Row)
  {
    match c
    case FieldEquals(f, t) => FieldMatches(row, f, t)
    case FlagSet(f) => IsOne(row, f)
    case HasRegionalForm => RegionalFormSet(row)
  }

  /** `row.get(f, '').lower() == t.lower()`, false when the column is `None`. */
  predicate FieldMatches(row: Row, f: string, t: string)
  {
    var v := Get(row, f, "");
    v.Some? && Lower(v.value) == Lower(t)
  }

  /** `'regional_form' in row and row['regional_form'] not in ('', '0', None)`. */
  predicate RegionalFormSet(row: Row)
  {
    && RegionalForm in row && row[RegionalForm].Some?
    && row[RegionalForm].value != "" && row[RegionalForm].value != "0"
  }

  /** The list comprehension `[row['name'] for row in rows if <c>]`. */
  function Select(rows: seq<Row>, c: Criterion): (r: seq<string>)
    requires AllNamed(rows)
    ensures |r| <= |rows|
  {
    if rows == [] then []
    else
      var last := rows[|rows| - 1];
      Select(rows[..|rows| - 1], c) + (if Holds(c, last) then [NameOf(last)] else [])
  }

  /** Which rows satisfy `c`, position by position. */
  function Marks(rows: seq<Row>, c: Criterion): (m: seq<bool>)
    ensures |m| == |rows|
    ensures forall i :: 0 <= i < |rows| ==> m[i] == Holds(c, rows[i])
  {
    if rows == [] then []
    else Marks(rows[..|rows| - 1], c) + [Holds(c, rows[|rows| - 1])]
  }

  /** `idx` lists, in increasing order, exactly the positions whose mark is set. */
  ghost predicate Positions(idx: seq<int>, marks: seq<bool>)
  {
    (forall j :: 0 <= j < |idx| ==> 0 <= idx[j] < |marks| && marks[idx[j]])
    && (forall j, k :: 0 <= j < k < |idx| ==> idx[j] < idx[k])
    && (forall i :: 0 <= i < |marks| && marks[i] ==> i in idx)
  }

  /** `r` is the names of the rows at the positions `idx`, which are those satisfying `c`. */
  ghost predicate NamesAt(r: seq<string>, idx: seq<int>, rows: seq<Row>, c: Criterion)
    requires AllNamed(rows)
  {
    Positions(idx, Marks(rows, c)) && |idx| == |r|
    && forall j :: 0 <= j < |r| ==> r[j] == NameOf(rows[idx[j]])
  }

  /** `r` is the names of the rows satisfying `c`, in file order, each once per row. */
  ghost predicate Enumerates(r: seq<string>, rows: seq<Row>, c: Criterion)
    requires AllNamed(rows)
  {
    exists idx :: NamesAt(r, idx, rows, c)
  }

  /** One more mark extends the positions by at most its own. */
  lemma PositionsSnoc(idx: seq<int>, marks: seq<bool>, b: bool)
    requires Positions(idx, marks)
    ensures Positions(if b then idx + [|marks|] else idx, marks + [b])
  {
    var m := marks + [b];
    var idx' := if b then idx + [|marks|] else idx;
    forall i | 0 <= i < |m| && m[i] ensures i in idx' {
      if i < |marks| {
        assert marks[i];
        assert i in idx;
      }
    }
  }

  /** Dropping the last mark drops its position, which is then the last one. */
  lemma PositionsInit(idx: seq<int>, marks: seq<bool>)
    requires marks != [] && Positions(idx, marks)
    ensures var n := |marks| - 1;
      if marks[n] then idx != [] && idx[|idx| - 1] == n && Positions(idx[..|idx| - 1], marks[..n])
      else Positions(idx, marks[..n])
  {
    var n := |marks| - 1;
    if marks[n] {
      assert n in idx;
      var p :| 0 <= p < |idx| && idx[p] == n;
      var last := |idx| - 1;
      assert idx[p] <= idx[last] < |marks|;
      var init := idx[..last];
      forall j | 0 <= j < |init| ensures init[j] < n {
        assert idx[j] < idx[last];
      }
      forall i | 0 <= i < n && marks[..n][i] ensures i in init {
        assert marks[i];
        var q :| 0 <= q < |idx| && idx[q] == i;
        assert q != last;
        assert init[q] == i;
      }
    } else {
      forall j | 0 <= j < |idx| ensures idx[j] < n {
        assert marks[idx[j]];
      }
    }
  }

  /** A strictly increasing sequence of naturals below `bound` has at most `bound` elements. */
  lemma {:induction false} IncreasingBounded(idx: seq<int>, bound: int)
    requires 0 <= bound
    requires forall j :: 0 <= j < |idx| ==> 0 <= idx[j] < bound
    requires forall j, k :: 0 <= j < k < |idx| ==> idx[j] < idx[k]
    ensures |idx| <= bound
  {
    if idx != [] {
      var last := |idx| - 1;
      forall j | 0 <= j < last ensures 0 <= idx[..last][j] < idx[last] {
        assert idx[..last][j] == idx[j];
      }
      IncreasingBounded(idx[..last], idx[last]);
      assert |idx[..last]| == last && idx[last] < bound;
    }
  }

  /** Only one sequence lists the marked positions in increasing order. */
  lemma {:induction false} PositionsUnique(a: seq<int>, b: seq<int>, marks: seq<bool>)
    requires Positions(a, marks) && Positions(b, marks)
    ensures a == b
  {
    if marks == [] {
      IncreasingBounded(a, 0);
      IncreasingBounded(b, 0);
    } else {
      var n := |marks| - 1;
      PositionsInit(a, marks);
      PositionsInit(b, marks);
      if marks[n] {
        PositionsUnique(a[..|a| - 1], b[..|b| - 1], marks[..n]);
        assert a == a[..|a| - 1] + [n];
        assert b == b[..|b| - 1] + [n];
      } else {
        PositionsUnique(a, b, marks[..n]);
      }
    }
  }

  lemma MarksSnoc(rows: seq<Row>, c: Criterion)
    requires rows != []
    ensures Marks(rows, c) == Marks(rows[..|rows| - 1], c) + [Holds(c, rows[|rows| - 1])]
  {
  }

  /** Appending one row's name, if it matches, keeps each name beside its row. */
  lemma NamesSnoc(rows: seq<Row>, s0: seq<string>, idx0: seq<int>, hit: bool)
    requires AllNamed(rows) && rows != []
    requires |idx0| == |s0|
    requires forall j :: 0 <= j < |idx0| ==> 0 <= idx0[j] < |rows| - 1
    requires forall j :: 0 <= j < |s0| ==> s0[j] == NameOf(rows[..|rows| - 1][idx0[j]])
    ensures var r := s0 + (if hit then [NameOf(rows[|rows| - 1])] else []);
      var idx := if hit then idx0 + [|rows| - 1] else idx0;
      |idx| == |r| && forall j :: 0 <= j < |r| ==> r[j] == NameOf(rows[idx[j]])
  {
    var n := |rows|;
    var r := s0 + (if hit then [NameOf(rows[n - 1])] else []);
    var idx := if hit then idx0 + [n - 1] else idx0;
    forall j | 0 <= j < |r| ensures r[j] == NameOf(rows[idx[j]]) {
      if j < |s0| {
        assert r[j] == s0[j] && idx[j] == idx0[j];
        assert rows[..n - 1][idx0[j]] == rows[idx0[j]];
      }
    }
  }

  /** One more row extends the list and its positions by at most that row. */
  lemma SelectSnoc(rows: seq<Row>, c: Criterion, idx0: seq<int>)
    requires AllNamed(rows) && rows != []
    requires NamesAt(Select(rows[..|rows| - 1], c), idx0, rows[..|rows| - 1], c)
    ensures NamesAt(Select(rows, c), if Holds(c, rows[|rows| - 1]) then idx0 + [|rows| - 1] else idx0, rows, c)
  {
    var n := |rows|;
    var init := rows[..n - 1];
    var hit := Holds(c, rows[n - 1]);
    PositionsSnoc(idx0, Marks(init, c), hit);
    MarksSnoc(rows, c);
    NamesSnoc(rows, Select(init, c), idx0, hit);
  }

  /** A filter returns the names of the matching rows, in order. */
  lemma {:induction false} SelectEnumerates(rows: seq<Row>, c: Criterion)
    requires AllNamed(rows)
    ensures Enumerates(Select(rows, c), rows, c)
  {
    if rows == [] {
      assert NamesAt([], [], rows, c);
    } else {
      var n := |rows|;
      var init := rows[..n - 1];
      SelectEnumerates(init, c);
      var idx0 :| NamesAt(Select(init, c), idx0, init, c);
      SelectSnoc(rows, c, idx0);
      var idx := if Holds(c, rows[n - 1]) then idx0 + [n - 1] else idx0;
      assert NamesAt(Select(rows, c), idx, rows, c);
    }
  }

  /** A name is listed exactly when some matching row carries it. */
  lemma EnumeratesMembership(r: seq<string>, rows: seq<Row>, c: Criterion, x: string)
    requires AllNamed(rows)
    requires Enumerates(r, rows, c)
    ensures x in r <==> exists i :: 0 <= i < |rows| && Holds(c, rows[i]) && NameOf(rows[i]) == x
  {
    var idx :| NamesAt(r, idx, rows, c);
    var marks := Marks(rows, c);
    if x in r {
      var j :| 0 <= j < |r| && r[j] == x;
      assert marks[idx[j]];
      assert Holds(c, rows[idx[j]]) && NameOf(rows[idx[j]]) == x;
    }
    if exists i :: 0 <= i < |rows| && Holds(c, rows[i]) && NameOf(rows[i]) == x {
      var i :| 0 <= i < |rows| && Holds(c, rows[i]) && NameOf(rows[i]) == x;
      assert marks[i];
      assert i in idx;
      var j :| 0 <= j < |idx| && idx[j] == i;
      assert r[j] == x;
    }
  }

  /** A listing has at most one name per row. */
  lemma EnumeratesBounded(r: seq<string>, rows: seq<Row>, c: Criterion)
    requires AllNamed(rows)
    requires Enumerates(r, rows, c)
    ensures |r| <= |rows|
  {
    var idx :| NamesAt(r, idx, rows, c);
    IncreasingBounded(idx, |rows|);
  }

  /** The enumeration of matching names determines the list: the filters' contracts are exact. */
  lemma EnumeratesUnique(r1: seq<string>, r2: seq<string>, rows: seq<Row>, c: Criterion)
    requires AllNamed(rows)
    requires Enumerates(r1, rows, c) && Enumerates(r2, rows, c)
    ensures r1 == r2
  {
    var idx1 :| NamesAt(r1, idx1, rows, c);
    var idx2 :| NamesAt(r2, idx2, rows, c);
    PositionsUnique(idx1, idx2, Marks(rows, c));
  }

  /** Rows with the same names on which two criteria agree give the same list. */
  lemma {:induction false} SelectCongruent(rows1: seq<Row>, rows2: seq<Row>, c1: Criterion, c2: Criterion)
    requires AllNamed(rows1) && AllNamed(rows2) && |rows1| == |rows2|
    requires forall i :: 0 <= i < |rows1| ==> NameOf(rows1[i]) == NameOf(rows2[i])
    requires forall i :: 0 <= i < |rows1| ==> Holds(c1, rows1[i]) == Holds(c2, rows2[i])
    ensures Select(rows1, c1) == Select(rows2, c2)
  {
    if rows1 != [] {
      var n := |rows1|;
      SelectCongruent(rows1[..n - 1], rows2[..n - 1], c1, c2);
    }
  }

  /** A type filter compares lower-cased forms: the argument's case does not matter. */
  lemma TypeFilterIgnoresCase(rows: seq<Row>, f: string, t1: string, t2: string)
    requires AllNamed(rows)
    requires Lower(t1) == Lower(t2)
    ensures Select(rows, FieldEquals(f, t1)) == Select(rows, FieldEquals(f, t2))
  {
    SelectCongruent(rows, rows, FieldEquals(f, t1), FieldEquals(f, t2));
  }

  /** An empty type argument matches the rows whose column is absent or empty. */
  lemma EmptyTypeMatchesBlank(row: Row, f: string)
    ensures Holds(FieldEquals(f, ""), row) <==> f !in row || row[f] == Some("")
  {
    if f in row && row[f].Some? {
      LowerEmpty(row[f].value);
    }
  }

  /** Only the exact string "1" sets a flag; "true", "", "0" and None do not. */
  lemma FlagNeedsExactOne(row: Row, f: string)
    ensures Holds(FlagSet(f), row) <==> f in row && row[f] == Some("1")
    ensures f in row && row[f] == Some("true") ==> !Holds(FlagSet(f), row)
  {
  }

  /** Rows that differ in nothing but `overall_legendary` have the same legendaries. */
  lemma LegendariesIgnoreOverallLegendary(rows1: seq<Row>, rows2: seq<Row>)
    requires AllNamed(rows1) && AllNamed(rows2) && |rows1| == |rows2|
    requires forall i :: 0 <= i < |rows1| ==> rows1[i] - {OverallLegendary} == rows2[i] - {OverallLegendary}
    ensures Select(rows1, FlagSet(Legendary)) == Select(rows2, FlagSet(Legendary))
  {
    forall i | 0 <= i < |rows1|
      ensures NameOf(rows1[i]) == NameOf(rows2[i])
      ensures Holds(FlagSet(Legendary), rows1[i]) == Holds(FlagSet(Legendary), rows2[i])
    {
      var a, b := rows1[i] - {OverallLegendary}, rows2[i] - {OverallLegendary};
      assert NameField in a && a[NameField] == rows1[i][NameField];
      assert NameField in b && b[NameField] == rows2[i][NameField];
      assert Legendary in rows1[i] <==> Legendary in a;
      assert Legendary in rows2[i] <==> Legendary in b;
      if Legendary in a {
        assert a[Legendary] == rows1[i][Legendary] && b[Legendary] == rows2[i][Legendary];
      }
    }
    SelectCongruent(rows1, rows2, FlagSet(Legendary), FlagSet(Legendary));
  }

  /**
   * A regional form of "0" is left out of `get_all_regional_forms` but still
   * copied by `search_by_name`, whose test is only truthiness.
   */
  lemma RegionalZeroShownButNotListed(row: Row, res: map<string, Value>)
    requires RegionalForm in row && row[RegionalForm] == Some("0")
    requires IsSummary(res, row)
    ensures !Holds(HasRegionalForm, row)
    ensures RegionalForm in res && res[RegionalForm] == Text("0")
  {
    assert Truthy(row, RegionalForm);
  }

  /** The error a type filter raises: `None.lower()` on a short row. */
  datatype QueryError = AttributeError(field: string)

  /** Some row has column `f` present with the value `None`. */
  ghost predicate HasNoneValue(rows: seq<Row>, f: string)
  {
    exists i :: 0 <= i < |rows| && f in rows[i] && rows[i][f].None?
  }

  /**
   * `[row['name'] for row in rows if row.get(f, '').lower() == t.lower()]`.
   * The default `''` only covers an absent column: a column present as
   * `None` makes the comprehension raise.
   */
  function TypeFilter(rows: seq<Row>, f: string, t: string): (r: Result<seq<string>, QueryError>)
    requires AllNamed(rows)
    ensures r.Failure? <==> HasNoneValue(rows, f)
    ensures r.Failure? ==> r.error == AttributeError(f)
    ensures r.Success? ==> Enumerates(r.value, rows, FieldEquals(f, t))
  {
    if exists i :: 0 <= i < |rows| && f in rows[i] && rows[i][f].None? then
      Failure(AttributeError(f))
    else
      SelectEnumerates(rows, FieldEquals(f, t));
      Success(Select(rows, FieldEquals(f, t)))
  }

  // ---------------------------------------------------------------------
  // The store
  // ---------------------------------------------------------------------

  /**
   * The module state after `_load_csv`: `_pokemon_data` and `_pokemon_by_name`.
   * Both are set once and never changed, hence constant fields.
   */
  class Store {
    const rows: seq<Row>
    const byName: map<string, Row>

    ghost predicate Valid()
    {
      AllNamed(rows) && byName == NameIndex(rows)
    }

    constructor (rows: seq<Row>, byName: map<string, Row>)
      requires AllNamed(rows) && byName == NameIndex(rows)
      ensures Valid() && this.rows == rows && this.byName == byName
    {
      this.rows := rows;
      this.byName := byName;
    }

    /**
     * `ispokemon`: case-insensitive membership in the name index, so a name
     * is known exactly when some row's name has the same lower-case form.
     */
    predicate IsKnown(name: string): (known: bool)
      requires Valid()
      ensures known <==> exists i :: 0 <= i < |rows| && Key(rows[i]) == Lower(name)
    {
      NameIndexKeys(rows, Lower(name));
      Lower(name) in byName
    }

    /** Names with the same lower-case form are known or unknown together. */
    lemma KnownIgnoresCase(a: string, b: string)
      requires Valid()
      requires Lower(a) == Lower(b)
      ensures IsKnown(a) == IsKnown(b)
    {
    }

    /** Asking for the lower-cased name gives the same answer ("mewtwo" as "Mewtwo"). */
    lemma KnownOfLower(name: string)
      requires Valid()
      ensures IsKnown(Lower(name)) == IsKnown(name)
    {
      LowerIdempotent(name);
    }

    /**
     * `search_by_name`: looks the lower-cased name up and builds the
     * projection of the row found, omitting every falsy column.
     */
    method SearchByName(name: string) returns (r: Option<map<string, Value>>)
      requires Valid()
      ensures r.None? <==> !IsKnown(name)
      ensures r.Some? ==> exists i :: LastWithKey(rows, i, Lower(name)) && IsSummary(r.value, rows[i])
    {
      var key := Lower(name);
      if key !in byName || byName[key] == map[] {
        return None;
      }
      var row := byName[key];
      var result := Project(row);
      NameIndexHoldsLast(rows, key);
      r := Some(result);
    }

    /** `get_by_primary_type`. */
    function ByPrimaryType(t: string): (r: Result<seq<string>, QueryError>)
      requires Valid()
      ensures r.Failure? <==> HasNoneValue(rows, PrimaryType)
      ensures r.Success? ==> Enumerates(r.value, rows, FieldEquals(PrimaryType, t))
    {
      TypeFilter(rows, PrimaryType, t)
    }

    /** `get_by_secondary_type`. */
    function BySecondaryType(t: string): (r: Result<seq<string>, QueryError>)
      requires Valid()
      ensures r.Failure? <==> HasNoneValue(rows, SecondaryType)
      ensures r.Success? ==> Enumerates(r.value, rows, FieldEquals(SecondaryType, t))
    {
      TypeFilter(rows, SecondaryType, t)
    }

    /** `get_all_megas`. */
    function AllMegas(): (r: seq<string>)
      requires Valid()
      ensures Enumerates(r, rows, FlagSet(MegaEvolution))
    {
      SelectEnumerates(rows, FlagSet(MegaEvolution));
      Select(rows, FlagSet(MegaEvolution))
    }

    /** `get_all_regional_forms`. */
    function AllRegionalForms(): (r: seq<string>)
      requires Valid()
      ensures Enumerates(r, rows, HasRegionalForm)
    {
      SelectEnumerates(rows, HasRegionalForm);
      Select(rows, HasRegionalForm)
    }

    /** `get_all_legendaries`: only `legendary` is consulted, not `overall_legendary`. */
    function AllLegendaries(): (r: seq<string>)
      requires Valid()
      ensures Enumerates(r, rows, FlagSet(Legendary))
    {
      SelectEnumerates(rows, FlagSet(Legendary));
      Select(rows, FlagSet(Legendary))
    }
  }

  /**
   * `_load_csv` after the file has been parsed into `rows`: builds the name
   * index and installs both views, or fails without a store.
   */
  method Load(rows: seq<Row>) returns (r: Result<Store, LoadError>)
    ensures r.Success? <==> AllNamed(rows)
    ensures r.Success? ==> fresh(r.value) && r.value.Valid() && r.value.rows == rows
    ensures r.Failure? ==> r.error.row < |rows| && !Named(rows[r.error.row]) && AllNamed(rows[..r.error.row])
  {
    var index := BuildNameIndex(rows);
    match index {
      case Failure(e) =>
        r := Failure(e);
      case Success(m) =>
        var store := new Store(rows, m);
        r := Success(store);
    }
  }
}
