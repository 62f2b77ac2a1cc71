/**
 * The dashboard's own logic: the dynamic filters over the schedule table, the
 * options of each filter's dropdown, the page shown for a session, and the
 * sheet row an edit or a delete targets.
 */
module App {
  import opened Wrappers
  import opened Text
  import opened Frames
  import opened Sheets

  /** The dropdown option that places no constraint on its column. */
  const All: string := "Todos"

  /** A filter selection in the order the dict iterates: column and chosen option. */
  type Filters = seq<(string, string)>

  /** The row passes every filter whose value is not "Todos". */
  predicate Matches(e: Entry, filters: Filters)
  {
    forall f :: f in filters && f.1 != All ==> Hit(e, f.0, f.1)
  }

  /** The rows that pass every active filter. */
  function Filtered(rows: seq<Entry>, filters: Filters): (r: seq<Entry>)
    ensures forall e :: e in r <==> e in rows && Matches(e, filters)
  {
    if rows == [] then []
    else if Matches(rows[0], filters) then [rows[0]] + Filtered(rows[1..], filters)
    else Filtered(rows[1..], filters)
  }

  /** An active filter on a column the table does not have: `df[column]` raises. */
  predicate UnknownColumn(f: (string, string), df: Table)
  {
    f.1 != All && f.0 !in df.columns
  }

  /**
   * `apply_dynamic_filters`: narrows the table by one boolean mask per filter
   * whose value is not "Todos", in the order of the filters. The first active
   * filter on an unknown column raises `KeyError`; otherwise the result keeps
   * the columns and holds exactly the rows that pass every active filter.
   */
  method ApplyDynamicFilters(df: Table, filters: Filters) returns (r: Outcome<Table>)
    ensures r.KeyError? <==> exists f :: f in filters && UnknownColumn(f, df)
    ensures r.KeyError? ==> exists i :: (0 <= i < |filters| && filters[i].0 == r.key && UnknownColumn(filters[i], df) &&
      forall j :: 0 <= j < i ==> !UnknownColumn(filters[j], df))
    ensures r.Ok? ==> r.value == Table(df.columns, Filtered(df.rows, filters))
  {
    AllTodosIdentity(df.rows, []);
    var current := df;
    for i := 0 to |filters|
      invariant current.columns == df.columns
      invariant current.rows == Filtered(df.rows, filters[..i])
      invariant forall j :: 0 <= j < i ==> !UnknownColumn(filters[j], df)
    {
      var f := filters[i];
      if f.1 != All {
        if f.0 !in current.columns {
          assert f in filters && UnknownColumn(f, df);
          return KeyError(f.0);
        }
        current := Table(current.columns, Where(current.rows, f.0, f.1));
      }
      FilteredStep(df.rows, filters[..i], f);
      assert filters[..i + 1] == filters[..i] + [f];
    }
    assert filters[..|filters|] == filters;
    forall f | f in filters ensures !UnknownColumn(f, df) {
      var j :| 0 <= j < |filters| && filters[j] == f;
    }
    return Ok(current);
  }

  /** Adding one more filter narrows by its mask, or not at all when it is "Todos". */
  lemma {:induction false} FilteredStep(rows: seq<Entry>, filters: Filters, f: (string, string))
    ensures Filtered(rows, filters + [f]) ==
      if f.1 == All then Filtered(rows, filters) else Where(Filtered(rows, filters), f.0, f.1)
  {
    if rows != [] {
      FilteredStep(rows[1..], filters, f);
      assert Matches(rows[0], filters + [f]) <==>
        Matches(rows[0], filters) && (f.1 == All || Hit(rows[0], f.0, f.1)) by {
        assert f in filters + [f];
        assert forall g :: g in filters + [f] <==> g in filters || g == f;
      }
    }
  }

  /** A selection that is empty or all "Todos" leaves the rows as they are. */
  lemma {:induction false} AllTodosIdentity(rows: seq<Entry>, filters: Filters)
    requires forall f :: f in filters ==> f.1 == All
    ensures Filtered(rows, filters) == rows
  {
    if rows != [] {
      AllTodosIdentity(rows[1..], filters);
    }
  }

  /** Filtering only drops rows: the result is the input with some rows left out, in order, unaltered. */
  lemma {:induction false} FilteredSubsequence(rows: seq<Entry>, filters: Filters)
    ensures Subsequence(Filtered(rows, filters), rows)
  {
    if rows != [] {
      FilteredSubsequence(rows[1..], filters);
      var r := Filtered(rows, filters);
      if Matches(rows[0], filters) {
        assert r[0] == rows[0] && r[1..] == Filtered(rows[1..], filters);
      } else if r != [] {
        assert r == Filtered(rows[1..], filters);
      }
    }
  }

  /** Filters commute: only which filters are selected matters, not the order they are applied in. */
  lemma {:induction false} FilteredOrderIndependent(rows: seq<Entry>, filters: Filters, others: Filters)
    requires forall f :: f in filters <==> f in others
    ensures Filtered(rows, filters) == Filtered(rows, others)
  {
    if rows != [] {
      FilteredOrderIndependent(rows[1..], filters, others);
      assert Matches(rows[0], filters) == Matches(rows[0], others);
    }
  }

  /** Boolean masks carry the column set and the row shape along, so a well-formed table stays well-formed. */
  lemma FilteredWellFormed(df: Table, filters: Filters)
    requires WellFormed(df)
    ensures WellFormed(Table(df.columns, Filtered(df.rows, filters)))
  {
  }

  /**
   * `get_filter_options`: "Todos" followed by the column's distinct non-empty
   * values in ascending order; `KeyError` for a column the table lacks.
   */
  function GetFilterOptions(df: Table, column: string): (options: Outcome<seq<string>>)
    ensures options.KeyError? <==> column !in df.columns
    ensures options.KeyError? ==> options.key == column
    ensures options.Ok? ==> |options.value| >= 1 && options.value[0] == All
    ensures options.Ok? ==> StrictlySorted(options.value[1..])
    ensures options.Ok? ==> forall x :: x in options.value[1..] <==> x != "" && x in ColumnValues(df.rows, column)
  {
    if column !in df.columns then KeyError(column)
    else
      var sorted := SortUnique(ColumnValues(df.rows, column));
      assert ([All] + sorted)[1..] == sorted;
      Ok(DropEmpty([All] + sorted))
  }

  /** No option occurs twice. */
  predicate NoRepeats(s: seq<string>)
  {
    forall i, j :: 0 <= i < j < |s| ==> s[i] != s[j]
  }

  /**
   * The options repeat exactly when some cell of the column holds "Todos":
   * that value then follows the leading "Todos" a second time.
   */
  lemma OptionsRepeatOnlyForTodos(df: Table, column: string)
    requires column in df.columns
    ensures NoRepeats(GetFilterOptions(df, column).value) <==> All !in ColumnValues(df.rows, column)
  {
    var options := GetFilterOptions(df, column).value;
    var tail := options[1..];
    forall i, j | 0 <= i < j < |tail| ensures tail[i] != tail[j] {
      LessIrreflexive(tail[i]);
    }
    if All in ColumnValues(df.rows, column) {
      assert All in tail;
      var k :| 0 <= k < |tail| && tail[k] == All;
      assert options[k + 1] == All;
    } else {
      forall i, j | 0 <= i < j < |options| ensures options[i] != options[j] {
        if i > 0 {
          assert options[i] == tail[i - 1] && options[j] == tail[j - 1];
        } else {
          assert options[j] == tail[j - 1];
        }
      }
    }
  }

  /** Every option after "Todos" selects at least one row when chosen as a filter. */
  lemma OptionSelectsSomeRow(df: Table, column: string, x: string)
    requires column in df.columns
    requires x in GetFilterOptions(df, column).value[1..]
    ensures Where(df.rows, column, x) != []
  {
    var e :| e in df.rows && Hit(e, column, x);
    assert e in Where(df.rows, column, x);
  }

  /** The page the app shows. */
  datatype Page = LoginForm | RegisterForm | MainApp

  /** The two session flags `main` reads; `None` is a key not yet in the session. */
  datatype Session = Session(loggedIn: Option<bool>, showRegister: Option<bool>)

  /**
   * `main`: defaults each missing flag to False, then shows the main app
   * when logged in, else the register form when asked for, else the login form.
   */
  function Main(s: Session): (r: (Session, Page))
    ensures r.0.loggedIn.Some? && r.0.showRegister.Some?
    ensures s.loggedIn.Some? ==> r.0.loggedIn == s.loggedIn
    ensures s.showRegister.Some? ==> r.0.showRegister == s.showRegister
    ensures s.loggedIn.None? ==> r.0.loggedIn == Some(false)
    ensures s.showRegister.None? ==> r.0.showRegister == Some(false)
    ensures r.1 == MainApp <==> s.loggedIn == Some(true)
    ensures r.1 == RegisterForm <==> s.loggedIn != Some(true) && s.showRegister == Some(true)
    ensures s == Session(None, None) ==> r.1 == LoginForm
  {
    var loggedIn := if s.loggedIn.Some? then s.loggedIn.value else false;
    var showRegister := if s.showRegister.Some? then s.showRegister.value else false;
    var page := if !loggedIn then (if showRegister then RegisterForm else LoginForm) else MainApp;
    (Session(Some(loggedIn), Some(showRegister)), page)
  }

  /** `row.name + 2` on an integer label: the 1-based sheet row of the data row labelled `name`; never the header row 1. */
  function SheetRow(name: nat): (row: nat)
    ensures row >= 2
  {
    name + 2
  }

  /**
   * The `row` a modal receives: a pandas Series with its cells and its
   * `name`, which is the index label or `None`.
   */
  datatype ModalRow = ModalRow(name: Option<nat>, cells: Record)

  /**
   * The modal row of a card as the dashboard builds it: the button stores
   * `row.to_dict()`, which keeps the cells and drops the index label, and the
   * modal gets `pd.Series(...)` of that dict, whose `name` is `None`.
   */
  function StoredModalRow(e: Entry): (m: ModalRow)
    ensures m.name.None? && m.cells == e.cells
  {
    ModalRow(None, e.cells)
  }

  /** A modal row that keeps the card's index label, as passing the Series itself would. */
  function LabelledModalRow(e: Entry): (m: ModalRow)
    ensures m.name == Some(e.name) && m.cells == e.cells
  {
    ModalRow(Some(e.name), e.cells)
  }

  /** Python's message for `None + 2`. */
  const NonePlusInt: string := "unsupported operand type(s) for +: 'NoneType' and 'int'"
  const UpdateFailed: string := "Erro ao atualizar: "
  const DeleteFailed: string := "Erro ao excluir: "

  /** What saving or confirming a modal does: call the sheet helper on a row, or show the caught error. */
  datatype SheetCall = UpdateRow(row: nat) | DeleteRow(row: nat) | ErrorShown(message: string)

  /**
   * "Salvar Alterações" in the edit modal: `update_row_in_sheet` on sheet row
   * `row.name + 2`; a `None` name raises `TypeError` before the call, and the
   * `except` shows it as "Erro ao atualizar: ...".
   */
  function SaveEdit(m: ModalRow): (c: SheetCall)
    ensures c.UpdateRow? <==> m.name.Some?
    ensures c.UpdateRow? ==> c.row == SheetRow(m.name.value)
    ensures c.ErrorShown? ==> c.message == UpdateFailed + NonePlusInt
    ensures !c.DeleteRow?
  {
    match m.name
    case None => ErrorShown(UpdateFailed + NonePlusInt)
    case Some(name) => UpdateRow(SheetRow(name))
  }

  /**
   * "Confirmar Exclusão" in the delete modal: `delete_row_in_sheet` on sheet
   * row `row.name + 2`, with the same `TypeError` path as `SaveEdit`.
   */
  function ConfirmDelete(m: ModalRow): (c: SheetCall)
    ensures c.DeleteRow? <==> m.name.Some?
    ensures c.DeleteRow? ==> c.row == SheetRow(m.name.value)
    ensures c.ErrorShown? ==> c.message == DeleteFailed + NonePlusInt
    ensures !c.UpdateRow?
  {
    match m.name
    case None => ErrorShown(DeleteFailed + NonePlusInt)
    case Some(name) => DeleteRow(SheetRow(name))
  }

  /**
   * As the dashboard is written, no card's edit or delete ever reaches the
   * sheet: each shows the caught `TypeError` instead, the first card (label 0)
   * included.
   */
  lemma StoredCardNeverReachesSheet(e: Entry)
    ensures SaveEdit(StoredModalRow(e)) == ErrorShown(UpdateFailed + NonePlusInt)
    ensures ConfirmDelete(StoredModalRow(e)) == ErrorShown(DeleteFailed + NonePlusInt)
    ensures e.name == 0 ==> SaveEdit(LabelledModalRow(e)) == UpdateRow(2)
  {
  }

  /**
   * With the label kept, a card of the filtered view of a tab sends its edit
   * or delete to the sheet row that holds exactly that card's record:
   * filtering keeps the index labels, and label `i` came from grid row
   * `i + 1` below the header.
   */
  lemma EditTargetsSourceRow(values: seq<seq<string>>, filters: Filters, e: Entry)
    requires e in Filtered(FromRecords(AllRecords(values)).rows, filters)
    ensures SaveEdit(LabelledModalRow(e)) == UpdateRow(SheetRow(e.name))
    ensures ConfirmDelete(LabelledModalRow(e)) == DeleteRow(SheetRow(e.name))
    ensures SheetRow(e.name) <= |values|
    ensures RecordOf(values[0], values[SheetRow(e.name) - 1]) == e.cells
  {
    var rows := FromRecords(AllRecords(values)).rows;
    assert e in rows;
    var i :| 0 <= i < |rows| && rows[i] == e;
    TableRowAt(values, i);
  }
}
