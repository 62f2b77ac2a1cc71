/**
 * The spreadsheet data layer: reading a tab into a table, looking a user up
 * by login and registering a new user. A tab is a `Worksheet` holding its
 * grid of cell texts (row 0 is the header row, sheet row 1); a `null`
 * worksheet stands for every way of failing to obtain it (missing
 * credentials, an unreachable spreadsheet, an unknown tab name).
 */
module Sheets {
  import opened Wrappers
  import opened Text
  import opened Frames

  const LoginColumn: string := "Login"
  /** The header row the users tab is laid out with; new users are appended in this order. */
  const UsersHeader: seq<string> := ["Login", "Email", "Senha", "Tipo de Usuário"]

  const UserExists: string := "Usuário já existe"
  const UserRegistered: string := "Usuário cadastrado com sucesso"
  const SheetUnavailable: string := "Erro ao acessar a planilha"

  /** The cell in column `j` of a row, '' past its last non-empty cell. */
  function Cell(row: seq<string>, j: nat): string
  {
    if j < |row| then row[j] else ""
  }

  /** The set of names in a header row. */
  function HeaderKeys(header: seq<string>): set<string>
  {
    set k | k in header
  }

  /** The last column of the header named `k`. */
  function LastIndex(header: seq<string>, k: string): (j: nat)
    requires k in header
    ensures j < |header| && header[j] == k
    ensures forall m :: j < m < |header| ==> header[m] != k
  {
    var n := |header| - 1;
    if header[n] == k then n
    else
      assert k in header[..n] by { var m :| 0 <= m < |header| && header[m] == k; assert header[..n][m] == k; }
      LastIndex(header[..n], k)
  }

  /**
   * One record of `get_all_records`: `dict(zip(header, row))` with short rows
   * padded with ''. Cells beyond the header are dropped and, when a name
   * repeats in the header, its last column wins.
   */
  function RecordOf(header: seq<string>, row: seq<string>): Record
  {
    map k | k in header :: Cell(row, LastIndex(header, k))
  }

  /** A record's keys are exactly the names in the header. */
  lemma RecordOfKeys(header: seq<string>, row: seq<string>)
    ensures RecordOf(header, row).Keys == HeaderKeys(header)
  {
  }

  /** No name occurs twice in the header. */
  predicate Distinct(header: seq<string>)
  {
    forall i, j :: 0 <= i < j < |header| ==> header[i] != header[j]
  }

  /** Under a header whose names are all different, each name maps to the cell below it. */
  lemma RecordOfDistinct(header: seq<string>, row: seq<string>)
    requires Distinct(header)
    ensures forall j :: 0 <= j < |header| ==> RecordOf(header, row)[header[j]] == Cell(row, j)
  {
    forall j | 0 <= j < |header| ensures RecordOf(header, row)[header[j]] == Cell(row, j) {
      var k := LastIndex(header, header[j]);
      assert header[k] == header[j];
    }
  }

  /** `worksheet.get_all_records()`: one record per row below the header. */
  function AllRecords(values: seq<seq<string>>): seq<Record>
  {
    if values == [] then []
    else seq(|values| - 1, i requires 0 <= i < |values| - 1 => RecordOf(values[0], values[i + 1]))
  }

  /** Every record of a tab has exactly the header's names as keys. */
  lemma {:induction false} RecordsUniform(values: seq<seq<string>>)
    requires values != []
    ensures forall i :: 0 <= i < |AllRecords(values)| ==> AllRecords(values)[i].Keys == HeaderKeys(values[0])
  {
    var records := AllRecords(values);
    forall i | 0 <= i < |records| ensures records[i].Keys == HeaderKeys(values[0]) {
      assert records[i] == RecordOf(values[0], values[i + 1]);
      RecordOfKeys(values[0], values[i + 1]);
    }
  }

  /**
   * `append_row` adds one record at the end of the records; on a tab with no
   * header row the appended row becomes the header and there are still no records.
   */
  lemma AllRecordsAppend(values: seq<seq<string>>, row: seq<string>)
    ensures values != [] ==> AllRecords(values + [row]) == AllRecords(values) + [RecordOf(values[0], row)]
    ensures values == [] ==> AllRecords(values + [row]) == []
  {
  }

  /** The table `pd.DataFrame(records).fillna('')` made from a tab's records. */
  lemma TableOfTab(values: seq<seq<string>>)
    ensures WellFormed(FromRecords(AllRecords(values)))
    ensures |FromRecords(AllRecords(values)).rows| == |AllRecords(values)|
    ensures forall i :: 0 <= i < |AllRecords(values)| ==>
      FromRecords(AllRecords(values)).rows[i] == Entry(i, AllRecords(values)[i])
    ensures AllRecords(values) != [] ==> FromRecords(AllRecords(values)).columns == HeaderKeys(values[0])
  {
    var records := AllRecords(values);
    FromRecordsShape(records);
    if values != [] {
      RecordsUniform(values);
      UniformRecordsKept(records, HeaderKeys(values[0]));
    }
  }

  /** Row `i` of the table read from a tab is labelled `i` and is the record of grid row `i + 1`. */
  lemma TableRowAt(values: seq<seq<string>>, i: nat)
    requires i < |FromRecords(AllRecords(values)).rows|
    ensures values != [] && i + 1 < |values|
    ensures FromRecords(AllRecords(values)).rows[i] == Entry(i, RecordOf(values[0], values[i + 1]))
  {
    var records := AllRecords(values);
    var t := FromRecords(records);
    assert |t.rows| == |records| && t.rows[i].name == i;
    assert values != [] && i + 1 < |values|;
    var keys := HeaderKeys(values[0]);
    assert KeysOf(records) == keys by {
      RecordsUniform(values);
      UniformKeys(records, keys);
    }
    assert records[i] == RecordOf(values[0], values[i + 1]);
    assert records[i].Keys == keys by {
      RecordOfKeys(values[0], values[i + 1]);
    }
    UniformRowKept(records, keys, i);
  }

  /** A gspread worksheet: the full grid of the tab's cell texts. */
  class Worksheet {
    var values: seq<seq<string>>

    function Records(): seq<Record>
      reads this
    {
      AllRecords(values)
    }

    /** `worksheet.append_row(row)`: the row goes after the last one. */
    method AppendRow(row: seq<string>)
      modifies this
      ensures values == old(values) + [row]
    {
      values := values + [row];
    }
  }

  /**
   * `read_sheet_to_dataframe`: `None` exactly when the worksheet could not be
   * obtained; otherwise a table, possibly with no rows, holding the tab's
   * records unchanged under the labels 0, 1, 2, ...
   */
  function ReadSheetToDataframe(ws: Worksheet?): (df: Option<Table>)
    reads ws
    ensures df.None? <==> ws == null
    ensures ws != null ==> WellFormed(df.value) && |df.value.rows| == |ws.Records()|
    ensures ws != null ==> forall i :: 0 <= i < |ws.Records()| ==> df.value.rows[i] == Entry(i, ws.Records()[i])
    ensures ws != null && ws.Records() != [] ==> df.value.columns == HeaderKeys(ws.values[0])
  {
    if ws == null then None
    else
      TableOfTab(ws.values);
      Some(FromRecords(ws.Records()))
  }

  /** `str(record.get('Login', ''))`: a record without a `Login` column has the empty login. */
  function LoginOf(r: Record): string
  {
    if LoginColumn in r then r[LoginColumn] else ""
  }

  /** The comparison of `get_user_by_login`: logins equal once both are lowercased. */
  predicate LoginMatches(r: Record, login: string)
  {
    Lower(LoginOf(r)) == Lower(login)
  }

  /** The position of the first record, in sheet order, whose login matches. */
  function FirstMatch(records: seq<Record>, login: string): (k: Option<nat>)
    ensures k.Some? ==> k.value < |records| && LoginMatches(records[k.value], login)
    ensures k.Some? ==> forall j :: 0 <= j < k.value ==> !LoginMatches(records[j], login)
    ensures k.None? <==> forall j :: 0 <= j < |records| ==> !LoginMatches(records[j], login)
  {
    if records == [] then None
    else if LoginMatches(records[0], login) then Some(0)
    else
      match FirstMatch(records[1..], login)
      case None => None
      case Some(k) => Some(k + 1)
  }

  /**
   * `get_user_by_login`: scans the records in sheet order and returns the
   * first whose login matches ignoring case; `None` when none does or the
   * worksheet is unavailable.
   */
  method GetUserByLogin(ws: Worksheet?, login: string) returns (user: Option<Record>)
    ensures user.Some? <==> ws != null && FirstMatch(ws.Records(), login).Some?
    ensures user.Some? ==> user.value == ws.Records()[FirstMatch(ws.Records(), login).value]
  {
    if ws == null {
      return None;
    }
    var records := ws.Records();
    for i := 0 to |records|
      invariant forall j :: 0 <= j < i ==> !LoginMatches(records[j], login)
    {
      if Lower(LoginOf(records[i])) == Lower(login) {
        FirstMatchAt(records, login, i);
        return Some(records[i]);
      }
    }
    return None;
  }

  /** The first matching record is the one `FirstMatch` finds. */
  lemma {:induction false} FirstMatchAt(records: seq<Record>, login: string, i: nat)
    requires i < |records| && LoginMatches(records[i], login)
    requires forall j :: 0 <= j < i ==> !LoginMatches(records[j], login)
    ensures FirstMatch(records, login) == Some(i)
  {
    if i > 0 {
      FirstMatchAt(records[1..], login, i - 1);
    }
  }

  /** The fields `register_user` reads from `user_data`. */
  datatype NewUser = NewUser(login: string, email: string, password: string, role: string)

  /** The row `register_user` appends: Login, Email, Senha, Tipo de Usuário. */
  function NewRow(u: NewUser): seq<string>
  {
    [u.login, u.email, u.password, u.role]
  }

  /**
   * The uniqueness test of `register_user`: the lookup found a record and the
   * record is truthy (a non-empty dict).
   */
  predicate Taken(records: seq<Record>, login: string)
  {
    var k := FirstMatch(records, login);
    k.Some? && records[k.value] != map[]
  }

  /**
   * `register_user`: fails when the worksheet is unavailable, refuses a login
   * already taken (ignoring case) and otherwise appends exactly one row.
   */
  method RegisterUser(ws: Worksheet?, user: NewUser) returns (ok: bool, message: string)
    modifies ws
    ensures ws == null ==> !ok && message == SheetUnavailable
    ensures ws != null && Taken(old(ws.Records()), user.login) ==>
      !ok && message == UserExists && ws.values == old(ws.values)
    ensures ws != null && !Taken(old(ws.Records()), user.login) ==>
      ok && message == UserRegistered && ws.values == old(ws.values) + [NewRow(user)]
  {
    if ws == null {
      return false, SheetUnavailable;
    }
    var existing := GetUserByLogin(ws, user.login);
    if existing.Some? && existing.value != map[] {
      return false, UserExists;
    }
    ws.AppendRow(NewRow(user));
    return true, UserRegistered;
  }

  /**
   * On a tab with a header row every record is a non-empty dict, so the
   * truthiness test is no obstacle: a login is taken exactly when some record
   * matches it.
   */
  lemma TakenIffSomeMatch(values: seq<seq<string>>, login: string)
    requires values != [] && values[0] != []
    ensures Taken(AllRecords(values), login) <==>
      exists j :: 0 <= j < |AllRecords(values)| && LoginMatches(AllRecords(values)[j], login)
  {
    var records := AllRecords(values);
    var k := FirstMatch(records, login);
    if k.Some? {
      assert values[0][0] in records[k.value];
    }
  }

  /** Under the users header the appended row reads back with the user's four fields. */
  lemma UserRowReadsBack(u: NewUser)
    ensures RecordOf(UsersHeader, NewRow(u)).Keys == {"Login", "Email", "Senha", "Tipo de Usuário"}
    ensures LoginOf(RecordOf(UsersHeader, NewRow(u))) == u.login
    ensures RecordOf(UsersHeader, NewRow(u))["Email"] == u.email
    ensures RecordOf(UsersHeader, NewRow(u))["Senha"] == u.password
    ensures RecordOf(UsersHeader, NewRow(u))["Tipo de Usuário"] == u.role
  {
    var r := RecordOf(UsersHeader, NewRow(u));
    assert r.Keys == {"Login", "Email", "Senha", "Tipo de Usuário"} by {
      RecordOfKeys(UsersHeader, NewRow(u));
      UsersHeaderKeys();
    }
    assert r[UsersHeader[0]] == u.login && r[UsersHeader[1]] == u.email &&
      r[UsersHeader[2]] == u.password && r[UsersHeader[3]] == u.role by {
      UsersHeaderDistinct();
      RecordOfDistinct(UsersHeader, NewRow(u));
    }
  }

  lemma UsersHeaderDistinct()
    ensures Distinct(UsersHeader)
  {
  }

  lemma UsersHeaderKeys()
    ensures HeaderKeys(UsersHeader) == {"Login", "Email", "Senha", "Tipo de Usuário"}
  {
    assert forall k :: k in UsersHeader <==> k in {"Login", "Email", "Senha", "Tipo de Usuário"};
  }

  /**
   * After a successful registration on the users tab, looking up the new
   * login in any capitalisation finds the new user, and finds it last:
   * no earlier record matches.
   */
  lemma {:induction false} RegisteredUserFound(values: seq<seq<string>>, u: NewUser, query: string)
    requires values != [] && values[0] == UsersHeader
    requires !Taken(AllRecords(values), u.login)
    requires Lower(query) == Lower(u.login)
    ensures FirstMatch(AllRecords(values + [NewRow(u)]), query) == Some(|values| - 1)
    ensures AllRecords(values + [NewRow(u)])[|values| - 1] == RecordOf(UsersHeader, NewRow(u))
  {
    assert LoginMatches(RecordOf(values[0], NewRow(u)), query) by {
      UserRowReadsBack(u);
    }
    assert forall i :: 0 <= i < |AllRecords(values)| ==> !LoginMatches(AllRecords(values)[i], query) by {
      TakenIffSomeMatch(values, u.login);
    }
    AppendedRowFound(values, NewRow(u), query);
  }

  /** A row whose record matches, appended below records that do not, is the first match. */
  lemma AppendedRowFound(values: seq<seq<string>>, row: seq<string>, login: string)
    requires values != []
    requires forall i :: 0 <= i < |AllRecords(values)| ==> !LoginMatches(AllRecords(values)[i], login)
    requires LoginMatches(RecordOf(values[0], row), login)
    ensures FirstMatch(AllRecords(values + [row]), login) == Some(|values| - 1)
    ensures AllRecords(values + [row])[|values| - 1] == RecordOf(values[0], row)
  {
    AllRecordsAppend(values, row);
    FirstMatchAppend(AllRecords(values), RecordOf(values[0], row), login);
  }

  /** A matching record added after records that do not match is the first match. */
  lemma FirstMatchAppend(records: seq<Record>, r: Record, login: string)
    requires forall j :: 0 <= j < |records| ==> !LoginMatches(records[j], login)
    requires LoginMatches(r, login)
    ensures FirstMatch(records + [r], login) == Some(|records|)
  {
    var after := records + [r];
    forall j | 0 <= j < |records| ensures !LoginMatches(after[j], login) {
      assert after[j] == records[j];
    }
    FirstMatchAt(after, login, |records|);
  }

  /** No two records of a tab have logins that are equal ignoring case. */
  ghost predicate UniqueLogins(records: seq<Record>)
  {
    forall i, j :: 0 <= i < j < |records| ==> Lower(LoginOf(records[i])) != Lower(LoginOf(records[j]))
  }

  /** Registration keeps the users tab's logins unique ignoring case. */
  lemma {:induction false} RegisterKeepsLoginsUnique(values: seq<seq<string>>, u: NewUser)
    requires values != [] && values[0] == UsersHeader
    requires UniqueLogins(AllRecords(values))
    requires !Taken(AllRecords(values), u.login)
    ensures UniqueLogins(AllRecords(values + [NewRow(u)]))
  {
    var before := AllRecords(values);
    var added := RecordOf(UsersHeader, NewRow(u));
    assert AllRecords(values + [NewRow(u)]) == before + [added] by {
      AllRecordsAppend(values, NewRow(u));
    }
    assert LoginOf(added) == u.login by {
      UserRowReadsBack(u);
    }
    assert forall i :: 0 <= i < |before| ==> !LoginMatches(before[i], u.login) by {
      TakenIffSomeMatch(values, u.login);
    }
    UniqueLoginsAppend(before, added);
  }

  /** A record whose login matches none of the others keeps the logins unique when added last. */
  lemma UniqueLoginsAppend(records: seq<Record>, r: Record)
    requires UniqueLogins(records)
    requires forall i :: 0 <= i < |records| ==> !LoginMatches(records[i], LoginOf(r))
    ensures UniqueLogins(records + [r])
  {
    var after := records + [r];
    forall i, j | 0 <= i < j < |after| ensures Lower(LoginOf(after[i])) != Lower(LoginOf(after[j])) {
      assert after[i] == records[i];
      if j < |records| {
        assert after[j] == records[j];
      }
    }
  }

  /**
   * Logins are unique regardless of case: once "ana" is registered, "ANA" is
   * taken.
   */
  lemma SecondRegistrationRefused(values: seq<seq<string>>, email: string, password: string, role: string)
    requires values != [] && values[0] == UsersHeader
    requires !Taken(AllRecords(values), "ana")
    ensures Taken(AllRecords(values + [NewRow(NewUser("ana", email, password, role))]), "ANA")
  {
    assert Lower("ANA") == Lower("ana") by {
      assert Lower("ANA") == "ana";
      assert Lower("ana") == "ana";
    }
    var u := NewUser("ana", email, password, role);
    RegisteredUserFound(values, u, "ANA");
  }
}
