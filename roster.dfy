/**
  Decoding of the exported member roster. The export is a text file: a banner
  line, then a comma-separated table whose header names an `Email address`
  column. Each data row becomes the local part of its e-mail address.
  Fields are split at every comma (no quoting), as a line-by-line view of the
  table the CSV reader yields.
 */
module Roster {
  import opened Wrappers

  /** The header of the column that holds each member's address. */
  const EmailColumn: string := "Email address"

  datatype RosterError =
    /** The file has no first line to skip: reading it raises StopIteration. */
    | EmptyExport
    /** The header has no `Email address` field: the row lookup raises KeyError. */
    | NoEmailColumn
    /** A row ends before the e-mail field: its value is None, which cannot be split. */
    | ShortRow

  /** `s.split(sep)`: the pieces between occurrences of `sep`; never empty. */
  function Split(s: string, sep: char): (parts: seq<string>)
    ensures |parts| >= 1
    decreases |s|
  {
    if s == [] then [""]
    else
      var rest := Split(s[1..], sep);
      if s[0] == sep then [""] + rest else [[s[0]] + rest[0]] + rest[1..]
  }

  /** `sep.join(parts)`, the inverse of Split. */
  function Join(parts: seq<string>, sep: char): string
    requires |parts| >= 1
  {
    if |parts| == 1 then parts[0] else parts[0] + [sep] + Join(parts[1..], sep)
  }

  /** Splitting loses nothing: the pieces joined back give the input, and no piece holds `sep`. */
  lemma {:induction false} JoinSplit(s: string, sep: char)
    ensures Join(Split(s, sep), sep) == s
    ensures forall i :: 0 <= i < |Split(s, sep)| ==> sep !in Split(s, sep)[i]
  {
    if s != [] {
      var rest := Split(s[1..], sep);
      JoinSplit(s[1..], sep);
      assert s == [s[0]] + s[1..];
      if s[0] != sep && |rest| > 1 {
        assert Split(s, sep)[1..] == rest[1..];
      }
    }
  }

  /** A string without `sep` splits into itself. */
  lemma {:induction false} SplitWithoutSeparator(a: string, sep: char)
    requires sep !in a
    ensures Split(a, sep) == [a]
  {
    if a != [] {
      SplitWithoutSeparator(a[1..], sep);
      assert a == [a[0]] + a[1..];
    }
  }

  /** The first piece ends at the first `sep`. */
  lemma {:induction false} SplitAtFirstSeparator(a: string, sep: char, b: string)
    requires sep !in a
    ensures Split(a + [sep] + b, sep) == [a] + Split(b, sep)
  {
    if a == [] {
      assert (a + [sep] + b)[1..] == b;
    } else {
      SplitAtFirstSeparator(a[1..], sep, b);
      assert (a + [sep] + b)[1..] == a[1..] + [sep] + b;
      assert a == [a[0]] + a[1..];
    }
  }

  /** Pieces without `sep` joined and split again give back the pieces. */
  lemma {:induction false} SplitJoin(parts: seq<string>, sep: char)
    requires |parts| >= 1
    requires forall i :: 0 <= i < |parts| ==> sep !in parts[i]
    ensures Split(Join(parts, sep), sep) == parts
  {
    if |parts| == 1 {
      SplitWithoutSeparator(parts[0], sep);
    } else {
      SplitJoin(parts[1..], sep);
      SplitAtFirstSeparator(parts[0], sep, Join(parts[1..], sep));
      assert parts == [parts[0]] + parts[1..];
    }
  }

  /** `email.split('@')[0]`: the user name a roster address stands for. */
  function LocalPart(email: string): string
  {
    Split(email, '@')[0]
  }

  /** The local part is the text before the first `@`, or the whole address if it has none. */
  lemma LocalPartIsTextBeforeFirstAt(email: string)
    ensures LocalPart(email) <= email
    ensures '@' !in LocalPart(email)
    ensures |LocalPart(email)| < |email| ==> email[|LocalPart(email)|] == '@'
    ensures '@' !in email ==> LocalPart(email) == email
  {
    var parts := Split(email, '@');
    JoinSplit(email, '@');
    if |parts| > 1 {
      assert email == parts[0] + ['@'] + Join(parts[1..], '@');
    }
  }

  /** An address built from a user and a domain gives the user back. */
  lemma LocalPartOfAddress(user: string, domain: string)
    requires '@' !in user
    ensures LocalPart(user + "@" + domain) == user
  {
    SplitAtFirstSeparator(user, '@', domain);
  }

  /** The fields of one line of the table; a blank line is a row with no fields. */
  function Fields(line: string): seq<string>
  {
    if line == "" then [] else Split(line, ',')
  }

  /** The position of the last field equal to `key` (a repeated header name keeps its last column). */
  function LastIndexOf(fields: seq<string>, key: string): (r: Option<nat>)
    ensures r.None? <==> key !in fields
    ensures r.Some? ==> r.value < |fields| && fields[r.value] == key
    ensures r.Some? ==> forall j :: r.value < j < |fields| ==> fields[j] != key
  {
    if fields == [] then None
    else if fields[|fields| - 1] == key then Some(|fields| - 1)
    else LastIndexOf(fields[..|fields| - 1], key)
  }

  /**
    The value a data row holds under the e-mail column: a missing column is a
    KeyError, and a row too short to reach the column yields None, on which the
    split fails.
   */
  function RowEmail(header: seq<string>, row: seq<string>): Result<string, RosterError>
  {
    match LastIndexOf(header, EmailColumn)
    case None => Failure(NoEmailColumn)
    case Some(j) => if j < |row| then Success(row[j]) else Failure(ShortRow)
  }

  /** The user names of `rows`, in order; the first row that fails stops the decoding. */
  function UsernamesOfRows(header: seq<string>, rows: seq<seq<string>>): Result<seq<string>, RosterError>
  {
    if rows == [] then Success([])
    else
      match UsernamesOfRows(header, rows[..|rows| - 1])
      case Failure(e) => Failure(e)
      case Success(names) =>
        match RowEmail(header, rows[|rows| - 1])
        case Failure(e) => Failure(e)
        case Success(email) => Success(names + [LocalPart(email)])
  }

  /** The rows of the table after its header; blank lines are skipped. */
  function DataRows(lines: seq<string>): seq<seq<string>>
  {
    if lines == [] then []
    else
      var last := lines[|lines| - 1];
      DataRows(lines[..|lines| - 1]) + (if last == "" then [] else [Fields(last)])
  }

  /** The header: the line after the banner (not blank-skipped), or none. */
  function Header(lines: seq<string>): seq<string>
  {
    if |lines| >= 2 then Fields(lines[1]) else []
  }

  /** The data lines: everything after the header. */
  function Body(lines: seq<string>): seq<string>
  {
    if |lines| >= 2 then lines[2..] else []
  }

  /** What listing all user names yields for an export file with these lines. */
  function Usernames(lines: seq<string>): Result<seq<string>, RosterError>
  {
    if lines == [] then Failure(EmptyExport)
    else UsernamesOfRows(Header(lines), DataRows(Body(lines)))
  }

  /** The loop that reduces each data row to a user name, appending in row order. */
  method ExtractUsernames(header: seq<string>, rows: seq<seq<string>>) returns (r: Result<seq<string>, RosterError>)
    ensures r == UsernamesOfRows(header, rows)
  {
    var result: seq<string> := [];
    var i := 0;
    while i < |rows|
      invariant 0 <= i <= |rows|
      invariant UsernamesOfRows(header, rows[..i]) == Success(result)
    {
      assert rows[..i + 1][..i] == rows[..i];
      var email := RowEmail(header, rows[i]);
      if email.Failure? {
        assert UsernamesOfRows(header, rows[..i + 1]) == Failure(email.error);
        PrefixFailureIsFinal(header, rows, i + 1);
        return Failure(email.error);
      }
      result := result + [LocalPart(email.value)];
      i := i + 1;
    }
    assert rows[..i] == rows;
    r := Success(result);
  }

  /** Once a prefix of the rows fails, the whole table fails with the same error. */
  lemma {:induction false} PrefixFailureIsFinal(header: seq<string>, rows: seq<seq<string>>, n: nat)
    requires n <= |rows|
    requires UsernamesOfRows(header, rows[..n]).Failure?
    ensures UsernamesOfRows(header, rows) == UsernamesOfRows(header, rows[..n])
    decreases |rows| - n
  {
    if n < |rows| {
      assert rows[..n + 1][..n] == rows[..n];
      PrefixFailureIsFinal(header, rows, n + 1);
    } else {
      assert rows[..n] == rows;
    }
  }

  /**
    Decoding succeeds exactly when there are no rows or every row reaches the
    e-mail column; then it yields one user name per row, in row order (so
    duplicates are kept), each the local part of that row's address.
   */
  lemma {:induction false} UsernamesOfRowsMeaning(header: seq<string>, rows: seq<seq<string>>)
    ensures UsernamesOfRows(header, rows).Success? <==>
      forall k :: 0 <= k < |rows| ==> RowEmail(header, rows[k]).Success?
    ensures UsernamesOfRows(header, rows).Success? ==>
      && |UsernamesOfRows(header, rows).value| == |rows|
      && forall k :: 0 <= k < |rows| ==>
           UsernamesOfRows(header, rows).value[k] == LocalPart(RowEmail(header, rows[k]).value)
    ensures UsernamesOfRows(header, rows).Failure? ==>
      (UsernamesOfRows(header, rows).error == NoEmailColumn <==> EmailColumn !in header)
  {
    if rows != [] {
      var init := rows[..|rows| - 1];
      UsernamesOfRowsMeaning(header, init);
      assert forall k :: 0 <= k < |init| ==> rows[k] == init[k];
    }
  }

  /** The rows of two runs of lines are the rows of the first run, then those of the second. */
  lemma {:induction false} DataRowsAppend(a: seq<string>, b: seq<string>)
    ensures DataRows(a + b) == DataRows(a) + DataRows(b)
    decreases |b|
  {
    if b == [] {
      assert a + b == a;
    } else {
      var b' := b[..|b| - 1];
      DataRowsAppend(a, b');
      assert (a + b)[..|a + b| - 1] == a + b';
    }
  }

  /** A blank line after the header changes nothing. */
  lemma BlankLinesAreSkipped(a: seq<string>, b: seq<string>)
    ensures DataRows(a + [""] + b) == DataRows(a + b)
  {
    DataRowsAppend(a + [""], b);
    DataRowsAppend(a, b);
    assert (a + [""])[..|a|] == a;
  }

  /** An export with no data rows, only blank lines after the header, lists no one. */
  lemma EmptyRoster(banner: string, header: string, blanks: seq<string>)
    requires forall i :: 0 <= i < |blanks| ==> blanks[i] == ""
    ensures Usernames([banner, header] + blanks) == Success([])
    ensures Usernames([banner]) == Success([])
  {
    BlankLinesHaveNoRows(blanks);
    assert Body([banner, header] + blanks) == blanks;
  }

  lemma {:induction false} BlankLinesHaveNoRows(blanks: seq<string>)
    requires forall i :: 0 <= i < |blanks| ==> blanks[i] == ""
    ensures DataRows(blanks) == []
  {
    if blanks != [] {
      BlankLinesHaveNoRows(blanks[..|blanks| - 1]);
    }
  }

  /**
    A roster of two members, each row an address and a nickname, decodes to the
    two user names in file order, whatever the banner and the domain.
   */
  lemma TwoMemberRoster(banner: string, column: string, user1: string, user2: string, domain: string,
                        nick1: string, nick2: string)
    requires ',' !in column && ',' !in nick1 && ',' !in nick2 && column != EmailColumn
    requires '@' !in user1 && '@' !in user2 && ',' !in user1 && ',' !in user2 && ',' !in domain
    ensures Usernames([banner, EmailColumn + "," + column, user1 + "@" + domain + "," + nick1,
                       user2 + "@" + domain + "," + nick2])
      == Success([user1, user2])
  {
    var email1, email2 := user1 + "@" + domain, user2 + "@" + domain;
    var header := [EmailColumn, column];
    TwoRowTable(banner, EmailColumn, column, email1, nick1, email2, nick2);
    assert LastIndexOf(header, EmailColumn) == Some(0);
    TwoRowNames(header, email1, nick1, email2, nick2);
    LocalPartOfAddress(user1, domain);
    LocalPartOfAddress(user2, domain);
  }

  /** The header and rows of a file holding a two-column header and two rows. */
  lemma TwoRowTable(banner: string, h1: string, h2: string, a1: string, b1: string, a2: string, b2: string)
    requires ',' !in h1 && ',' !in h2 && ',' !in a1 && ',' !in b1 && ',' !in a2 && ',' !in b2
    ensures Header([banner, h1 + "," + h2, a1 + "," + b1, a2 + "," + b2]) == [h1, h2]
    ensures DataRows(Body([banner, h1 + "," + h2, a1 + "," + b1, a2 + "," + b2])) == [[a1, b1], [a2, b2]]
  {
    FieldsOfPair(h1, h2);
    FieldsOfPair(a1, b1);
    FieldsOfPair(a2, b2);
    var body := [a1 + "," + b1, a2 + "," + b2];
    assert Body([banner, h1 + "," + h2, a1 + "," + b1, a2 + "," + b2]) == body;
    assert body[..1] == [a1 + "," + b1];
    assert body[..1][..0] == [];
    assert a1 + "," + b1 != "" && a2 + "," + b2 != "";
    assert DataRows(body[..1]) == [[a1, b1]];
  }

  /** Two rows whose first field is the e-mail column give their local parts, in order. */
  lemma TwoRowNames(header: seq<string>, a1: string, b1: string, a2: string, b2: string)
    requires LastIndexOf(header, EmailColumn) == Some(0)
    ensures UsernamesOfRows(header, [[a1, b1], [a2, b2]]) == Success([LocalPart(a1), LocalPart(a2)])
  {
    var rows := [[a1, b1], [a2, b2]];
    assert RowEmail(header, rows[0]) == Success(a1);
    assert RowEmail(header, rows[1]) == Success(a2);
    UsernamesOfRowsMeaning(header, rows);
    var names := UsernamesOfRows(header, rows).value;
    assert names == [names[0], names[1]];
  }

  /** A line of two comma-free fields splits into those two fields. */
  lemma FieldsOfPair(a: string, b: string)
    requires ',' !in a && ',' !in b
    ensures Fields(a + "," + b) == [a, b]
  {
    SplitAtFirstSeparator(a, ',', b);
    SplitWithoutSeparator(b, ',');
  }
}
