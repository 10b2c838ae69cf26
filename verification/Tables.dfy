/** Reading the tables behind the cached readers: selection by a condition, order, and password checks. */
module Tables {
  import opened Wrappers
  import opened CacheAside

  /** The conditions of the queries; a comparison with NULL never holds. */
  datatype Where = Is(column: string, text: string)
    | IsNot(column: string, text: string)
    | Hashed(id: string, lookup: string)
    | Legacy(id: string)

  predicate Holds(where: Where, row: Row) {
    match where
    case Is(column, text) => Get(row, column) == Text(text)
    case IsNot(column, text) => Get(row, column) != Text(text)
    case Hashed(id, lookup) => Get(row, "id") == Text(id) && Get(row, "password_lookup_hash") == Text(lookup)
    case Legacy(id) => Get(row, "id") == Text(id) && Get(row, "password_lookup_hash") == Null
  }

  /** `SELECT * FROM … WHERE …`, in primary-key order; with `IsNot`, what a DELETE leaves. */
  function Select(rows: seq<Row>, where: Where): seq<Row> {
    if rows == [] then []
    else if Holds(where, rows[0]) then [rows[0]] + Select(rows[1..], where)
    else Select(rows[1..], where)
  }

  function Reversed(rows: seq<Row>): seq<Row> {
    if rows == [] then [] else Reversed(rows[1..]) + [rows[0]]
  }

  /** The check of a stored password, `verify_password` on two strings. */
  type Verify = (string, string) -> bool

  predicate Verified(verify: Verify, row: Row, password: string) {
    Get(row, "password").Text? && verify(Get(row, "password").text, password)
  }

  function FirstVerified(verify: Verify, rows: seq<Row>, password: string): Option<Row> {
    if rows == [] then None
    else if Verified(verify, rows[0], password) then Some(rows[0])
    else FirstVerified(verify, rows[1..], password)
  }

  lemma {:induction false} SelectAppend(rows: seq<Row>, row: Row, where: Where)
    ensures Select(rows + [row], where) ==
            if Holds(where, row) then Select(rows, where) + [row] else Select(rows, where)
  {
    if rows == [] {
      assert rows + [row] == [row];
    } else {
      assert (rows + [row])[1..] == rows[1..] + [row];
      SelectAppend(rows[1..], row, where);
    }
  }

  /** Rows selected by another value of the column are none of those removed. */
  lemma {:induction false} SelectRest(rows: seq<Row>, column: string, gone: string, text: string)
    requires gone != text
    ensures Select(Select(rows, IsNot(column, gone)), Is(column, text)) == Select(rows, Is(column, text))
  {
    if rows != [] {
      SelectRest(rows[1..], column, gone, text);
      var rest := Select(rows[1..], IsNot(column, gone));
      assert ([rows[0]] + rest)[1..] == rest;
    }
  }

  lemma {:induction false} SelectNone(rows: seq<Row>, column: string, gone: string)
    requires Select(rows, Is(column, gone)) == []
    ensures Select(rows, IsNot(column, gone)) == rows
  {
    if rows != [] {
      SelectNone(rows[1..], column, gone);
    }
  }

  lemma {:induction false} ReversedAppend(rows: seq<Row>, row: Row)
    ensures Reversed(rows + [row]) == [row] + Reversed(rows)
  {
    if rows == [] {
      assert rows + [row] == [row] && [row][1..] == [];
    } else {
      assert (rows + [row])[1..] == rows[1..] + [row];
      ReversedAppend(rows[1..], row);
    }
  }

  lemma {:induction false} ReversedLength(rows: seq<Row>)
    ensures |Reversed(rows)| == |rows|
  {
    if rows != [] {
      ReversedLength(rows[1..]);
    }
  }

  lemma {:induction false} SelectEmpty(rows: seq<Row>, where: Where)
    requires forall row | row in rows :: !Holds(where, row)
    ensures Select(rows, where) == []
  {
    if rows != [] {
      SelectEmpty(rows[1..], where);
    }
  }

  lemma {:induction false} ReversedAt(rows: seq<Row>, i: nat)
    requires i < |rows|
    ensures |Reversed(rows)| == |rows| && Reversed(rows)[i] == rows[|rows| - 1 - i]
  {
    ReversedLength(rows[1..]);
    if i < |rows| - 1 { ReversedAt(rows[1..], i); }
  }

  lemma HasSelected(rows: seq<Row>, column: string, text: string)
    ensures Select(rows, Is(column, text)) != [] <==> exists row :: row in rows && Get(row, column) == Text(text)
  {
    var hits := Select(rows, Is(column, text));
    if hits != [] {
      Selected(rows, Is(column, text), hits[0]);
    }
    if row :| row in rows && Get(row, column) == Text(text) {
      Selected(rows, Is(column, text), row);
    }
  }

  lemma NoneSelected(rows: seq<Row>, column: string, gone: string)
    ensures Select(Select(rows, IsNot(column, gone)), Is(column, gone)) == []
  {
    var rest := Select(rows, IsNot(column, gone));
    if Select(rest, Is(column, gone)) != [] {
      var row := Select(rest, Is(column, gone))[0];
      Selected(rest, Is(column, gone), row);
      Selected(rows, IsNot(column, gone), row);
    }
  }

  lemma {:induction false} Selected(rows: seq<Row>, where: Where, row: Row)
    ensures row in Select(rows, where) <==> row in rows && Holds(where, row)
  {
    if rows != [] {
      Selected(rows[1..], where, row);
    }
  }

  lemma {:induction false} FirstVerifiedFinds(verify: Verify, rows: seq<Row>, password: string, row: Row)
    ensures FirstVerified(verify, rows, password).Some? ==>
              FirstVerified(verify, rows, password).value in rows
              && Verified(verify, FirstVerified(verify, rows, password).value, password)
    ensures row in rows && Verified(verify, row, password) ==> FirstVerified(verify, rows, password).Some?
  {
    if rows != [] {
      FirstVerifiedFinds(verify, rows[1..], password, row);
    }
  }
}
