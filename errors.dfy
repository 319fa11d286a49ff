/** Error codes and the error conditions (`bozo::errc`) that group them.
    SQLSTATE codes are carried as numbers: the five-character code read in
    base 36. */
module Errors {
  import opened Wrappers
  import Base36

  datatype ErrorCode =
    | Success                 // the empty error code (`tests::error::ok`)
    | SqlState(code: nat)     // an SQLSTATE reported by the server
    | ConnectionAborted       // the socket was aborted
    | IoError                 // a system-level I/O error
    | PqSocketFailed          // libpq could not give a socket
    | BadObjectSize           // a value's size does not match its type
    | OidTypeMismatch         // a value's oid does not match its type
    | NoSqlStateFound         // a server error without an SQLSTATE
    | OidRequestFailed        // resolving custom type oids failed
    | BadArraySize            // an array's received size is not its fixed size

  datatype Condition =
    | ConnectionError
    | DatabaseReadonly
    | IntrospectionError
    | TypeMismatch
    | ProtocolError

  /** SQLSTATE 08003 */
  const ConnectionDoesNotExist: nat := 373251
  /** SQLSTATE 25006 */
  const ReadOnlySqlTransaction: nat := 3592518

  /** Whether an error code compares equal to an error condition. Success
      is no error, and of the SQLSTATEs only the two named ones are
      classified. */
  predicate Matches(c: Condition, e: ErrorCode): (r: bool)
    ensures r ==> !e.Success?
    ensures r && e.SqlState? ==> e.code == ConnectionDoesNotExist || e.code == ReadOnlySqlTransaction
  {
    match c
    case ConnectionError =>
      e == SqlState(ConnectionDoesNotExist) || e == ConnectionAborted || e == IoError || e == PqSocketFailed
    case DatabaseReadonly => e == SqlState(ReadOnlySqlTransaction)
    case IntrospectionError => e == BadObjectSize || e == OidRequestFailed
    case TypeMismatch => e == OidTypeMismatch
    case ProtocolError => e == NoSqlStateFound
  }

  /** The same relation read the other way: the conditions an error code
      belongs to. */
  function ConditionsOf(e: ErrorCode): (cs: set<Condition>)
    ensures e.Success? ==> cs == {}
  {
    match e
    case SqlState(code) =>
      if code == ConnectionDoesNotExist then {ConnectionError}
      else if code == ReadOnlySqlTransaction then {DatabaseReadonly}
      else {}
    case ConnectionAborted => {ConnectionError}
    case IoError => {ConnectionError}
    case PqSocketFailed => {ConnectionError}
    case BadObjectSize => {IntrospectionError}
    case OidTypeMismatch => {TypeMismatch}
    case NoSqlStateFound => {ProtocolError}
    case OidRequestFailed => {IntrospectionError}
    case _ => {}
  }

  /** The two readings agree. */
  lemma ConditionsOfMatches(c: Condition, e: ErrorCode)
    ensures c in ConditionsOf(e) <==> Matches(c, e)
  {
  }

  /** The SQLSTATE constants are the base-36 values of their codes:
      08003 is connection_does_not_exist, */
  lemma ConnectionDoesNotExistCode()
    ensures Base36.B36ToL("08003") == Some(ConnectionDoesNotExist)
  {
    assert Base36.B36ToL([]) == Some(0);
    Base36.ReadSnoc([], '0', 0, 0);
    Base36.ReadSnoc("0", '8', 0, 8);
    Base36.ReadSnoc("08", '0', 8, 0);
    Base36.ReadSnoc("080", '0', 288, 0);
    assert [] + ['0'] == "0" && "0" + ['8'] == "08" && "08" + ['0'] == "080";
    assert "080" + ['0'] == "0800" && "0800" + ['3'] == "08003";
    Base36.ReadSnoc("0800", '3', 10368, 3);
  }

  /** and 25006 is read_only_sql_transaction. */
  lemma ReadOnlySqlTransactionCode()
    ensures Base36.B36ToL("25006") == Some(ReadOnlySqlTransaction)
  {
    assert Base36.B36ToL([]) == Some(0);
    Base36.ReadSnoc([], '2', 0, 2);
    Base36.ReadSnoc("2", '5', 2, 5);
    Base36.ReadSnoc("25", '0', 77, 0);
    Base36.ReadSnoc("250", '0', 2772, 0);
    assert [] + ['2'] == "2" && "2" + ['5'] == "25" && "25" + ['0'] == "250";
    assert "250" + ['0'] == "2500" && "2500" + ['6'] == "25006";
    Base36.ReadSnoc("2500", '6', 99792, 6);
  }

  /** The pairs the library pins down: connection_error takes the missing
      connection, the aborted socket, the I/O error and the libpq socket
      failure but not a bad object size; each other condition takes its own
      code and not the libpq socket failure. */
  lemma PinnedClassification()
    ensures Matches(ConnectionError, SqlState(ConnectionDoesNotExist))
    ensures Matches(ConnectionError, ConnectionAborted)
    ensures Matches(ConnectionError, IoError)
    ensures Matches(ConnectionError, PqSocketFailed)
    ensures !Matches(ConnectionError, BadObjectSize)
    ensures Matches(DatabaseReadonly, SqlState(ReadOnlySqlTransaction)) && !Matches(DatabaseReadonly, PqSocketFailed)
    ensures Matches(IntrospectionError, BadObjectSize) && !Matches(IntrospectionError, PqSocketFailed)
    ensures Matches(TypeMismatch, OidTypeMismatch) && !Matches(TypeMismatch, PqSocketFailed)
    ensures Matches(ProtocolError, NoSqlStateFound) && !Matches(ProtocolError, PqSocketFailed)
  {
  }

  /** Success is no error: it matches no condition. */
  lemma SuccessMatchesNothing(c: Condition)
    ensures !Matches(c, Success)
  {
  }
}
