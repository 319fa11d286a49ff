/** `get_transaction_status`: the state of the transaction on a connection,
    as libpq reports it, translated into the library's own enumeration. */
module TransactionStatuses {
  import opened Wrappers
  import opened Nullables

  /** libpq's `PGTransactionStatusType` values. */
  const PQTRANS_IDLE: int := 0
  const PQTRANS_ACTIVE: int := 1
  const PQTRANS_INTRANS: int := 2
  const PQTRANS_INERROR: int := 3
  const PQTRANS_UNKNOWN: int := 4

  datatype TransactionStatus = Unknown | Idle | Active | Transaction | Error

  /** `std::invalid_argument` for a status outside libpq's enumeration. */
  datatype StatusError = InvalidArgument(raw: int)

  /** The native handle, reduced to what `PQtransactionStatus` answers. */
  datatype Handle = Handle(rawStatus: int)

  /** The libpq value each status stands for. */
  function ToLibpq(s: TransactionStatus): (raw: int)
    ensures PQTRANS_IDLE <= raw <= PQTRANS_UNKNOWN
  {
    match s
    case Unknown => PQTRANS_UNKNOWN
    case Idle => PQTRANS_IDLE
    case Active => PQTRANS_ACTIVE
    case Transaction => PQTRANS_INTRANS
    case Error => PQTRANS_INERROR
  }

  /** The translation of a raw libpq value; anything outside the
      enumeration is refused. */
  function FromLibpq(raw: int): (r: Result<TransactionStatus, StatusError>)
    ensures r.Err? <==> !(PQTRANS_IDLE <= raw <= PQTRANS_UNKNOWN)
    ensures r.Err? ==> r.error == InvalidArgument(raw)
  {
    if raw == PQTRANS_UNKNOWN then Ok(Unknown)
    else if raw == PQTRANS_IDLE then Ok(Idle)
    else if raw == PQTRANS_ACTIVE then Ok(Active)
    else if raw == PQTRANS_INTRANS then Ok(Transaction)
    else if raw == PQTRANS_INERROR then Ok(Error)
    else Err(InvalidArgument(raw))
  }

  /** The translation is a bijection between libpq's five values and the
      five statuses: each way round gives back what it started from. */
  lemma FromLibpqToLibpq(s: TransactionStatus)
    ensures FromLibpq(ToLibpq(s)) == Ok(s)
  {
  }

  lemma ToLibpqFromLibpq(raw: int)
    requires FromLibpq(raw).Ok?
    ensures ToLibpq(FromLibpq(raw).value) == raw
  {
  }

  /** `get_transaction_status` on a possibly null connection: a null
      connection is `unknown` without asking the handle; otherwise the
      handle is asked once and its answer translated. */
  function GetTransactionStatus(conn: Nullable<Handle>): (r: Result<TransactionStatus, StatusError>)
    ensures IsNullRecursive(conn) ==> r == Ok(Unknown)
    ensures !IsNullRecursive(conn) ==> var raw := UnwrapRecursive(conn).value.rawStatus;
      (r.Ok? <==> PQTRANS_IDLE <= raw <= PQTRANS_UNKNOWN) &&
      (r.Ok? ==> ToLibpq(r.value) == raw) &&
      (r.Err? ==> r.error == InvalidArgument(raw))
  {
    if IsNullRecursive(conn) then Ok(Unknown)
    else FromLibpq(UnwrapRecursive(conn).value.rawStatus)
  }

  /** The table the library pins down, on a live connection. */
  lemma StatusTable(h: Handle)
    ensures GetTransactionStatus(Terminal(false, Handle(PQTRANS_UNKNOWN))) == Ok(Unknown)
    ensures GetTransactionStatus(Terminal(false, Handle(PQTRANS_IDLE))) == Ok(Idle)
    ensures GetTransactionStatus(Terminal(false, Handle(PQTRANS_ACTIVE))) == Ok(Active)
    ensures GetTransactionStatus(Terminal(false, Handle(PQTRANS_INTRANS))) == Ok(Transaction)
    ensures GetTransactionStatus(Terminal(false, Handle(PQTRANS_INERROR))) == Ok(Error)
    ensures GetTransactionStatus(Terminal(false, Handle(-1))) == Err(InvalidArgument(-1))
    ensures GetTransactionStatus(Wrap(true, Terminal(false, h))) == Ok(Unknown)
  {
  }
}
