/** `get_result_status_name`: the name of a libpq `ExecStatusType`, spelled
    as its identifier. Statuses that only newer libpq versions have are named
    only when the library is built against such a version. */
module ResultStatuses {
  import opened Wrappers

  /** libpq's `ExecStatusType` values. */
  const PGRES_EMPTY_QUERY: int := 0
  const PGRES_COMMAND_OK: int := 1
  const PGRES_TUPLES_OK: int := 2
  const PGRES_COPY_OUT: int := 3
  const PGRES_COPY_IN: int := 4
  const PGRES_BAD_RESPONSE: int := 5
  const PGRES_NONFATAL_ERROR: int := 6
  const PGRES_FATAL_ERROR: int := 7
  const PGRES_COPY_BOTH: int := 8
  const PGRES_SINGLE_TUPLE: int := 9
  const PGRES_PIPELINE_SYNC: int := 10
  const PGRES_PIPELINE_ABORTED: int := 11
  const PGRES_TUPLES_CHUNK: int := 12

  /** The build configuration: does libpq have pipelining, chunk mode? */
  datatype Build = Build(hasPipelining: bool, hasChunkMode: bool)

  /** The statuses the switch has a case for in a given build. */
  predicate Listed(status: int, build: Build)
  {
    PGRES_EMPTY_QUERY <= status <= PGRES_SINGLE_TUPLE
    || (build.hasPipelining && (status == PGRES_PIPELINE_SYNC || status == PGRES_PIPELINE_ABORTED))
    || (build.hasChunkMode && status == PGRES_TUPLES_CHUNK)
  }

  function ResultStatusName(status: int, build: Build): (name: string)
    ensures |name| > 0
  {
    if status == PGRES_SINGLE_TUPLE then "PGRES_SINGLE_TUPLE"
    else if status == PGRES_TUPLES_OK then "PGRES_TUPLES_OK"
    else if status == PGRES_COMMAND_OK then "PGRES_COMMAND_OK"
    else if status == PGRES_COPY_OUT then "PGRES_COPY_OUT"
    else if status == PGRES_COPY_IN then "PGRES_COPY_IN"
    else if status == PGRES_COPY_BOTH then "PGRES_COPY_BOTH"
    else if status == PGRES_NONFATAL_ERROR then "PGRES_NONFATAL_ERROR"
    else if status == PGRES_BAD_RESPONSE then "PGRES_BAD_RESPONSE"
    else if status == PGRES_EMPTY_QUERY then "PGRES_EMPTY_QUERY"
    else if status == PGRES_FATAL_ERROR then "PGRES_FATAL_ERROR"
    else if build.hasPipelining && status == PGRES_PIPELINE_SYNC then "PGRES_PIPELINE_SYNC"
    else if build.hasPipelining && status == PGRES_PIPELINE_ABORTED then "PGRES_PIPELINE_ABORTED"
    else if build.hasChunkMode && status == PGRES_TUPLES_CHUNK then "PGRES_TUPLES_CHUNK"
    else "unknown"
  }

  /** libpq's identifiers, read back to their values: the reference the
      names are checked against. */
  function StatusNamed(name: string): (r: Option<int>)
    ensures r.Some? ==> PGRES_EMPTY_QUERY <= r.value <= PGRES_TUPLES_CHUNK
  {
    if name == "PGRES_EMPTY_QUERY" then Some(PGRES_EMPTY_QUERY)
    else if name == "PGRES_COMMAND_OK" then Some(PGRES_COMMAND_OK)
    else if name == "PGRES_TUPLES_OK" then Some(PGRES_TUPLES_OK)
    else if name == "PGRES_COPY_OUT" then Some(PGRES_COPY_OUT)
    else if name == "PGRES_COPY_IN" then Some(PGRES_COPY_IN)
    else if name == "PGRES_BAD_RESPONSE" then Some(PGRES_BAD_RESPONSE)
    else if name == "PGRES_NONFATAL_ERROR" then Some(PGRES_NONFATAL_ERROR)
    else if name == "PGRES_FATAL_ERROR" then Some(PGRES_FATAL_ERROR)
    else if name == "PGRES_COPY_BOTH" then Some(PGRES_COPY_BOTH)
    else if name == "PGRES_SINGLE_TUPLE" then Some(PGRES_SINGLE_TUPLE)
    else if name == "PGRES_PIPELINE_SYNC" then Some(PGRES_PIPELINE_SYNC)
    else if name == "PGRES_PIPELINE_ABORTED" then Some(PGRES_PIPELINE_ABORTED)
    else if name == "PGRES_TUPLES_CHUNK" then Some(PGRES_TUPLES_CHUNK)
    else None
  }

  /** Every listed status is named by its own identifier; every other value,
      including the newer statuses in an older build, is "unknown". */
  lemma NameIsTheIdentifier(status: int, build: Build)
    ensures Listed(status, build) ==> StatusNamed(ResultStatusName(status, build)) == Some(status)
    ensures !Listed(status, build) <==> ResultStatusName(status, build) == "unknown"
  {
  }

  /** Distinct listed statuses have distinct names. */
  lemma NamesAreDistinct(s1: int, s2: int, build: Build)
    requires Listed(s1, build) && Listed(s2, build) && s1 != s2
    ensures ResultStatusName(s1, build) != ResultStatusName(s2, build)
  {
    NameIsTheIdentifier(s1, build);
    NameIsTheIdentifier(s2, build);
  }

  /** A newer libpq's statuses need the build that knows them. */
  lemma NewerStatusesNeedTheirBuild(status: int)
    ensures status == PGRES_PIPELINE_SYNC || status == PGRES_PIPELINE_ABORTED ==>
      ResultStatusName(status, Build(false, true)) == "unknown" &&
      ResultStatusName(status, Build(true, false)) != "unknown"
    ensures status == PGRES_TUPLES_CHUNK ==>
      ResultStatusName(status, Build(true, false)) == "unknown" &&
      ResultStatusName(status, Build(false, true)) != "unknown"
  {
  }
}
