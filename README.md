# bozo value core in Dafny

This project models the value-level core of bozo, a C++ PostgreSQL client
driver built on Boost.Asio:

- the binary value codec: composite values (PostgreSQL's binary record
  layout), `jsonb`, the always-null types `std::nullopt_t` and
  `std::nullptr_t`, `data_frame_size` and the fixed-size check of
  `std::array`;
- the nullable unwrap chain, `unwrap_recursive` and `is_null_recursive`;
- the oid map of custom types: `register_types`, `get_types_names`,
  `set_oid_map`, and the completion step of the oid request;
- deadline arithmetic (`deadline`, `time_left`, `expired`) and retries: the
  per-try time budget and the `basic_try` state machine;
- the small total mappings: error conditions, base-36 SQLSTATE codes,
  libpq transaction statuses, result-status names, and query construction.

Each file is one module:

| file | module | what it holds |
|---|---|---|
| wrappers.dfy | Wrappers | `Option`, `Result`, `Outcome` |
| bytes.dfy | Bytes | big-endian and two's-complement encodings |
| streams.dfy | Streams | `OStream` (append-only buffer) and `IStream` (cursor over received bytes) |
| nullable.dfy | Nullables | the unwrap chain |
| always_null.dfy | AlwaysNull | `std::nullopt_t`, `std::nullptr_t` |
| codec.dfy | Codec | composites, `size_of`, `data_frame_size` |
| jsonb.dfy | JsonbCodec | `jsonb` |
| std_array.dfy | StdArray | `fit_array_size` for `std::array` |
| query.dfy | Queries | `make_query` and its accessors |
| errors.dfy | Errors | error codes and conditions |
| base36.dfy | Base36 | `b36tol`, `ltob36` |
| oid_map.dfy | OidMaps | the oid map |
| deadline.dfy | Deadlines | time points, durations, deadlines |
| retry.dfy | Retries | per-try budget, `basic_try` |
| transaction_status.dfy | TransactionStatuses | `get_transaction_status` |
| result_status.dfy | ResultStatuses | `get_result_status_name` |

Several things are modelled as state, because the code changes them in place:

- the output stream (a class whose buffer the send methods extend);
- the input stream (a class whose cursor the receive methods advance);
- a `jsonb` value received into;
- the oid map (an array of oids assigned in place);
- a connection that a failed try closes.

Everything else is modelled with datatypes and functions.

Where the code and its own documentation disagree, the model follows the
code: `is_null_recursive` asks the terminal's own `is_null`, so an
always-null terminal such as a `nullptr` is null, where the loop shown in the
header's documentation would say not null
(`AlwaysNull.PresentOptionalOfNullptr`).

`set_oid_map` is modelled as assigning oids in declaration order and
stopping at the first null oid, so the types before it stay resolved
(`OidMaps.OidMap.SetOidMap`); validating every oid before assigning any
would leave the map untouched instead.

The composite codec and `size_of`, error classification, base-36 codes,
deadlines, retries, transaction statuses and the oid request (`Codec`,
`Errors`, `Base36`, `Deadlines`, `Retries`, `TransactionStatuses`,
`OidMaps`) follow the library's tests, which fix the exact bytes, sizes,
tables and error cases, rather than the code of the headers that implement
them: `io/composite.h`, `io/size_of.h`, `error.h`, `detail/base36.h`,
`deadline.h`, `failover/retry.h`, `transaction_status.h` and
`impl/request_oid_map.h` are not part of this model. Behaviour those tests
leave open is listed under "## Left out".

A failed oid request (`oid_request_failed`) is classed as an
`introspection_error`, the condition for oid-resolution failures. This pair
is the model's own choice: no test of the library fixes it.

## Model

| member | source | states |
|---|---|---|
| Nullables.UnwrapRecursive | include/bozo/core/recursive.h:35-46 | `unwrap_recursive` always ends at a terminal, a layer whose unwrap type is its own |
| Nullables.Unwrap | include/bozo/core/recursive.h:40-46 | one `unwrap` step peels exactly one wrapper layer (a terminal stays where it is) and never changes the terminal the chain ends in |
| Nullables.TerminalUnwrapsToItself | include/bozo/core/recursive.h:8-9 | a terminal unwraps to itself, once or recursively, and its recursive null test is its plain `is_null` |
| Nullables.WrapperUnwrapsRecursively | include/bozo/core/recursive.h:40-46 | a wrapper unwraps recursively to what its inner value unwraps to. A null wrapper is recursively null without being unwrapped; a non-null one defers to its inner value (lines 82-88) |
| Nullables.UnwrapRecursiveTakesDepthSteps | include/bozo/core/recursive.h:20-28 | `unwrap_recursive` performs exactly as many `unwrap` steps as there are wrapper layers, every intermediate value being a wrapper |
| Nullables.UnwrapRecursiveIdempotent | include/bozo/core/recursive.h:35-46 | unwrapping recursively twice is the same as once |
| Nullables.IsNullRecursiveIffSomeLayerNull | include/bozo/core/recursive.h:77-88 | `is_null_recursive` holds exactly when some layer of the chain, terminal included, is null |
| Nullables.IsNullRecursive | include/bozo/core/recursive.h:77-88 | `is_null_recursive` is true when the outermost layer is null (without unwrapping it) and when the terminal the chain ends in is null |
| Nullables.NotNullRecursiveIsSafeToUnwrap | include/bozo/core/recursive.h:17-18 | a chain that is not recursively null is unwrapped only through non-null wrappers and reaches a non-null terminal, and conversely |
| Nullables.CodeVersusDocumentedLoop | include/bozo/core/recursive.h:48-49 | the code equals the documented pseudo-code of lines 58-69, plus the terminal's own `is_null` |
| AlwaysNull.AsLayer | include/bozo/ext/std/nullopt_t.h:28-32 | an always-null value is a terminal of the unwrap chain, and its `is_null` is true |
| AlwaysNull.BothDeclareTheSameTraits | include/bozo/ext/std/nullptr_t.h:24-41 | `std::nullopt_t` and `std::nullptr_t` are both nullable and always null, and both are bound to the type name "null" (nullopt_t.h:25-42 is the same) |
| AlwaysNull.AlwaysNullIsNullTerminal | include/bozo/ext/std/nullopt_t.h:28-32 | an always-null value unwraps to itself, once and recursively, and is recursively null |
| AlwaysNull.ChainEndingInAlwaysNullIsNull | include/bozo/ext/std/nullptr_t.h:27-31 | any chain of wrappers ending in an always-null value is recursively null, even when every wrapper holds a value |
| AlwaysNull.PresentOptionalOfNullptr | include/bozo/core/recursive.h:58-69 | a present optional holding a `nullptr` is null for the code but not null for the documented loop |
| AlwaysNull.Send | include/bozo/ext/std/nullopt_t.h:34-38 | `send` of an always-null value returns the stream it was given; it writes nothing, since the method may change no state (nullptr_t.h:33-37 is the same) |
| Codec.TupleType | tests/composite.cpp:301-323 | tuples and pairs are records: oid RECORDOID (0x08C9) with the given field types |
| Codec.DataFrameSize | tests/io/size_of.cpp:31-37 | the frame size always includes the 4-byte length header |
| Codec.SizeOf | tests/composite.cpp:51-71 | `size_of` of NULL is 0, and a composite counts at least its 4-byte field count and an 8-byte oid-and-length header per field |
| Codec.HasType | tests/composite.cpp:171-299 | only an optional type holds NULL, and a composite value has exactly one value per declared field |
| Codec.Encode | tests/composite.cpp:80-95 | NULL has no payload, and a composite's payload opens with its field count as a 4-byte big-endian number |
| Codec.FieldFrame | tests/composite.cpp:84-93 | a field frame opens with the declared type's oid, then the 4-byte length (-1 for NULL), then the payload |
| Codec.EncodeSizeIsSizeOf | tests/composite.cpp:51-71 | `send` writes exactly `size_of` bytes; a composite's `size_of` is 4 for the count plus 4 + 4 + payload per field |
| Codec.EncodeFieldsSize | tests/composite.cpp:51-71 | the fields of a composite take 8 header bytes plus their payload each |
| Codec.FieldFrameSize | tests/composite.cpp:85-93 | a field is its 4-byte oid plus a data frame of `data_frame_size` bytes |
| Codec.Parse | tests/composite.cpp:171-299 | a successful `recv` ends at or before the end of the data and never moves the cursor back |
| Codec.ParseFields | tests/composite.cpp:171-299 | a successful read of a composite's fields yields one value per declared field |
| Codec.ParseField | tests/composite.cpp:171-299 | a field is accepted only when its oid is the expected type's; a different oid is refused with `OidMismatch` naming both oids, and an accepted field consumes at least its 8 header bytes |
| Codec.ParseEncode | tests/composite.cpp:171-299 | round trip: reading back what `send` wrote, with the length header the frame writer put before it, yields the original value and consumes exactly the bytes written |
| Codec.ParseFieldEncode | tests/composite.cpp:171-299 | round trip of one field frame, its oid checked against the expected type's |
| Codec.ParseFieldsEncode | tests/composite.cpp:171-299 | round trip of the field list of a composite |
| Codec.DataFrameOfPresentValue | tests/io/size_of.cpp:31-33 | the frame size of a present value is the 4-byte header plus the bytes `send` writes |
| Codec.EmptyOptionalFrame | tests/io/size_of.cpp:35-37 | an empty optional's frame is the 4-byte header alone, holding -1, whatever the inner type would occupy |
| Codec.EncodingIgnoresAggregateKind | tests/composite.cpp:80-163 | structs, tuples and pairs with the same field types and values write identical bytes |
| Codec.FieldCountMismatchRejected | tests/composite.cpp:301-323 | a composite whose field count differs from the arity of its type is rejected before any field is read |
| Codec.TestRecordEncoding | tests/composite.cpp:80-163 | every aggregate kind writes { "TEST", 0x0001020304050607 } as the 32 bytes of the library's test, and `size_of` is 32 |
| Codec.TestRecordDecoding | tests/composite.cpp:171-299 | reading those 32 bytes into any aggregate kind yields the record |
| Codec.WrongFieldCountRejected | tests/composite.cpp:301-323 | the same bytes with a field count of 3 are rejected for a two-field aggregate |
| Codec.Send | tests/composite.cpp:80-95 | `send` appends exactly the encoding of the value to the buffer |
| Codec.SendFields | tests/composite.cpp:85-93 | the fields are written one after another in declaration order, and together they make up the field encoding |
| Codec.SendField | tests/composite.cpp:85-93 | one field is written as its oid, its length (-1 for NULL), then its payload |
| Codec.Recv | tests/composite.cpp:171-299 | `recv` returns what `Parse` yields, and leaves the cursor where `Parse` ends |
| Codec.RecvFields | tests/composite.cpp:171-299 | the fields are read one after another, and the result is what `ParseFields` yields |
| Codec.RecvField | tests/composite.cpp:171-299 | one field is read as oid, length and value, with the result of `ParseField` |
| JsonbCodec.Jsonb.constructor | include/bozo/pg/types/jsonb.h:19-20 | the constructor stores the given text |
| JsonbCodec.Jsonb.RawString | include/bozo/pg/types/jsonb.h:22-24 | `raw_string()` returns the stored text; the round trip through the constructor is carried by `JsonbCodec.RawStringRoundTrip` |
| JsonbCodec.RawStringRoundTrip | include/bozo/pg/types/jsonb.h:19-24 | a jsonb built from a text gives that text back through `raw_string()` |
| JsonbCodec.JsonbSize | include/bozo/pg/types/jsonb.h:38-43 | `size_of` is exactly the size with which `recv` reads the text back from what `send` wrote, and at least 1 |
| JsonbCodec.JsonbBytes | include/bozo/pg/types/jsonb.h:38-53 | what `send` writes is `size_of` bytes long: version byte 1, then the text |
| JsonbCodec.ParseJsonb | include/bozo/pg/types/jsonb.h:55-67 | a size below 1 is a range error. Otherwise a read succeeds exactly when `size` bytes are there, skips the version byte, and yields the `size - 1` bytes after it |
| JsonbCodec.ParseJsonbBytes | include/bozo/pg/types/jsonb.h:39-66 | round trip: reading back what `send` wrote, with the size `size_of` gave, yields the original text |
| JsonbCodec.VersionByteIgnored | include/bozo/pg/types/jsonb.h:62-63 | the version byte is read but never checked |
| JsonbCodec.Resize | include/bozo/pg/types/jsonb.h:64 | `std::string::resize` keeps the first n bytes and pads with zero bytes |
| JsonbCodec.Send | include/bozo/pg/types/jsonb.h:45-53 | `send` appends the version byte and then the text |
| JsonbCodec.Recv | include/bozo/pg/types/jsonb.h:55-67 | `recv` succeeds exactly when `ParseJsonb` does, storing the text and moving the cursor past it. A size below 1 changes neither stream nor value. A short read after the version byte leaves the value resized to `size - 1` |
| StdArray.ToSizeType | include/bozo/ext/std/array.h:32 | the cast of the array size to `size_type` is its value modulo 2^32 read as a signed 32-bit number, and is the size itself below 2^31 |
| StdArray.FitArraySize | include/bozo/ext/std/array.h:29-38 | the check passes exactly when the received size equals the cast array size. Otherwise it fails with `bad_array_size` and the message "received size R does not match array size N" |
| StdArray.FitsExactlyTheArraySize | include/bozo/ext/std/array.h:31-32 | for an array size below 2^31, the check passes exactly when the received size equals it |
| StdArray.MismatchMessage | include/bozo/ext/std/array.h:34-35 | the refusal message opens with "received size " and is longer than its two fixed parts |
| StdArray.MessageNamesBothSizes | include/bozo/ext/std/array.h:34-35 | the failure message holds both sizes, each readable back from its place |
| StdArray.ParseDecDec | include/bozo/ext/std/array.h:34-35 | reading back the decimal `std::to_string` text of an integer gives that integer |
| Queries.MakeQuery | include/bozo/impl/query.h:34-39 | the text accessor gives back the text and the params accessor the parameters, in order |
| Queries.GetQueryText | include/bozo/impl/query.h:20-25 | `get_query_text` returns the text, which with the parameters makes up the whole query; what it gives back for a built query is carried by `Queries.MakeQuery` and `Queries.RebuildFromAccessors` |
| Queries.GetQueryParams | include/bozo/impl/query.h:27-32 | `get_query_params` returns the parameters, which with the text make up the whole query; what it gives back for a built query is carried by `Queries.MakeQuery` and `Queries.RebuildFromAccessors` |
| Queries.RebuildFromAccessors | include/bozo/impl/query.h:20-32 | a query is rebuilt exactly from its two accessors |
| Errors.Matches | tests/error.cpp:8-39 | success matches no condition, and of the SQLSTATE codes only 08003 and 25006 are classified |
| Errors.ConditionsOfMatches | tests/error.cpp:8-39 | the condition relation read from either side agrees |
| Errors.ConnectionDoesNotExistCode | tests/error.cpp:10 | `connection_does_not_exist` is SQLSTATE 08003 read in base 36 |
| Errors.ReadOnlySqlTransactionCode | tests/error.cpp:19 | `read_only_sql_transaction` is SQLSTATE 25006 read in base 36 |
| Errors.PinnedClassification | tests/error.cpp:8-39 | `connection_error` matches the missing connection, the aborted socket, the I/O error and the libpq socket failure, but not a bad object size. Each other condition matches its own code and not the libpq socket failure |
| Errors.SuccessMatchesNothing | tests/error.cpp:8-39 | the empty error code matches no condition |
| Base36.B36ToL | tests/detail/base36.cpp:7-13 | a code of n characters reads as a number below 36^n |
| Base36.LToB36 | tests/detail/base36.cpp:15-17 | `ltob36` writes five characters |
| Base36.Digits | tests/detail/base36.cpp:15-17 | the digits written are upper case and exactly as many as asked |
| Base36.DigitsRoundTrip | tests/detail/base36.cpp:8-16 | reading back w written digits gives the number modulo 36^w |
| Base36.ReadBackWritten | tests/detail/base36.cpp:8-16 | `b36tol(ltob36(n)) == n` for every n below 36^5 |
| Base36.WriteBackRead | tests/detail/base36.cpp:11-17 | writing back a valid code that was read gives its upper-case spelling |
| Base36.LowerReadsTheSame | tests/detail/base36.cpp:11-13 | `b36tol` reads the lower-case spelling of a code as the code |
| Base36.UpperReadsTheSame | tests/detail/base36.cpp:11-13 | and the upper-case spelling too |
| Base36.ReadHV001 | tests/detail/base36.cpp:7-9 | "HV001" reads as 29999809 |
| Base36.ReadLowerHV001 | tests/detail/base36.cpp:11-13 | "hv001" reads as 29999809, the value of its upper-case spelling |
| Base36.WriteHV001 | tests/detail/base36.cpp:15-17 | 29999809 is written "HV001" |
| OidMaps.OidMap.RegisterTypes | tests/impl/request_oid_map.cpp:29-31 | a new map holds the registered types in order, each once as a C++ type list holds it, every oid null |
| OidMaps.OidMap.GetTypesNames | tests/impl/request_oid_map.cpp:24-33 | the names come back in declaration order, none for an empty map |
| OidMaps.OidMap.TypeOid | tests/impl/request_oid_map.cpp:35-42 | `type_oid<T>` is the oid held in the slot of the registered type T, the only slot of T since no type is registered twice |
| OidMaps.FirstNull | tests/impl/request_oid_map.cpp:50-54 | the index of the first null oid in a result, or the result's length |
| OidMaps.OidMap.SetOidMap | tests/impl/request_oid_map.cpp:35-54 | a result of the wrong length is a length error and nothing changes. Otherwise oids are assigned in declaration order up to the first null oid, which is an invalid-argument error; the call succeeds exactly when there is none |
| OidMaps.FirstNullAt | tests/impl/request_oid_map.cpp:50-54 | the first null oid is where a forward walk over the result stops |
| OidMaps.ResolvedInDeclarationOrder | tests/impl/request_oid_map.cpp:35-42 | after a successful assignment every type holds its own entry of the result, none null |
| OidMaps.PartialOnNullOid | tests/impl/request_oid_map.cpp:50-54 | after a null oid at k, the types before k are resolved and the rest are unchanged |
| OidMaps.RequestOidMapDone | tests/impl/request_oid_map.cpp:81-88 | an earlier error reaches the handler unchanged. Otherwise the result is stored and a refused result reaches the handler as `oid_request_failed` |
| OidMaps.RegisteredPairScenario | tests/impl/request_oid_map.cpp:29-54 | two registered types: their names in order, oids 11 and 22 read back, a short result and a null oid refused |
| OidMaps.EmptyMapScenario | tests/impl/request_oid_map.cpp:24-27 | an empty map has no names and refuses a one-oid result with `oid_request_failed` |
| Deadlines.DeadlineAfter | tests/deadline.cpp:22-33 | `deadline(d, t)` never moves before t. It is t for a negative duration, t + d when that fits, and the last time point otherwise |
| Deadlines.Deadline | tests/deadline.cpp:14-24 | `deadline(none)` is none, `deadline(tp)` is tp, and a duration d gives `deadline(d, now)`: now + d capped at the last time point, now itself for a negative d |
| Deadlines.TimeLeft | tests/deadline.cpp:35-45 | `time_left` is never negative: the distance to the deadline before it, zero from it on |
| Deadlines.Expired | tests/deadline.cpp:39-57 | a deadline is expired exactly when no time is left before it |
| Deadlines.DeadlineThenTimeLeft | tests/deadline.cpp:22-33 | the time left at t before `deadline(d, t)` is d, or what the clock has left when d would pass its end. A non-positive d is expired at once |
| Deadlines.DeadlineMonotonic | tests/deadline.cpp:22-33 | a longer duration or a later start never gives an earlier deadline |
| Deadlines.TimeLeftShrinks | tests/deadline.cpp:35-45 | time left never grows as the clock moves on, and shrinks by no more than the time that passed |
| Deadlines.PinnedCases | tests/deadline.cpp:14-57 | the library's deadline, time-left and expiry cases |
| Retries.TruncDiv | tests/failover/retry.cpp:75-77 | C++ division of a duration by a count: the quotient lies between zero and the dividend |
| Retries.TruncDivBounds | tests/failover/retry.cpp:75-77 | the quotient times the count is within one count of the dividend, on the zero side |
| Retries.TruncDivOdd | tests/failover/retry.cpp:75-77 | division rounds toward zero: dividing a negated duration gives the negated quotient |
| Retries.GetTryTimeConstraint | tests/failover/retry.cpp:66-97 | none stays none. A duration is split over n > 0 tries, and the time left before a deadline likewise. The share is zero when n <= 0 |
| Retries.SharesFitTheDeadline | tests/failover/retry.cpp:87-89 | the n shares fit in the time left, losing less than one tick per try |
| Retries.ShareNeverShrinks | tests/failover/retry.cpp:87-89 | a try that keeps to its share leaves the next try a share at least as large |
| Retries.BasicTry.constructor | tests/failover/retry.cpp:99-104 | a try holds the given tries, conditions, options and context |
| Retries.WillRetry | tests/failover/retry.cpp:119-161 | a retry needs more than one try left and an error that some condition takes; with no conditions every error, even success, is retried while tries remain |
| Retries.BasicTry.GetContext | tests/failover/retry.cpp:218-235 | the context keeps the provider and the extra arguments, and its time constraint is `get_try_time_constraint` of the try's constraint and tries: none, the share of a duration, the share of the time left before a deadline, zero with no tries |
| Retries.BasicTry.GetNextTry | tests/failover/retry.cpp:119-211 | a next try, with one try fewer and the same options, exists exactly when more than one try remains and the error matches a condition (any error if none are given). The connection is closed on both paths unless the option says not to, and a null one never. `on_retry` gets the error and the connection only on a retry |
| Retries.RetriesMade | tests/failover/retry.cpp:157-161 | a chain of tries makes at most one retry per error |
| Retries.RetriesBounded | tests/failover/retry.cpp:142-161 | a chain started with n tries makes at most n - 1 retries, whatever the errors |
| Retries.UnconditionalRetriesUseAllTries | tests/failover/retry.cpp:119-124 | without conditions every error is retried until the tries run out |
| Retries.PinnedShares | tests/failover/retry.cpp:66-97 | three seconds over three tries is one second each, for a duration and for a deadline; no tries give zero; none stays none |
| Retries.TwoTriesScenario | tests/failover/retry.cpp:157-167 | with two tries the first retries and the second does not, each closes the connection, and `on_retry` hears the error once |
| Retries.ConditionScenario | tests/failover/retry.cpp:126-155 | a code of the condition is retried and success is not; with no tries nothing is retried and `on_retry` is not called |
| TransactionStatuses.ToLibpq | tests/transaction_status.cpp:50-60 | every status stands for one of libpq's five values |
| TransactionStatuses.FromLibpq | tests/transaction_status.cpp:30-35 | a raw value is refused with `invalid_argument` exactly when it is outside libpq's enumeration |
| TransactionStatuses.FromLibpqToLibpq | tests/transaction_status.cpp:50-60 | translating a status's libpq value gives the status back |
| TransactionStatuses.ToLibpqFromLibpq | tests/transaction_status.cpp:50-60 | a translated raw value maps back to itself, so the table is a bijection |
| TransactionStatuses.GetTransactionStatus | tests/transaction_status.cpp:25-60 | a null connection is `unknown`. Otherwise the handle's answer is translated: accepted exactly when it is in libpq's enumeration, the result standing for that answer, and refused with `invalid_argument` otherwise |
| TransactionStatuses.StatusTable | tests/transaction_status.cpp:25-60 | the library's table, the out-of-range value -1 and a null connection |
| ResultStatuses.ResultStatusName | include/bozo/impl/result_status.h:7-29 | the name is never empty |
| ResultStatuses.StatusNamed | include/bozo/impl/result_status.h:8-26 | libpq's identifiers read back to values of the enumeration |
| ResultStatuses.NameIsTheIdentifier | include/bozo/impl/result_status.h:8-29 | each status listed in the build is named by its own identifier; every other value is "unknown" |
| ResultStatuses.NamesAreDistinct | include/bozo/impl/result_status.h:8-26 | distinct listed statuses have distinct names |
| ResultStatuses.NewerStatusesNeedTheirBuild | include/bozo/impl/result_status.h:20-26 | the pipeline statuses are named only with pipelining, the chunk status only with chunk mode |

## Left out

- Asynchronous plumbing, the connection pool, the request pipeline, cancellation, transactions and role-based failover: executor wiring and behaviour against a live server, not value logic.
- Smart-pointer and optional adapters appear only as generic `Wrap` layers of the unwrap chain.
- Type-level declarations without runtime behaviour are not modelled. These are the `is_array` trait of `std::array`, the `QueryText` concept that `make_query` checks at compile time, type-binding macros and concepts.
- Floating-point bindings.
- Codec.Parse: reading is modelled on the received bytes of one value; the `pg_result` accessors the library reads them through are not part of this model.
- Codec.Parse: three error choices on the read side are assumed, since the library's tests read only well-formed frames and one wrong field count. A NULL frame for a type that is not optional gives `UnexpectedNull`. An int8 frame whose size is not 8 gives `BadSize`. A composite's declared frame size is never compared with the bytes its fields take, so a composite frame that declares too few or too many bytes is still read field by field.
- Codec.HasType: an optional directly holding an optional is not a well-formed type (`Codec.TypeFits` refuses it), because a present outer optional holding an empty inner one has no frame of its own. Values whose sizes do not fit the 32-bit headers are outside the modelled types. Only text, int8, optionals and composites are modelled. The custom type of size 42 in the size tests is not modelled as a type: an empty optional of it contributes no payload, which `Codec.EmptyOptionalFrame` states for every inner type.
- JsonbCodec.Recv: a failed read of the version byte is modelled as `Truncated` with nothing changed. A short read of the text leaves the value resized, but the bytes a short read would have copied into it are not modelled.
- StdArray.FitsExactlyTheArraySize: holds only for array sizes below 2^31. Above that, the comparison is against the wrapped cast, which `StdArray.FitArraySize` states.
- Errors.Matches: only the pairs the library's tests fix are modelled, plus `oid_request_failed` under `introspection_error`, a pair of the model's own choosing that no test of the library fixes; every other pair of code and condition is modelled as no match. Other SQLSTATE codes are numbers that no condition takes.
- Codec.ParseField: refusing a field whose oid differs from the expected type's (`OidMismatch`) is assumed; no test of the library sends a wrong field oid.
- Base36.LToB36: always writes five characters; a number of 36^5 or more is written modulo 36^5, and a negative `long` cannot be written at all (the parameter is a natural number).
- Base36.B36ToL: integers are unbounded, so the overflow of a C++ `long` on codes longer than 12 characters is not modelled.
- Base36.B36ToL: a character outside 0-9, A-Z and a-z is modelled as an invalid code (`None`).
- Time points are never before the clock's epoch, so `deadline - now` never overflows. The clock is a parameter (`now`).
- Retries.BasicTry.GetNextTry: the order of closing the connection and calling `on_retry` is not modelled. The callback is recorded as the call it receives rather than run.
- TransactionStatuses.GetTransactionStatus: that the handle is queried exactly once is not modelled; the function reads the handle's answer once by construction. The null test is modelled as `is_null_recursive`.
- Connection error contexts (the text set on failure) are not modelled.
