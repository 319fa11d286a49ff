/** The nullable capability and its recursive unwrap chain
    (`unwrap_recursive`, `is_null_recursive`).

    A value is seen as a chain of layers. A `Wrap` layer is a nullable wrapper
    (an optional, a smart pointer, ...) whose unwrap type differs from its own
    type: it is either null or unwraps to `inner`. A `Terminal` layer is a
    value whose unwrap type is its own type (the default `unwrap` forwards its
    argument); its `isNull` is what plain `is_null` says of it: false for a
    type that is not nullable, true for an always-null type such as
    `std::nullptr_t`. The `inner` of a null wrapper stands for memory that
    does not exist; reading it is what the null checks are there to avoid. */
module Nullables {

  datatype Nullable<T> =
    | Wrap(isNull: bool, inner: Nullable<T>)
    | Terminal(isNull: bool, value: T)

  /** One `unwrap` step: a wrapper yields what it holds, a terminal yields
      itself. A step peels exactly one wrapper layer and never changes where
      the chain ends. */
  function Unwrap<T>(v: Nullable<T>): (r: Nullable<T>)
    ensures Depth(r) == if v.Wrap? then Depth(v) - 1 else 0
    ensures UnwrapRecursive(r) == UnwrapRecursive(v)
  {
    match v
    case Wrap(_, inner) => inner
    case Terminal(_, _) => v
  }

  /** Plain `is_null` of the outermost layer. */
  predicate IsNull<T>(v: Nullable<T>)
  {
    v.isNull
  }

  /** `unwrap_recursive`: a terminal is returned unchanged, a wrapper is
      unwrapped and the result unwrapped recursively. */
  function UnwrapRecursive<T>(v: Nullable<T>): (r: Nullable<T>)
    ensures r.Terminal?
  {
    match v
    case Wrap(_, inner) => UnwrapRecursive(inner)
    case Terminal(_, _) => v
  }

  /** `is_null_recursive`: a null wrapper answers true without being
      unwrapped, a non-null wrapper defers to what it holds, and a terminal
      answers with plain `is_null`. A null outer layer and a null terminal
      each make the whole chain null. */
  predicate IsNullRecursive<T>(v: Nullable<T>): (r: bool)
    ensures IsNull(v) ==> r
    ensures IsNull(UnwrapRecursive(v)) ==> r
  {
    match v
    case Wrap(isNull, inner) => if isNull then true else IsNullRecursive(inner)
    case Terminal(isNull, _) => isNull
  }

  /** Number of wrapper layers above the terminal. */
  function Depth<T>(v: Nullable<T>): nat
  {
    match v
    case Wrap(_, inner) => 1 + Depth(inner)
    case Terminal(_, _) => 0
  }

  /** `unwrap` applied n times. */
  function UnwrapN<T>(v: Nullable<T>, n: nat): Nullable<T>
  {
    if n == 0 then v else UnwrapN(Unwrap(v), n - 1)
  }

  /** The `is_null` answer of every layer, outermost first, terminal last. */
  function Layers<T>(v: Nullable<T>): (s: seq<bool>)
    ensures |s| == Depth(v) + 1
  {
    match v
    case Wrap(isNull, inner) => [isNull] + Layers(inner)
    case Terminal(isNull, _) => [isNull]
  }

  /** Every `unwrap` that `unwrap_recursive` performs is applied to a non-null wrapper. */
  predicate UnwrapsOnlyNonNull<T>(v: Nullable<T>)
  {
    match v
    case Wrap(isNull, inner) => !isNull && UnwrapsOnlyNonNull(inner)
    case Terminal(_, _) => true
  }

  /** The loop the documentation comment of `is_null_recursive` gives as
      pseudo-code: it stops at the terminal and answers false there instead
      of asking the terminal's own `is_null`. */
  predicate IsNullByDocumentedLoop<T>(v: Nullable<T>)
  {
    match v
    case Wrap(isNull, inner) => isNull || IsNullByDocumentedLoop(inner)
    case Terminal(_, _) => false
  }

  lemma TerminalUnwrapsToItself<T>(v: Nullable<T>)
    requires v.Terminal?
    ensures Unwrap(v) == v && UnwrapRecursive(v) == v
    ensures IsNullRecursive(v) == IsNull(v)
  {
  }

  lemma WrapperUnwrapsRecursively<T>(v: Nullable<T>)
    requires v.Wrap?
    ensures UnwrapRecursive(v) == UnwrapRecursive(Unwrap(v))
    ensures IsNull(v) ==> IsNullRecursive(v)
    ensures !IsNull(v) ==> IsNullRecursive(v) == IsNullRecursive(Unwrap(v))
  {
  }

  /** The recursion of `unwrap_recursive` takes exactly as many `unwrap`
      steps as there are wrapper layers: every intermediate value is a
      wrapper and the value reached after `Depth(v)` steps is the result. */
  lemma {:induction false} UnwrapRecursiveTakesDepthSteps<T>(v: Nullable<T>, k: nat)
    requires k <= Depth(v)
    ensures k < Depth(v) ==> UnwrapN(v, k).Wrap?
    ensures UnwrapN(v, Depth(v)) == UnwrapRecursive(v)
  {
    match v
    case Terminal(_, _) =>
    case Wrap(_, inner) =>
      if k == 0 {
        UnwrapRecursiveTakesDepthSteps(inner, 0);
      } else {
        UnwrapRecursiveTakesDepthSteps(inner, k - 1);
      }
  }

  /** Unwrapping recursively twice is unwrapping once. */
  lemma UnwrapRecursiveIdempotent<T>(v: Nullable<T>)
    ensures UnwrapRecursive(UnwrapRecursive(v)) == UnwrapRecursive(v)
  {
  }

  /** `is_null_recursive` is true exactly when some layer of the chain,
      the terminal included, is null. */
  lemma {:induction false} IsNullRecursiveIffSomeLayerNull<T>(v: Nullable<T>)
    ensures IsNullRecursive(v) <==> true in Layers(v)
  {
    match v
    case Terminal(_, _) =>
    case Wrap(isNull, inner) =>
      IsNullRecursiveIffSomeLayerNull(inner);
      assert Layers(v) == [isNull] + Layers(inner);
  }

  /** A chain that is not recursively null is safe to unwrap: no `unwrap`
      touches a null wrapper, and the terminal reached is not null either.
      The converse holds too. */
  lemma {:induction false} NotNullRecursiveIsSafeToUnwrap<T>(v: Nullable<T>)
    ensures !IsNullRecursive(v) <==> UnwrapsOnlyNonNull(v) && !IsNull(UnwrapRecursive(v))
  {
    match v
    case Terminal(_, _) =>
    case Wrap(_, inner) =>
      NotNullRecursiveIsSafeToUnwrap(inner);
  }

  /** Where the code and its documented pseudo-code part: they agree on every
      wrapper layer, and the code also reports a null terminal. */
  lemma {:induction false} CodeVersusDocumentedLoop<T>(v: Nullable<T>)
    ensures IsNullRecursive(v) == (IsNullByDocumentedLoop(v) || IsNull(UnwrapRecursive(v)))
  {
    match v
    case Terminal(_, _) =>
    case Wrap(_, inner) =>
      CodeVersusDocumentedLoop(inner);
  }
}
