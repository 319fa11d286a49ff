/** `std::nullopt_t` and `std::nullptr_t`: types whose every value is NULL.
    Each is declared nullable, unwraps to itself (so it ends an unwrap
    chain), always answers true to `is_null`, is bound to the PostgreSQL
    type name "null", and sends no payload bytes. */
module AlwaysNull {
  import opened Nullables
  import opened Streams

  datatype NullType = Nullopt | Nullptr

  /** The traits a type declares to the library. */
  datatype Traits = Traits(nullable: bool, unwrapForwards: bool, alwaysNull: bool, pgName: string)

  /** What each of the two specialisations declares. */
  function TraitsOf(t: NullType): Traits
  {
    match t
    case Nullopt => Traits(nullable := true, unwrapForwards := true, alwaysNull := true, pgName := "null")
    case Nullptr => Traits(nullable := true, unwrapForwards := true, alwaysNull := true, pgName := "null")
  }

  /** An always-null value as a layer of an unwrap chain: `unwrap` forwards
      it, so it is a terminal, and its own `is_null` is the always-true one. */
  function AsLayer<T>(t: NullType, x: T): (v: Nullable<T>)
    ensures v.Terminal? == TraitsOf(t).unwrapForwards
    ensures IsNull(v) == TraitsOf(t).alwaysNull
  {
    Terminal(TraitsOf(t).alwaysNull, x)
  }

  /** Both types are nullable, terminal and null, and share the type name
      "null": PostgreSQL sees them as the same thing. */
  lemma BothDeclareTheSameTraits(t: NullType)
    ensures TraitsOf(t) == TraitsOf(Nullopt) == TraitsOf(Nullptr)
    ensures TraitsOf(t).nullable && TraitsOf(t).alwaysNull && TraitsOf(t).pgName == "null"
  {
  }

  /** An always-null value unwraps to itself, once or recursively, and is
      null recursively. */
  lemma AlwaysNullIsNullTerminal<T>(t: NullType, x: T)
    ensures Unwrap(AsLayer(t, x)) == AsLayer(t, x)
    ensures UnwrapRecursive(AsLayer(t, x)) == AsLayer(t, x)
    ensures IsNullRecursive(AsLayer(t, x))
  {
  }

  /** Whatever wrappers are stacked on top of an always-null value (an
      optional holding a `nullptr`, say), the chain is null recursively,
      even when every wrapper holds a value. */
  lemma {:induction false} ChainEndingInAlwaysNullIsNull<T>(v: Nullable<T>, t: NullType, x: T)
    requires UnwrapRecursive(v) == AsLayer(t, x)
    ensures IsNullRecursive(v)
  {
    match v
    case Terminal(_, _) =>
    case Wrap(isNull, inner) =>
      if !isNull {
        ChainEndingInAlwaysNullIsNull(inner, t, x);
      }
  }

  /** The loop given as pseudo-code in the documentation of
      `is_null_recursive` would call a present optional holding a `nullptr`
      not null; the code calls it null. */
  lemma PresentOptionalOfNullptr<T>(x: T)
    ensures var v := Wrap(false, AsLayer(Nullptr, x));
      IsNullRecursive(v) && !IsNullByDocumentedLoop(v)
  {
  }

  /** `send`: hands back the stream it was given, for chaining. It writes
      nothing: the method may change no state at all (it has no `modifies`
      clause), so the stream's buffer stays as it was. */
  method Send(out: OStream, t: NullType) returns (r: OStream)
    ensures r == out
  {
    r := out;
  }
}
