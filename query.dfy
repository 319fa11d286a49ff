/** A query built by `make_query`: its text and the tuple of its parameters,
    with const accessors for each. */
module Queries {

  datatype Query<P> = Query(text: string, params: seq<P>)

  /** `make_query`: the text and the parameters, in the order given. */
  function MakeQuery<P>(text: string, params: seq<P>): (q: Query<P>)
    ensures GetQueryText(q) == text
    ensures GetQueryParams(q) == params
  {
    Query(text, params)
  }

  /** `get_query_text`: the text, which with the parameters makes up the
      whole query. */
  function GetQueryText<P>(q: Query<P>): (t: string)
    ensures q == Query(t, q.params)
  {
    q.text
  }

  /** `get_query_params`: the parameters, which with the text make up the
      whole query. */
  function GetQueryParams<P>(q: Query<P>): (ps: seq<P>)
    ensures q == Query(q.text, ps)
  {
    q.params
  }

  /** A query is determined by its text and its parameters: rebuilding it
      from the two accessors gives it back. */
  lemma RebuildFromAccessors<P>(q: Query<P>)
    ensures MakeQuery(GetQueryText(q), GetQueryParams(q)) == q
  {
  }
}
