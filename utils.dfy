/** `paramsToUrl` (src/utils.ts): a URL with a query string built from the defined parameters. */
module Utils {
  import opened Wrappers
  import opened FormUrlencoded

  /** `Object.entries(params)`, in enumeration order; an undefined value is None. */
  type Params = seq<(string, Option<string>)>

  /** The entries whose value is not undefined, in order; an empty string is kept. */
  function DefinedEntries(params: Params): (r: seq<Pair>)
    ensures |r| <= |params|
    ensures r == [] <==> forall i :: 0 <= i < |params| ==> params[i].1.None?
  {
    if params == [] then []
    else
      match params[0].1
      case None => DefinedEntries(params[1..])
      case Some(v) => [(params[0].0, v)] + DefinedEntries(params[1..])
  }

  /** Filtering works piecewise, so the survivors keep their relative order. */
  lemma {:induction false} DefinedEntriesAppend(a: Params, b: Params)
    ensures DefinedEntries(a + b) == DefinedEntries(a) + DefinedEntries(b)
  {
    if a == [] {
      assert a + b == b;
    } else {
      assert (a + b)[0] == a[0];
      assert (a + b)[1..] == a[1..] + b;
      DefinedEntriesAppend(a[1..], b);
    }
  }

  /** An entry survives exactly when its value is defined. */
  lemma DefinedEntriesSingle(name: string, value: Option<string>)
    ensures DefinedEntries([(name, value)]) == if value.Some? then [(name, value.value)] else []
  {
  }

  /** `paramsToUrl(url, params)`: the base URL verbatim, `?`, and the serialized defined entries. */
  function ParamsToUrl(url: string, params: Params): (r: string)
    ensures |r| > |url| && r[..|url|] == url && r[|url|] == '?'
    ensures (forall i :: 0 <= i < |params| ==> params[i].1.None?) ==> r == url + "?"
  {
    url + "?" + Serialize(DefinedEntries(params))
  }

  /** Parsing the query (everything after the `?` that was added) gives back exactly the defined entries. */
  lemma ParamsToUrlRoundTrip(url: string, params: Params)
    ensures Parse(ParamsToUrl(url, params)[|url| + 1..]) == DefinedEntries(params)
  {
    var q := Serialize(DefinedEntries(params));
    assert ParamsToUrl(url, params)[|url| + 1..] == q;
    ParseSerialize(DefinedEntries(params));
  }
}
