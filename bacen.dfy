/** `CollectDataBacen`: a registry and a date range, and the one batched
    request it sends to the Banco Central SGS service, whose columns come
    back labelled by series code and are renamed to slugs. */
module Bacen {
  import opened Wrappers
  import opened Variables
  import opened Frames

  /** The collector's fields. It never changes them after construction. */
  datatype Collector = Collector(dictVars: Registry, startDate: string, endDate: string)

  /** What is handed to `sgs.dataframe`: the codes in registry order and the
      two dates, already formatted as day/month/year text. */
  datatype Request = Request(codes: seq<int>, start: string, end: string)

  /** The remote SGS client: it answers a request with a frame whose
      columns are labelled by code, or raises. */
  type Provider<D, V> = Request -> Result<Frame<D, V>>

  /** The message of the error raised for a missing or empty registry. */
  const EmptyVariablesError := "Dados de variáveis não podem ser nulos."

  /** `CollectDataBacen(dict_vars, start_date, end_date)`: raises when the
      registry is `None` or empty, and otherwise keeps all three arguments
      as they are. */
  function NewCollector(dictVars: Option<Registry>, startDate: string, endDate: string): (r: Result<Collector>)
    ensures r.Err? <==> dictVars.None? || dictVars.value == []
    ensures r.Err? ==> r.error == EmptyVariablesError
    ensures r.Ok? ==> r.value.dictVars == dictVars.value
    ensures r.Ok? ==> r.value.startDate == startDate && r.value.endDate == endDate
  {
    if dictVars.None? || dictVars.value == [] then Err(EmptyVariablesError)
    else Ok(Collector(dictVars.value, startDate, endDate))
  }

  /** `{v: k for k, v in dict_vars.items()}`: code to slug, built in
      insertion order, so a later slug with the same code overwrites an
      earlier one. The keys are exactly the registry's codes. */
  function Invert(r: Registry): (m: map<int, string>)
    ensures forall c :: c in m <==> c in Codes(r)
  {
    if r == [] then map[]
    else
      var p := r[..|r| - 1];
      assert Codes(r) == Codes(p) + [r[|r| - 1].code];
      Invert(p)[r[|r| - 1].code := r[|r| - 1].slug]
  }

  /** The last position in insertion order whose entry carries code `c`. */
  function LastWith(r: Registry, c: int): (p: nat)
    requires c in Codes(r)
    ensures p < |r| && r[p].code == c
    ensures forall j :: p < j < |r| ==> r[j].code != c
  {
    var p := r[..|r| - 1];
    if r[|r| - 1].code == c then |r| - 1
    else
      assert Codes(r) == Codes(p) + [r[|r| - 1].code];
      LastWith(p, c)
  }

  /** Each code is inverted to the last slug in insertion order that
      carries it. */
  lemma {:induction false} InvertLastWins(r: Registry, c: int)
    requires c in Codes(r)
    ensures c in Invert(r) && Invert(r)[c] == r[LastWith(r, c)].slug
  {
    var p := r[..|r| - 1];
    if r[|r| - 1].code != c {
      assert Codes(r) == Codes(p) + [r[|r| - 1].code];
      InvertLastWins(p, c);
    }
  }

  /** Every code of the registry is inverted to a slug that carries it in
      the registry: looking that slug up gives the code back. */
  lemma InvertSound(r: Registry, c: int)
    requires Distinct(r) && c in Codes(r)
    ensures c in Invert(r) && Lookup(r, Invert(r)[c]) == Some(c)
  {
    InvertLastWins(r, c);
    LookupEntry(r, LastWith(r, c));
  }

  /** When the codes are distinct the inversion is exact: each entry's code
      maps back to that entry's slug. */
  lemma InvertExact(r: Registry, i: int)
    requires DistinctCodes(r) && 0 <= i < |r|
    ensures r[i].code in Invert(r) && Invert(r)[r[i].code] == r[i].slug
  {
    assert r[i].code == Codes(r)[i];
    InvertLastWins(r, r[i].code);
  }

  /** The labels the SGS client puts on the columns it returns: one code
      per registry entry, in registry order. */
  function CodeLabels(r: Registry): seq<Label>
  {
    seq(|r|, i requires 0 <= i < |r| => Code(r[i].code))
  }

  /** The column labels the application means to show: the slugs. */
  function SlugLabels(r: Registry): seq<Label>
  {
    seq(|r|, i requires 0 <= i < |r| => Name(r[i].slug))
  }

  /** The request the collector sends: every code in registry order and
      the collector's dates. */
  function RequestOf(c: Collector): (q: Request)
    ensures q.codes == Codes(c.dictVars)
    ensures q.start == c.startDate && q.end == c.endDate
  {
    Request(Codes(c.dictVars), c.startDate, c.endDate)
  }

  /** `request_macro_vars`: one call to the provider; on success the frame
      comes back with its code labels renamed through the inverted registry,
      and an error from the provider is passed on unchanged. */
  function RequestMacroVars<D, V>(c: Collector, sgs: Provider<D, V>): (r: Result<Frame<D, V>>)
    ensures r.Ok? <==> sgs(RequestOf(c)).Ok?
    ensures r.Err? ==> r.error == sgs(RequestOf(c)).error
    ensures r.Ok? ==> r.value == Rename(sgs(RequestOf(c)).value, Invert(c.dictVars))
  {
    match sgs(RequestOf(c))
    case Ok(df) => Ok(Rename(df, Invert(c.dictVars)))
    case Err(e) => Err(e)
  }

  /** When the codes are distinct and the provider labels its columns with
      the requested codes, the fetched frame is labelled by the registry's
      slugs, in registry order, with rows and cells as returned. */
  lemma RelabelRecoversSlugs(r: Registry)
    requires DistinctCodes(r)
    ensures Relabel(CodeLabels(r), Invert(r)) == SlugLabels(r)
  {
    forall i | 0 <= i < |r| ensures Relabel(CodeLabels(r), Invert(r))[i] == SlugLabels(r)[i] {
      InvertExact(r, i);
    }
  }

  /** With code collisions, each column is named after the last slug in
      insertion order that carries its code. */
  lemma RelabelLastSlugWins(r: Registry, i: int)
    requires 0 <= i < |r|
    ensures r[i].code in Codes(r)
    ensures Relabel(CodeLabels(r), Invert(r))[i] == Name(r[LastWith(r, r[i].code)].slug)
  {
    assert r[i].code == Codes(r)[i];
    InvertLastWins(r, r[i].code);
  }

  /** A collision example: two slugs sharing code 4390 both come back under
      the slug inserted last. */
  lemma CollisionExample()
    ensures var r := [Entry("selic", 4390), Entry("taxa", 4390)];
      Relabel(CodeLabels(r), Invert(r)) == [Name("taxa"), Name("taxa")]
  {
  }
}
