/** The variable registry: an insertion-ordered dictionary from slug to SGS
    series code, as the application keeps it in its session state. A Python
    dict keeps its keys in insertion order, so the registry is a sequence of
    entries whose slugs are pairwise distinct. */
module Variables {
  import opened Wrappers

  /** One registered variable: its slug and the series code it stands for. */
  datatype Entry = Entry(slug: string, code: int)

  type Registry = seq<Entry>

  /** `k in d`: some entry carries slug `k`. */
  predicate Has(r: Registry, k: string) {
    r != [] && (r[0].slug == k || Has(r[1..], k))
  }

  /** `list(d.keys())`: the slugs in insertion order. */
  function Slugs(r: Registry): seq<string> {
    if r == [] then [] else [r[0].slug] + Slugs(r[1..])
  }

  /** `list(d.values())`: the codes in insertion order. */
  function Codes(r: Registry): (s: seq<int>)
    ensures |s| == |r|
    ensures forall i :: 0 <= i < |r| ==> s[i] == r[i].code
  {
    if r == [] then [] else [r[0].code] + Codes(r[1..])
  }

  /** No slug occurs twice: the dictionary invariant. */
  predicate Distinct(r: Registry) {
    forall i, j :: 0 <= i < j < |r| ==> r[i].slug != r[j].slug
  }

  /** No code occurs twice; nothing in the application enforces this. */
  predicate DistinctCodes(r: Registry) {
    forall i, j :: 0 <= i < j < |r| ==> r[i].code != r[j].code
  }

  /** A dictionary no action of the page can break: distinct slugs and no
      zero code (a zero value is refused when a variable is added). */
  predicate WellFormed(r: Registry) {
    Distinct(r) && forall i :: 0 <= i < |r| ==> r[i].code != 0
  }

  /** `d.get(k)`: the code stored under slug `k`, if any. */
  function Lookup(r: Registry, k: string): Option<int> {
    if r == [] then None
    else if r[0].slug == k then Some(r[0].code)
    else Lookup(r[1..], k)
  }

  /** The position of slug `k` in insertion order: its first occurrence. */
  function Position(r: Registry, k: string): (p: nat)
    requires Has(r, k)
    ensures p < |r| && r[p].slug == k
    ensures forall i :: 0 <= i < p ==> r[i].slug != k
  {
    if r[0].slug == k then 0 else 1 + Position(r[1..], k)
  }

  /** Every entry's slug is a key. */
  lemma {:induction false} HasAt(r: Registry, i: nat)
    requires i < |r|
    ensures Has(r, r[i].slug)
  {
    if i > 0 {
      HasAt(r[1..], i - 1);
    }
  }

  /** The key list has one slug per entry, in order. */
  lemma {:induction false} SlugsAt(r: Registry)
    ensures |Slugs(r)| == |r|
    ensures forall i :: 0 <= i < |r| ==> Slugs(r)[i] == r[i].slug
  {
    if r != [] {
      SlugsAt(r[1..]);
    }
  }

  /** In a dictionary with distinct slugs, an entry sits at its slug's
      position. */
  lemma PositionOfEntry(r: Registry, i: nat)
    requires Distinct(r) && i < |r|
    ensures Has(r, r[i].slug) && Position(r, r[i].slug) == i
  {
    HasAt(r, i);
  }

  /** The sixteen default variables the application starts from and resets to. */
  const Default: Registry := [
    Entry("selic", 4390),
    Entry("valor-compra-dolar", 3695),
    Entry("valor-venda-dolar", 3696),
    Entry("inpc", 188),
    Entry("ipca", 433),
    Entry("tx-selic", 4189),
    Entry("pib", 4380),
    Entry("ipca12", 13522),
    Entry("endividamento-sfn", 19882),
    Entry("endividamento-sfn-exceto-credito-habitacional", 20400),
    Entry("atraso", 21082),
    Entry("inadimplencia-pf", 21084),
    Entry("inadimplencia-pj", 21083),
    Entry("desocupacao", 24369),
    Entry("cc", 4393),
    Entry("ipa", 7459)
  ]

  /** The default registry holds sixteen variables with positive codes. */
  lemma DefaultSize()
    ensures |Default| == 16
    ensures forall i :: 0 <= i < |Default| ==> Default[i].code > 0
  {
  }

  /** The default registry is a well-formed dictionary: no slug twice. */
  lemma DefaultDistinct()
    ensures WellFormed(Default)
  {
  }

  /** No two default variables share a series code. */
  lemma DefaultDistinctCodes()
    ensures DistinctCodes(Default)
  {
  }

  /** Looking a slug up finds nothing exactly when the slug is not a key. */
  lemma {:induction false} LookupNone(r: Registry, k: string)
    ensures Lookup(r, k).None? <==> !Has(r, k)
  {
    if r != [] {
      LookupNone(r[1..], k);
    }
  }

  /** Looking a key up gives the code at the key's position. */
  lemma {:induction false} LookupAt(r: Registry, k: string)
    requires Has(r, k)
    ensures Lookup(r, k) == Some(r[Position(r, k)].code)
  {
    if r[0].slug != k {
      LookupAt(r[1..], k);
    }
  }

  /** In a dictionary with distinct slugs, every entry is found by its slug. */
  lemma LookupEntry(r: Registry, i: nat)
    requires Distinct(r) && i < |r|
    ensures Lookup(r, r[i].slug) == Some(r[i].code)
  {
    PositionOfEntry(r, i);
    LookupAt(r, r[i].slug);
  }

  /** `d[k] = v` for a fresh slug `k` appends the entry: the registry stays
      well formed when `v` is nonzero, and the new slug is a key. */
  lemma AppendFresh(r: Registry, k: string, v: int)
    requires WellFormed(r) && !Has(r, k) && v != 0
    ensures WellFormed(r + [Entry(k, v)])
    ensures Has(r + [Entry(k, v)], k)
  {
    forall i | 0 <= i < |r| ensures r[i].slug != k {
      HasAt(r, i);
    }
    HasAt(r + [Entry(k, v)], |r|);
  }

  /** After `d[k] = v` for a fresh slug, the new slug maps to `v` and every
      other slug keeps its code. */
  lemma {:induction false} AppendLookup(r: Registry, k: string, v: int, j: string)
    requires !Has(r, k)
    ensures Lookup(r + [Entry(k, v)], j) == if j == k then Some(v) else Lookup(r, j)
  {
    if r != [] {
      assert (r + [Entry(k, v)])[1..] == r[1..] + [Entry(k, v)];
      AppendLookup(r[1..], k, v, j);
    }
  }

  /** `del d[k]`: the first entry with slug `k` is taken out. */
  function Delete(r: Registry, k: string): Registry {
    if r == [] then []
    else if r[0].slug == k then r[1..]
    else [r[0]] + Delete(r[1..], k)
  }

  /** Deleting a present slug takes out exactly its entry and keeps the
      others in order. */
  lemma {:induction false} DeleteAt(r: Registry, k: string)
    requires Has(r, k)
    ensures Delete(r, k) == r[..Position(r, k)] + r[Position(r, k) + 1..]
  {
    if r[0].slug != k {
      DeleteAt(r[1..], k);
      var p := Position(r[1..], k);
      assert r[1..][..p] == r[1..p + 1];
      assert [r[0]] + r[1..p + 1] == r[..p + 1];
    }
  }

  /** The registry without the entries whose slugs are in `gone`, in the
      original order: what removing a set of selected variables leaves. */
  function Keep(r: Registry, gone: set<string>): Registry {
    if r == [] then []
    else if r[0].slug in gone then Keep(r[1..], gone)
    else [r[0]] + Keep(r[1..], gone)
  }

  /** After removal, a slug is a key exactly when it was a key before and
      was not removed. */
  lemma {:induction false} KeepHas(r: Registry, gone: set<string>, k: string)
    ensures Has(Keep(r, gone), k) <==> Has(r, k) && k !in gone
  {
    if r != [] {
      KeepHas(r[1..], gone, k);
    }
  }

  /** Exactly the entries whose slugs were not removed survive removal. */
  lemma {:induction false} KeepMember(r: Registry, gone: set<string>, e: Entry)
    ensures e in Keep(r, gone) <==> e in r && e.slug !in gone
  {
    if r != [] {
      assert r == [r[0]] + r[1..];
      KeepMember(r[1..], gone, e);
    }
  }

  /** Removal keeps the registry well formed. */
  lemma {:induction false} KeepWellFormed(r: Registry, gone: set<string>)
    requires WellFormed(r)
    ensures WellFormed(Keep(r, gone))
  {
    if r != [] {
      KeepWellFormed(r[1..], gone);
      if r[0].slug !in gone {
        var rest := Keep(r[1..], gone);
        forall j | 0 <= j < |rest| ensures rest[j].slug != r[0].slug {
          KeepMember(r[1..], gone, rest[j]);
        }
        assert Keep(r, gone) == [r[0]] + rest;
      }
    }
  }

  /** After removal a removed slug has no code and every other slug keeps
      its code. */
  lemma {:induction false} KeepLookup(r: Registry, gone: set<string>, k: string)
    ensures Lookup(Keep(r, gone), k) == if k in gone then None else Lookup(r, k)
  {
    if r != [] {
      KeepLookup(r[1..], gone, k);
    }
  }

  /** Of two slugs that survive removal, the one inserted first still comes
      first, and the other way round. */
  lemma {:induction false} KeepOrder(r: Registry, gone: set<string>, a: string, b: string)
    requires Has(r, a) && Has(r, b) && a !in gone && b !in gone
    ensures Has(Keep(r, gone), a) && Has(Keep(r, gone), b)
    ensures Position(Keep(r, gone), a) < Position(Keep(r, gone), b) <==> Position(r, a) < Position(r, b)
  {
    KeepHas(r, gone, a);
    KeepHas(r, gone, b);
    if r[0].slug in gone {
      KeepOrder(r[1..], gone, a, b);
    } else if a != r[0].slug && b != r[0].slug {
      KeepOrder(r[1..], gone, a, b);
    }
  }

  /** Removing slugs none of which is present changes nothing. */
  lemma {:induction false} KeepUntouched(r: Registry, gone: set<string>)
    requires forall i :: 0 <= i < |r| ==> r[i].slug !in gone
    ensures Keep(r, gone) == r
  {
    if r != [] {
      KeepUntouched(r[1..], gone);
    }
  }

  /** Removing every slug of the registry empties it. */
  lemma {:induction false} KeepAll(r: Registry, gone: set<string>)
    requires forall i :: 0 <= i < |r| ==> r[i].slug in gone
    ensures Keep(r, gone) == []
  {
    if r != [] {
      KeepAll(r[1..], gone);
    }
  }

  /** With distinct keys, deleting one slug is removing the set holding it. */
  lemma {:induction false} DeleteIsKeep(r: Registry, k: string)
    requires Distinct(r)
    ensures Delete(r, k) == Keep(r, {k})
  {
    if r != [] {
      DeleteIsKeep(r[1..], k);
      if r[0].slug == k {
        KeepUntouched(r[1..], {k});
      }
    }
  }

  /** Removing one set of slugs and then another is removing their union. */
  lemma {:induction false} KeepKeep(r: Registry, a: set<string>, b: set<string>)
    ensures Keep(Keep(r, a), b) == Keep(r, a + b)
  {
    if r != [] {
      KeepKeep(r[1..], a, b);
    }
  }

  /** One step of the removal loop: with `removed` already gone, deleting a
      further selected slug leaves the registry without `removed + {k}`. */
  lemma RemoveStep(r: Registry, removed: set<string>, k: string)
    requires WellFormed(r) && Has(r, k) && k !in removed
    ensures Has(Keep(r, removed), k) && WellFormed(Keep(r, removed))
    ensures Delete(Keep(r, removed), k) == Keep(r, removed + {k})
    ensures WellFormed(Keep(r, removed + {k}))
  {
    KeepWellFormed(r, removed + {k});
    KeepHas(r, removed, k);
    KeepWellFormed(r, removed);
    DeleteIsKeep(Keep(r, removed), k);
    KeepKeep(r, removed, {k});
  }
}
