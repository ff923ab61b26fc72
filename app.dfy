/** The per-session state of the page and the four actions that change it:
    adding a variable, removing selected ones, resetting to the defaults and
    fetching the data. Each action runs to completion before the page is
    drawn again, so each is one method call here. */
module App {
  import opened Wrappers
  import opened Variables
  import opened Frames
  import opened Bacen

  /** The slugs of a list, as a set. */
  function SetOf(s: seq<string>): set<string> {
    set x | x in s
  }

  /** What `add_variable` reports: success, the duplicate warning, or the
      missing-input error. */
  datatype AddOutcome = Added(slug: string) | Duplicate(slug: string) | MissingInput

  /** What the fetch button reports: no variables selected, data collected,
      or the error text of a failed request. */
  datatype FetchOutcome = NoVariables | Collected | Failed(error: string)

  /** `st.session_state`: the registry, the two pending inputs the text and
      number widgets write into, the last fetched frame and whether a fetch
      has succeeded since the last reset. */
  class Session<D, V> {
    var dictVars: Registry
    var varName: string
    var varValue: int
    var dataCollected: bool
    var df: Frame<D, V>

    /** The registry is a well-formed dictionary. */
    ghost predicate Valid()
      reads this
    {
      WellFormed(dictVars)
    }

    /** The session as first initialised: the default registry, empty
        inputs, an empty frame and nothing collected. */
    constructor ()
      ensures Valid()
      ensures dictVars == Default && varName == "" && varValue == 0
      ensures !dataCollected && df == EmptyFrame()
    {
      dictVars := Default;
      varName := "";
      varValue := 0;
      dataCollected := false;
      df := EmptyFrame();
      DefaultDistinct();
    }

    /** `add_variable`: with a non-empty name and a nonzero value, a fresh
        slug is appended with the value as its code, a slug already present
        only draws a warning, and in both cases the inputs are cleared;
        otherwise nothing changes and an error is reported. */
    method AddVariable(slugify: string -> string) returns (outcome: AddOutcome)
      requires Valid()
      modifies this`dictVars, this`varName, this`varValue
      ensures Valid()
      ensures old(varName) == "" || old(varValue) == 0 ==>
        && outcome == MissingInput
        && dictVars == old(dictVars) && varName == old(varName) && varValue == old(varValue)
      ensures old(varName) != "" && old(varValue) != 0 ==>
        varName == "" && varValue == 0
      ensures old(varName) != "" && old(varValue) != 0 && Has(old(dictVars), slugify(old(varName))) ==>
        outcome == Duplicate(slugify(old(varName))) && dictVars == old(dictVars)
      ensures old(varName) != "" && old(varValue) != 0 && !Has(old(dictVars), slugify(old(varName))) ==>
        && outcome == Added(slugify(old(varName)))
        && dictVars == old(dictVars) + [Entry(slugify(old(varName)), old(varValue))]
    {
      if varName != "" && varValue != 0 {
        var slug := slugify(varName);
        if Has(dictVars, slug) {
          outcome := Duplicate(slug);
        } else {
          AppendFresh(dictVars, slug, varValue);
          dictVars := dictVars + [Entry(slug, varValue)];
          outcome := Added(slug);
        }
        varName := "";
        varValue := 0;
      } else {
        outcome := MissingInput;
      }
    }

    /** The remove button: deletes each selected slug in turn. The selection
        comes from a multiselect over the current keys, so its slugs are
        present and distinct. Afterwards the registry is the old one without
        the selected entries. */
    method Remove(selection: seq<string>)
      requires Valid()
      requires forall i :: 0 <= i < |selection| ==> Has(dictVars, selection[i])
      requires forall i, j :: 0 <= i < j < |selection| ==> selection[i] != selection[j]
      modifies this`dictVars
      ensures Valid()
      ensures dictVars == Keep(old(dictVars), SetOf(selection))
    {
      var i := 0;
      KeepUntouched(dictVars, {});
      assert SetOf(selection[..0]) == {};
      while i < |selection|
        invariant 0 <= i <= |selection|
        invariant Valid()
        invariant dictVars == Keep(old(dictVars), SetOf(selection[..i]))
      {
        var v := selection[i];
        assert SetOf(selection[..i + 1]) == SetOf(selection[..i]) + {v} by {
          assert selection[..i + 1] == selection[..i] + [v];
        }
        RemoveStep(old(dictVars), SetOf(selection[..i]), v);
        dictVars := Delete(dictVars, v);
        i := i + 1;
      }
      assert selection[..|selection|] == selection;
    }

    /** The reset button: the registry becomes a copy of the defaults and the
        collected flag is cleared; the last fetched frame stays as it was. */
    method Reset()
      modifies this`dictVars, this`dataCollected
      ensures Valid()
      ensures dictVars == Default && !dataCollected
      ensures df == old(df)
    {
      dictVars := Default;
      dataCollected := false;
      DefaultDistinct();
    }

    /** The fetch button. With an empty registry it reports so and changes
        nothing, without calling the provider. Otherwise it sends one request
        with every code and the two dates; on success the renamed frame
        replaces the stored one and the flag is set, and on failure the flag
        is cleared and the stored frame is kept. */
    method Fetch(startDate: string, endDate: string, sgs: Provider<D, V>) returns (outcome: FetchOutcome, sent: Option<Request>)
      modifies this`df, this`dataCollected
      ensures dictVars == [] ==>
        && outcome == NoVariables && sent == None
        && df == old(df) && dataCollected == old(dataCollected)
      ensures dictVars != [] ==> sent == Some(Request(Codes(dictVars), startDate, endDate))
      ensures dictVars != [] && sgs(sent.value).Ok? ==>
        && outcome == Collected && dataCollected
        && df == Rename(sgs(sent.value).value, Invert(dictVars))
      ensures dictVars != [] && sgs(sent.value).Err? ==>
        && outcome == Failed(sgs(sent.value).error) && !dataCollected
        && df == old(df)
    {
      if dictVars == [] {
        outcome, sent := NoVariables, None;
        return;
      }
      var made := NewCollector(Some(dictVars), startDate, endDate);
      sent := if made.Ok? then Some(RequestOf(made.value)) else None;
      var fetched: Result<Frame<D, V>> :=
        match made
        case Ok(collector) => RequestMacroVars(collector, sgs)
        case Err(e) => Err(e);
      match fetched
      case Ok(t) =>
        df := t;
        dataCollected := true;
        outcome := Collected;
      case Err(e) =>
        dataCollected := false;
        outcome := Failed(e);
    }

    /** The chart section: drawn only once data is collected, from the
        stored frame melted to long form. */
    method LongForm() returns (records: Option<seq<Record<D, V>>>)
      ensures dataCollected ==> records == Some(Melt(df))
      ensures !dataCollected ==> records == None
    {
      records := if dataCollected then Some(Melt(df)) else None;
    }
  }

  /** Adding a variable with value zero is refused and changes nothing. */
  method ZeroValueScenario<D, V>(slugify: string -> string)
  {
    var s := new Session<D, V>();
    s.varName, s.varValue := "Selic", 0;
    var added := s.AddVariable(slugify);
    assert added == MissingInput && s.dictVars == Default && s.varName == "Selic";
  }

  /** Removing every variable and then fetching is refused without a
      request, and leaves nothing collected. */
  method EmptyRegistryScenario<D, V>(s: Session<D, V>, sgs: Provider<D, V>)
    requires s.Valid() && !s.dataCollected
    modifies s
  {
    var all := Slugs(s.dictVars);
    SlugsAt(s.dictVars);
    forall i | 0 <= i < |all| ensures Has(s.dictVars, all[i]) {
      HasAt(s.dictVars, i);
    }
    s.Remove(all);
    KeepAll(old(s.dictVars), SetOf(all));
    assert s.dictVars == [];
    var outcome, sent := s.Fetch("01/05/2016", "30/04/2024", sgs);
    assert outcome == NoVariables && sent == None && !s.dataCollected;
  }

  /** A one-variable fetch: the provider's column labelled 4390 comes back
      labelled "selic", with its dates and values as returned. */
  lemma SelicScenario<D, V>(d1: D, d2: D, x: V, sgs: Provider<D, V>)
    requires sgs(Request([4390], "01/01/2020", "03/01/2020")) == Ok(Table([d1, d2], [Code(4390)], [[x, x]]))
    ensures RequestMacroVars(Collector([Entry("selic", 4390)], "01/01/2020", "03/01/2020"), sgs)
      == Ok(Table([d1, d2], [Name("selic")], [[x, x]]))
  {
    var c := Collector([Entry("selic", 4390)], "01/01/2020", "03/01/2020");
    assert RequestOf(c) == Request([4390], "01/01/2020", "03/01/2020");
    assert Codes(c.dictVars) == [4390];
    assert Invert(c.dictVars) == map[4390 := "selic"];
    assert Relabel([Code(4390)], map[4390 := "selic"]) == [Name("selic")];
  }
}
