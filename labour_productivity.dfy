/** analysis/labour_productivity.py: the checked conversion of three percentages into a Series
    indexed by the aggregate categories, and the reference table of sub-component percentages. */
module LabourProductivity {
  import opened Wrappers
  import opened Config

  /** The type the percentages argument must have. */
  const ListTypeName: string := "<class 'list'>"

  /** A pandas Series with string labels, its labels and values in order. */
  datatype LabelledSeries = LabelledSeries(index: seq<string>, values: seq<real>)

  /** `_raise_length_mismatch`: the list must hold one value per aggregate category; otherwise
      ValueError reports the actual and the expected length. */
  function RaiseLengthMismatch(percentages: seq<real>): (r: Outcome)
    ensures r == Pass <==> |percentages| == |IntangibleAggregateCategories|
    ensures r.Fail? ==> r.error == LengthMismatch(|percentages|, 3) && r.error.PythonClass() == ValueError
  {
    if |percentages| != |IntangibleAggregateCategories| then Fail(LengthMismatch(|percentages|, |IntangibleAggregateCategories|))
    else Pass
  }

  /** The checks in their order: None, then not a list, then the length. */
  function PercentagesChecks(percentages: Arg<seq<real>>): (r: Outcome)
    ensures percentages.NoneArg? ==> r == Fail(ArgumentIsNone("percentages"))
    ensures percentages.OtherType? ==> r == Fail(WrongType("percentages", ListTypeName))
    ensures percentages.Given? ==> r == RaiseLengthMismatch(percentages.value)
    ensures r.Fail? ==> r.error.PythonClass() == ValueError
  {
    match percentages
    case NoneArg => Fail(ArgumentIsNone("percentages"))
    case OtherType => Fail(WrongType("percentages", ListTypeName))
    case Given(p) => RaiseLengthMismatch(p)
  }

  /** `get_share_of_intangible_sub_components_in_labour_productivity`: after the checks, a Series
      indexed by the three aggregate categories is filled position by position; the values are the
      percentages themselves, unscaled. */
  method GetShareOfIntangibleSubComponentsInLabourProductivity(percentages: Arg<seq<real>>)
    returns (r: Result<LabelledSeries>)
    ensures r.Err? <==> PercentagesChecks(percentages).Fail?
    ensures r.Err? ==> r.error == PercentagesChecks(percentages).error
    ensures r.Ok? ==> r.value.index == IntangibleAggregateCategories && r.value.values == percentages.value
  {
    var check := PercentagesChecks(percentages);
    if check.Fail? {
      return Err(check.error);
    }
    var p := percentages.value;
    var categories := IntangibleAggregateCategories;
    var sr := new real[|categories|];
    for i := 0 to |categories|
      invariant sr[..i] == p[..i]
    {
      sr[i] := p[i];
    }
    assert sr[..] == sr[..|categories|];
    assert p == p[..|categories|];
    return Ok(LabelledSeries(categories, sr[..]));
  }

  /** `get_percent_of_intangible_sub_components_in_labour_productivity`: the contributions of
      software and databases, innovative property and economic competencies to labour productivity
      for the countries of the published table. */
  function PercentTable(): (t: map<string, seq<real>>)
    ensures "SK" !in t
    ensures forall c :: c in t ==> |t[c]| == 3
  {
    map[
      "AT" := [0.13, 0.29, 0.13],
      "DK" := [0.29, 0.27, 0.17],
      "CZ" := [0.06, 0.35, 0.27],
      "EL" := [0.06, 0.11, 0.07],
      "UK" := [0.16, 0.17, 0.36],
      "US" := [0.18, 0.35, 0.29],
      "DE" := [0.07, 0.23, 0.07],
      "FR" := [0.15, 0.18, 0.15],
      "IT" := [0.03, 0.05, 0.04],
      "ES" := [0.05, 0.15, -0.08]]
  }

  /** The table holds ten countries, every main country but Slovakia among them, and every entry
      passes the checks of the Series conversion. */
  lemma PercentTableEntriesPass()
    ensures |PercentTable().Keys| == 10
    ensures forall c :: c in CountryCodes && c != "SK" ==> c in PercentTable()
    ensures forall c :: c in PercentTable() ==> PercentagesChecks(Given(PercentTable()[c])) == Pass
  {
    PercentTableSize();
    var t := PercentTable();
    forall c | c in t
      ensures PercentagesChecks(Given(t[c])) == Pass
    {
      assert |t[c]| == 3;
    }
  }

  /** The table's ten country codes are pairwise different, added one at a time. */
  lemma PercentTableSize()
    ensures |PercentTable().Keys| == 10
  {
    var s1 := {"AT"};
    var s2 := s1 + {"DK"};
    var s3 := s2 + {"CZ"};
    var s4 := s3 + {"EL"};
    var s5 := s4 + {"UK"};
    assert "UK" !in s4;
    var s6 := s5 + {"US"};
    assert "US" !in s5;
    var s7 := s6 + {"DE"};
    assert "DE" !in s6;
    var s8 := s7 + {"FR"};
    assert "FR" !in s7;
    var s9 := s8 + {"IT"};
    assert "IT" !in s8;
    var s10 := s9 + {"ES"};
    assert "ES" !in s9;
    assert PercentTable().Keys == s10;
  }
}
