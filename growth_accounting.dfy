/** analysis/growth_accounting.py: labour compensation including the self-employed, and capital
    compensation as the rest of GDP, with the correction for negative capital compensation. Rows
    are the national accounts' rows in index order. */
module GrowthAccounting {

  /** The national-accounts cells one row of the calculation reads. */
  datatype NationalRow = NationalRow(
    compensationOfEmployees: real,
    hoursWorkedPersons: real,
    hoursWorkedEmployees: real,
    gdp: real)

  /** One row of the result of `main`: its two columns. */
  datatype Compensation = Compensation(labourCompensation: real, capitalCompensation: real)

  /** `_calculate_labour_compensation` on one row: COMP + (COMP / hours_worked_persons) ·
      (hours_worked_persons − hours_worked_employees). */
  function LabourCompensation(n: NationalRow): (r: real)
    requires n.hoursWorkedPersons != 0.0
    ensures n.hoursWorkedPersons == n.hoursWorkedEmployees ==> r == n.compensationOfEmployees
  {
    n.compensationOfEmployees
      + (n.compensationOfEmployees / n.hoursWorkedPersons) * (n.hoursWorkedPersons - n.hoursWorkedEmployees)
  }

  /** With employees working a positive share of all hours, labour compensation lies between the
      employees' compensation and twice that: it is COMP · (2 − HEMPE / HEMP). */
  lemma LabourCompensationBounds(n: NationalRow)
    requires n.compensationOfEmployees >= 0.0
    requires 0.0 < n.hoursWorkedEmployees <= n.hoursWorkedPersons
    ensures n.compensationOfEmployees <= LabourCompensation(n) < 2.0 * n.compensationOfEmployees
            || n.compensationOfEmployees == 0.0 == LabourCompensation(n)
  {
    var comp := n.compensationOfEmployees;
    var h := n.hoursWorkedPersons;
    var he := n.hoursWorkedEmployees;
    var q := he / h;
    assert 0.0 < q <= 1.0;
    assert (comp / h) * (h - he) == comp - comp * q;
    assert LabourCompensation(n) == comp * (2.0 - q);
    if comp > 0.0 {
      assert comp * (2.0 - q) >= comp * 1.0;
      assert comp * (2.0 - q) < comp * 2.0;
    }
  }

  /** The comment above the calculation divides by the employees' hours instead; for 100 of
      compensation, 2 hours worked by persons and 1 by employees the code gives 150, the comment's
      formula 200. */
  lemma LabourCompensationDiffersFromComment()
    ensures var n := NationalRow(100.0, 2.0, 1.0, 0.0);
      && LabourCompensation(n) == 150.0
      && n.compensationOfEmployees + (n.compensationOfEmployees / n.hoursWorkedEmployees)
           * (n.hoursWorkedPersons - n.hoursWorkedEmployees) == 200.0
  {
  }

  /** The correction of one row: capital compensation is GDP minus labour compensation; where that
      is negative, capital gets 95% of GDP and labour 5%. */
  function Adjusted(gdp: real, labour: real): (c: Compensation)
    ensures c.labourCompensation + c.capitalCompensation == gdp
    ensures gdp - labour >= 0.0 ==> c == Compensation(labour, gdp - labour)
    ensures gdp >= 0.0 ==> c.capitalCompensation >= 0.0
  {
    if gdp - labour < 0.0 then Compensation(0.05 * gdp, 0.95 * gdp)
    else Compensation(labour, gdp - labour)
  }

  /** `_calculate_capital_compensation`: the labour column is copied, capital compensation is set
      to GDP minus labour compensation, and the rows where that is negative are overwritten. Every
      row then splits GDP exactly into labour and capital compensation. */
  method CalculateCapitalCompensation(gdp: seq<real>, labour: seq<real>) returns (df: seq<Compensation>)
    requires |gdp| == |labour|
    ensures |df| == |gdp|
    ensures forall i :: 0 <= i < |df| ==> df[i] == Adjusted(gdp[i], labour[i])
    ensures forall i :: 0 <= i < |df| ==> df[i].labourCompensation + df[i].capitalCompensation == gdp[i]
    ensures forall i :: 0 <= i < |df| && gdp[i] >= 0.0 ==> df[i].capitalCompensation >= 0.0
  {
    var labourColumn := labour;
    var capitalColumn := seq(|gdp|, i requires 0 <= i < |gdp| => gdp[i] - labour[i]);
    var negative := seq(|gdp|, i requires 0 <= i < |gdp| => capitalColumn[i] < 0.0);
    for i := 0 to |gdp|
      invariant |labourColumn| == |capitalColumn| == |gdp|
      invariant forall j :: 0 <= j < i ==>
        Compensation(labourColumn[j], capitalColumn[j]) == Adjusted(gdp[j], labour[j])
      invariant forall j :: i <= j < |gdp| ==> labourColumn[j] == labour[j] && capitalColumn[j] == gdp[j] - labour[j]
    {
      if negative[i] {
        capitalColumn := capitalColumn[i := 0.95 * gdp[i]];
        labourColumn := labourColumn[i := 0.05 * gdp[i]];
      }
    }
    df := seq(|gdp|, i requires 0 <= i < |gdp| => Compensation(labourColumn[i], capitalColumn[i]));
  }

  /** `main`: labour compensation first, then the capital compensation and its correction; the
      result holds exactly the two compensation columns. */
  method GrowthAccountingMain(national: seq<NationalRow>) returns (df: seq<Compensation>)
    requires forall i :: 0 <= i < |national| ==> national[i].hoursWorkedPersons != 0.0
    ensures |df| == |national|
    ensures forall i :: 0 <= i < |df| ==> df[i] == Adjusted(national[i].gdp, LabourCompensation(national[i]))
    ensures forall i :: 0 <= i < |df| ==> df[i].labourCompensation + df[i].capitalCompensation == national[i].gdp
  {
    var labour := seq(|national|, i requires 0 <= i < |national| => LabourCompensation(national[i]));
    var gdp := seq(|national|, i requires 0 <= i < |national| => national[i].gdp);
    df := CalculateCapitalCompensation(gdp, labour);
  }
}
