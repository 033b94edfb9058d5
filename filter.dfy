/**
 * The row filter of the dashboard's callback: a conjunctive selection over the
 * loaded table by contract set, gender, payment method and senior flag, where
 * "All" leaves a column unconstrained. The charts built from the result are not
 * modelled.
 */
module Filter {
  import opened Records
  import opened Masks

  /** A single-choice control: the sentinel "All" or one value of the column. */
  datatype Choice<T> = All | Value(v: T)

  /** The four control values the callback receives. */
  datatype Selection = Selection(
    gender: Choice<string>,
    contracts: set<string>,
    payment: Choice<string>,
    senior: Choice<int>)

  /** A control admits a column value when it is "All" or equals that value. */
  predicate Admits<T(==)>(c: Choice<T>, x: T)
  {
    c.All? || c.v == x
  }

  /** Reference definition: the row passes every control at once. */
  predicate Matches(sel: Selection, r: Record)
  {
    && r.contract in sel.contracts
    && Admits(sel.gender, r.gender)
    && Admits(sel.payment, r.paymentMethod)
    && Admits(sel.senior, r.seniorCitizen)
  }

  function Criterion(sel: Selection): Record -> bool
  {
    r => Matches(sel, r)
  }

  /** Reference definition of the filtered view: one selection by the conjunction of all controls. */
  function Selected(df: seq<Record>, sel: Selection): seq<Record>
  {
    Where(df, Criterion(sel))
  }

  /**
   * The callback's filter as the dashboard writes it: the contract selection is always
   * applied, then the view is narrowed again by each control that is not "All".
   */
  method UpdateGraphs(df: seq<Record>, gender: Choice<string>, contracts: set<string>,
                      payment: Choice<string>, senior: Choice<int>)
    returns (filteredDf: seq<Record>)
    ensures filteredDf == Selected(df, Selection(gender, contracts, payment, senior))
  {
    ghost var sel := Selection(All, contracts, All, All);
    var byContract := (r: Record) => r.contract in contracts;
    filteredDf := Where(df, byContract);
    WhereCongruent(df, byContract, Criterion(sel));

    if gender != All {
      var byGender := (r: Record) => r.gender == gender.v;
      filteredDf := Where(filteredDf, byGender);
      WhereWhere(df, Criterion(sel), byGender, Criterion(sel.(gender := gender)));
    }
    sel := sel.(gender := gender);

    if payment != All {
      var byPayment := (r: Record) => r.paymentMethod == payment.v;
      filteredDf := Where(filteredDf, byPayment);
      WhereWhere(df, Criterion(sel), byPayment, Criterion(sel.(payment := payment)));
    }
    sel := sel.(payment := payment);

    if senior != All {
      var bySenior := (r: Record) => r.seniorCitizen == senior.v;
      filteredDf := Where(filteredDf, bySenior);
      WhereWhere(df, Criterion(sel), bySenior, Criterion(sel.(senior := senior)));
    }
  }

  /** The filtered view is a subsequence of the table: nothing invented, nothing duplicated, order kept. */
  lemma SelectedIsSubsequence(df: seq<Record>, sel: Selection)
    ensures IsSubsequence(Selected(df, sel), df)
    ensures multiset(Selected(df, sel)) <= multiset(df)
    ensures |Selected(df, sel)| <= |df|
  {
    WhereIsSubsequence(df, Criterion(sel));
  }

  /**
   * The filtered view lists table rows in table order: its `k`-th row is row `idx[k]`
   * of the table, the positions strictly increase, and they are exactly the positions
   * of the rows that pass all four controls.
   */
  lemma SelectedKeepsTableOrder(df: seq<Record>, sel: Selection) returns (idx: seq<int>)
    ensures |idx| == |Selected(df, sel)|
    ensures forall k :: 0 <= k < |idx| ==>
      0 <= idx[k] < |df| && Matches(sel, df[idx[k]]) && Selected(df, sel)[k] == df[idx[k]]
    ensures forall k, l :: 0 <= k < l < |idx| ==> idx[k] < idx[l]
    ensures forall i :: 0 <= i < |df| && Matches(sel, df[i]) ==> i in idx
  {
    idx := WhereKeepsOrder(df, Criterion(sel));
  }

  /** A row is in the filtered view exactly when it is in the table and passes all four controls. */
  lemma SelectedMembership(df: seq<Record>, sel: Selection, r: Record)
    ensures r in Selected(df, sel) <==>
      && r in df
      && r.contract in sel.contracts
      && (sel.gender.All? || sel.gender.v == r.gender)
      && (sel.payment.All? || sel.payment.v == r.paymentMethod)
      && (sel.senior.All? || sel.senior.v == r.seniorCitizen)
  {
    WhereMembership(df, Criterion(sel), r);
  }

  /** With no contract ticked the view is empty, whatever the other controls say. */
  lemma NoContractsSelectNothing(df: seq<Record>, sel: Selection)
    requires sel.contracts == {}
    ensures Selected(df, sel) == []
  {
    WhereNone(df, Criterion(sel));
  }

  /** The contract values present in the table, as `df['Contract'].unique()` lists them. */
  function ContractValues(df: seq<Record>): (cs: set<string>)
    ensures forall r :: r in df ==> r.contract in cs
    ensures forall c :: c in cs ==> exists r :: r in df && r.contract == c
  {
    set r | r in df :: r.contract
  }

  /** The controls' initial values: every contract ticked, every other control on "All". */
  function Defaults(df: seq<Record>): (d: Selection)
    ensures d.gender == All && d.payment == All && d.senior == All
    ensures forall r :: r in df ==> r.contract in d.contracts
    ensures forall c :: c in d.contracts ==> exists r :: r in df && r.contract == c
  {
    Selection(All, ContractValues(df), All, All)
  }

  /**
   * With every contract present in the table ticked and every other control on "All",
   * the view is the whole table, unchanged.
   */
  lemma DefaultsSelectEverything(df: seq<Record>, sel: Selection)
    requires ContractValues(df) <= sel.contracts
    requires sel.gender == All && sel.payment == All && sel.senior == All
    ensures Selected(df, sel) == df
  {
    forall r | r in df
      ensures Criterion(sel)(r)
    {
      assert r.contract in ContractValues(df);
    }
    WhereAll(df, Criterion(sel));
  }

  lemma InitialViewIsWholeTable(df: seq<Record>)
    ensures Selected(df, Defaults(df)) == df
  {
    DefaultsSelectEverything(df, Defaults(df));
  }

  /** A control is at least as strict as another: the other is "All", or both name the same value. */
  predicate Refines<T(==)>(narrow: Choice<T>, wide: Choice<T>)
  {
    wide.All? || narrow == wide
  }

  /** One selection is at least as strict as another, control by control. */
  predicate Narrower(narrow: Selection, wide: Selection)
  {
    && narrow.contracts <= wide.contracts
    && Refines(narrow.gender, wide.gender)
    && Refines(narrow.payment, wide.payment)
    && Refines(narrow.senior, wide.senior)
  }

  /**
   * Unticking contracts, or replacing "All" by a value, never enlarges the view: the
   * stricter view is the looser view narrowed further, hence a subsequence of it.
   */
  lemma SelectionMonotone(df: seq<Record>, narrow: Selection, wide: Selection)
    requires Narrower(narrow, wide)
    ensures Selected(df, narrow) == Where(Selected(df, wide), Criterion(narrow))
    ensures IsSubsequence(Selected(df, narrow), Selected(df, wide))
    ensures |Selected(df, narrow)| <= |Selected(df, wide)|
  {
    WhereWhere(df, Criterion(wide), Criterion(narrow), Criterion(narrow));
    WhereIsSubsequence(Selected(df, wide), Criterion(narrow));
  }

  /** Filtering the filtered view again with the same controls changes nothing. */
  lemma SelectionIdempotent(df: seq<Record>, sel: Selection)
    ensures Selected(Selected(df, sel), sel) == Selected(df, sel)
  {
    WhereWhere(df, Criterion(sel), Criterion(sel), Criterion(sel));
  }

  /**
   * When every senior flag in the table is 0 or 1, the view with senior on "All" is
   * the union of the views for 0 and for 1, the other controls held fixed.
   */
  lemma SeniorPartition(df: seq<Record>, sel: Selection)
    requires forall r :: r in df ==> r.seniorCitizen == 0 || r.seniorCitizen == 1
    ensures multiset(Selected(df, sel.(senior := All)))
      == multiset(Selected(df, sel.(senior := Value(0)))) + multiset(Selected(df, sel.(senior := Value(1))))
    ensures |Selected(df, sel.(senior := All))|
      == |Selected(df, sel.(senior := Value(0)))| + |Selected(df, sel.(senior := Value(1)))|
  {
    WhereSplit(df, Criterion(sel.(senior := All)), Criterion(sel.(senior := Value(0))),
      Criterion(sel.(senior := Value(1))));
  }

  /** One narrowing step of the callback, as a value. */
  datatype Step =
    | ContractIn(contracts: set<string>)
    | GenderIs(gender: string)
    | PaymentIs(payment: string)
    | SeniorIs(senior: int)

  predicate Holds(s: Step, r: Record)
  {
    match s
    case ContractIn(cs) => r.contract in cs
    case GenderIs(g) => r.gender == g
    case PaymentIs(p) => r.paymentMethod == p
    case SeniorIs(f) => r.seniorCitizen == f
  }

  function StepTest(s: Step): Record -> bool
  {
    r => Holds(s, r)
  }

  /** The row passes every step of the list. */
  function AllSteps(steps: seq<Step>): Record -> bool
  {
    r => forall s :: s in steps ==> Holds(s, r)
  }

  /** Reassigning the view once per step, in the order of the list. */
  function Narrow(df: seq<Record>, steps: seq<Step>): (v: seq<Record>)
    ensures |v| <= |df|
    ensures forall x :: x in v ==> x in df
    decreases |steps|
  {
    if steps == [] then df else Narrow(Where(df, StepTest(steps[0])), steps[1..])
  }

  /** The steps the callback takes for a selection: the contract step, then one step per control not on "All". */
  function StepsOf(sel: Selection): (steps: seq<Step>)
    ensures 1 <= |steps| <= 4 && steps[0] == ContractIn(sel.contracts)
    ensures forall g :: GenderIs(g) in steps <==> sel.gender == Value(g)
    ensures forall m :: PaymentIs(m) in steps <==> sel.payment == Value(m)
    ensures forall f :: SeniorIs(f) in steps <==> sel.senior == Value(f)
  {
    [ContractIn(sel.contracts)]
      + (if sel.gender.All? then [] else [GenderIs(sel.gender.v)])
      + (if sel.payment.All? then [] else [PaymentIs(sel.payment.v)])
      + (if sel.senior.All? then [] else [SeniorIs(sel.senior.v)])
  }

  /** Narrowing step by step is one selection by the conjunction of the steps. */
  lemma {:induction false} NarrowIsConjunction(df: seq<Record>, steps: seq<Step>)
    ensures Narrow(df, steps) == Where(df, AllSteps(steps))
    decreases |steps|
  {
    if steps == [] {
      WhereAll(df, AllSteps(steps));
    } else {
      var rest := steps[1..];
      assert steps == [steps[0]] + rest;
      NarrowIsConjunction(Where(df, StepTest(steps[0])), rest);
      WhereWhere(df, StepTest(steps[0]), AllSteps(rest), AllSteps(steps));
    }
  }

  /** The steps can be taken in any order: any rearrangement of them gives the same view. */
  lemma StepOrderIrrelevant(df: seq<Record>, steps: seq<Step>, reordered: seq<Step>)
    requires multiset(steps) == multiset(reordered)
    ensures Narrow(df, steps) == Narrow(df, reordered)
  {
    NarrowIsConjunction(df, steps);
    NarrowIsConjunction(df, reordered);
    forall r | r in df
      ensures AllSteps(steps)(r) == AllSteps(reordered)(r)
    {
      assert forall s :: s in steps <==> s in multiset(steps);
      assert forall s :: s in reordered <==> s in multiset(reordered);
    }
    WhereCongruent(df, AllSteps(steps), AllSteps(reordered));
  }

  /** A row passes the callback's steps for a selection exactly when it matches the selection. */
  lemma StepsOfMatch(sel: Selection, r: Record)
    ensures AllSteps(StepsOf(sel))(r) == Matches(sel, r)
  {
    var g := if sel.gender.All? then [] else [GenderIs(sel.gender.v)];
    var p := if sel.payment.All? then [] else [PaymentIs(sel.payment.v)];
    var f := if sel.senior.All? then [] else [SeniorIs(sel.senior.v)];
    assert StepsOf(sel) == [ContractIn(sel.contracts)] + g + p + f;
    assert forall s :: s in StepsOf(sel) <==> s == ContractIn(sel.contracts) || s in g || s in p || s in f;
    if Matches(sel, r) {
      forall s | s in StepsOf(sel)
        ensures Holds(s, r)
      {
      }
    } else {
      assert !Holds(ContractIn(sel.contracts), r)
        || (sel.gender.Value? && !Holds(GenderIs(sel.gender.v), r))
        || (sel.payment.Value? && !Holds(PaymentIs(sel.payment.v), r))
        || (sel.senior.Value? && !Holds(SeniorIs(sel.senior.v), r));
    }
  }

  /**
   * Whatever order the callback's narrowing steps are taken in, the result is the
   * reference view of the selection.
   */
  lemma NarrowingInAnyOrder(df: seq<Record>, sel: Selection, steps: seq<Step>)
    requires multiset(steps) == multiset(StepsOf(sel))
    ensures Narrow(df, steps) == Selected(df, sel)
  {
    StepOrderIrrelevant(df, steps, StepsOf(sel));
    NarrowIsConjunction(df, StepsOf(sel));
    forall r | r in df
      ensures AllSteps(StepsOf(sel))(r) == Criterion(sel)(r)
    {
      StepsOfMatch(sel, r);
    }
    WhereCongruent(df, AllSteps(StepsOf(sel)), Criterion(sel));
  }

  /**
   * One month-to-month customer, alone in the table, is in the view when gender is
   * "All" and out of it, leaving the view empty, when gender is "Male".
   */
  lemma OneCustomerExample(services: seq<Cell>)
    ensures
      var r := Record("Female", 0, "Month-to-month", "Electronic check", 5, 50.0, Some(250.0), "Yes", services);
      && Selected([r], Selection(All, {"Month-to-month"}, All, All)) == [r]
      && Selected([r], Selection(Value("Male"), {"Month-to-month"}, All, All)) == []
  {
  }
}
