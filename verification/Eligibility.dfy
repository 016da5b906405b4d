/** The benefit estimate: app/domains/eligibility/calculator.py and models.py, with the
    fallback tables of app/routers/eligibility.py.  Decimal amounts are reals.
 */
module Eligibility {
  import opened Prelude

  datatype Relationship = SINGLE | COUPLE

  datatype Request = Request(
    relationship: Relationship,
    dependants: int,
    applicantPwd: bool,
    spousePwd: bool,
    income: real,
    spouseIncome: real,
    primaryVehicle: real,
    otherVehicle: real,
    otherAssets: real)

  // What pydantic accepts.
  predicate ValidRequest(req: Request) {
    && 0 <= req.dependants <= 20
    && req.income >= 0.0 && req.spouseIncome >= 0.0
    && req.primaryVehicle >= 0.0 && req.otherVehicle >= 0.0 && req.otherAssets >= 0.0
    && (req.relationship == SINGLE ==> !req.spousePwd && req.spouseIncome == 0.0)
  }

  function FamilySize(req: Request): int {
    (if req.relationship == COUPLE then 2 else 1) + req.dependants
  }

  function TotalAssets(req: Request): real {
    req.primaryVehicle + req.otherVehicle + req.otherAssets
  }

  function TotalIncome(req: Request): real {
    req.income + req.spouseIncome
  }

  datatype Type = A | B | C | D | E

  datatype Category = CatA | CatB | CatC | CatD

  datatype RateRow = RateRow(familySize: int, a: real, b: real, c: real, d: real, e: real)

  datatype AssetLimitRow = AssetLimitRow(category: Category, limit: real)

  datatype Reason = AssetsExceedLimit | IncomeExceedsLimit

  datatype Estimate = Estimate(eligible: bool, amount: real, reason: Option<Reason>, clientType: Type)

  const MAX_RATE_TABLE_FAMILY_SIZE := 7

  datatype Tables = Tables(rates: map<int, RateRow>, limits: map<Category, real>)

  // The dictionaries of the constructor: a later row replaces an earlier one.
  function IndexRates(rows: seq<RateRow>): map<int, RateRow> {
    if rows == [] then map[] else IndexRates(Front(rows))[Last(rows).familySize := Last(rows)]
  }

  function IndexLimits(rows: seq<AssetLimitRow>): map<Category, real> {
    if rows == [] then map[] else IndexLimits(Front(rows))[Last(rows).category := Last(rows).limit]
  }

  /* ---------- The calculator ---------- */

  function ClassifyClientType(req: Request): Type {
    if req.relationship == COUPLE then
      if req.applicantPwd && req.spousePwd then E
      else if req.applicantPwd || req.spousePwd then C
      else A
    else if req.dependants > 0 then (if req.applicantPwd then D else B)
    else (if req.applicantPwd then C else A)
  }

  function AssetLimitCategory(req: Request): Category {
    if req.applicantPwd && req.spousePwd then CatD
    else if req.applicantPwd || req.spousePwd then CatC
    else if req.relationship == COUPLE || req.dependants > 0 then CatB
    else CatA
  }

  function Column(row: RateRow, t: Type): real {
    match t
    case A => row.a
    case B => row.b
    case C => row.c
    case D => row.d
    case E => row.e
  }

  function Capped(familySize: int): int {
    if familySize < MAX_RATE_TABLE_FAMILY_SIZE then familySize else MAX_RATE_TABLE_FAMILY_SIZE
  }

  // None stands for the KeyError of a missing row.
  function IncomeLimit(tables: Tables, t: Type, familySize: int): Option<real> {
    if Capped(familySize) in tables.rates then Some(Column(tables.rates[Capped(familySize)], t)) else None
  }

  function Calculate(tables: Tables, req: Request): Option<Estimate> {
    var clientType := ClassifyClientType(req);
    var category := AssetLimitCategory(req);
    if category !in tables.limits then None
    else if TotalAssets(req) > tables.limits[category] then
      Some(Estimate(false, 0.0, Some(AssetsExceedLimit), clientType))
    else
      match IncomeLimit(tables, clientType, FamilySize(req))
      case None => None
      case Some(limit) =>
        var benefit := limit - TotalIncome(req);
        if benefit <= 0.0 then Some(Estimate(false, 0.0, Some(IncomeExceedsLimit), clientType))
        else Some(Estimate(true, benefit, None, clientType))
  }

  /* ---------- Conditions on the tables ---------- */

  predicate Complete(tables: Tables) {
    && (forall n :: 1 <= n <= MAX_RATE_TABLE_FAMILY_SIZE ==> n in tables.rates)
    && CatA in tables.limits && CatB in tables.limits && CatC in tables.limits && CatD in tables.limits
  }

  predicate Below(row: RateRow, next: RateRow) {
    row.a <= next.a && row.b <= next.b && row.c <= next.c && row.d <= next.d && row.e <= next.e
  }

  // One more member, or one more designation, never lowers a limit that applies to somebody.
  // Columns B and D start at size 2 and column E at size 2: no smaller family has those types.
  predicate Ordered(tables: Tables)
    requires Complete(tables)
  {
    var r := tables.rates;
    && r[1].a <= r[2].b && r[1].c <= r[2].d && r[1].a <= r[1].c
    && (forall n :: 2 <= n < MAX_RATE_TABLE_FAMILY_SIZE ==> Below(r[n], r[n + 1]))
    && (forall n :: 2 <= n <= MAX_RATE_TABLE_FAMILY_SIZE ==> r[n].b <= r[n].d && r[n].a <= r[n].c <= r[n].e)
    && tables.limits[CatA] <= tables.limits[CatB] <= tables.limits[CatC] <= tables.limits[CatD]
  }

  // The estimate when the lookup succeeds.
  function Amount(tables: Tables, req: Request): real {
    match Calculate(tables, req)
    case Some(estimate) => estimate.amount
    case None => 0.0
  }

  /* ---------- The estimate in the request's own fields ---------- */

  // The reasons for which a request is turned away.
  lemma RejectedIff(req: Request)
    ensures !ValidRequest(req)
            <==> || req.dependants < 0 || req.dependants > 20 || req.income < 0.0 || req.spouseIncome < 0.0
                 || req.primaryVehicle < 0.0 || req.otherVehicle < 0.0 || req.otherAssets < 0.0
                 || (req.relationship == SINGLE && (req.spousePwd || req.spouseIncome > 0.0))
  {}

  // The row looked up has the number of adults and dependants, but at most 7; the column and
  // the asset category go by couple, dependants and designations.
  lemma {:induction false} EstimateLaw(tables: Tables, req: Request)
    ensures var couple := req.relationship == COUPLE;
            var size := (if couple then 2 else 1) + req.dependants;
            var n := if size > 7 then 7 else size;
            var category := if req.applicantPwd && req.spousePwd then CatD
                            else if req.applicantPwd || req.spousePwd then CatC
                            else if couple || req.dependants > 0 then CatB else CatA;
            var assets, estimate := req.primaryVehicle + req.otherVehicle + req.otherAssets, Calculate(tables, req);
            && (category !in tables.limits ==> estimate.None?)
            && (category in tables.limits && assets > tables.limits[category] ==>
                  estimate.Some? && estimate.value.amount == 0.0 && estimate.value.reason == Some(AssetsExceedLimit))
            && (category in tables.limits && assets <= tables.limits[category] && n !in tables.rates ==> estimate.None?)
            && (category in tables.limits && assets <= tables.limits[category] && n in tables.rates ==>
                  var row := tables.rates[n];
                  var limit := if couple && req.applicantPwd && req.spousePwd then row.e
                               else if couple && (req.applicantPwd || req.spousePwd) then row.c
                               else if couple then row.a
                               else if req.dependants > 0 && req.applicantPwd then row.d
                               else if req.dependants > 0 then row.b
                               else if req.applicantPwd then row.c
                               else row.a;
                  && estimate.Some?
                  && (estimate.value.eligible <==> req.income + req.spouseIncome < limit)
                  && (estimate.value.eligible ==> estimate.value.amount == limit - req.income - req.spouseIncome)
                  && (!estimate.value.eligible ==>
                        estimate.value.amount == 0.0 && estimate.value.reason == Some(IncomeExceedsLimit)))
  {
    assert FamilySize(req) == (if req.relationship == COUPLE then 2 else 1) + req.dependants;
  }

  // Each of the two incomes counts in full: an amount that stays eligible falls by exactly the
  // rise, and one that does not was no more than the rise.
  lemma {:induction false} EachIncomeCounts(tables: Tables, req: Request, richer: Request, x: real)
    requires Complete(tables) && ValidRequest(req) && ValidRequest(richer) && x >= 0.0
    requires richer in [req.(income := req.income + x), req.(spouseIncome := req.spouseIncome + x)]
    ensures Amount(tables, richer) == if Amount(tables, req) > x then Amount(tables, req) - x else 0.0
  {
    LookupNeverMisses(tables, req);
    LookupNeverMisses(tables, richer);
  }

  // So does each of the three assets, but only at the limit.
  lemma {:induction false} EachAssetCounts(tables: Tables, req: Request, richer: Request, x: real)
    requires Complete(tables) && ValidRequest(req) && x >= 0.0
    requires richer in [req.(primaryVehicle := req.primaryVehicle + x), req.(otherVehicle := req.otherVehicle + x),
                        req.(otherAssets := req.otherAssets + x)]
    ensures var assets := req.primaryVehicle + req.otherVehicle + req.otherAssets + x;
            Calculate(tables, richer) ==
              if assets > tables.limits[AssetLimitCategory(req)]
              then Some(Estimate(false, 0.0, Some(AssetsExceedLimit), ClassifyClientType(req)))
              else Calculate(tables, req)
  {
    LookupNeverMisses(tables, req);
  }

  /* ---------- Theorems ---------- */

  // No valid request meets a missing row; the amount is never negative, and positive exactly
  // for the eligible, who are told no reason.
  lemma {:induction false} LookupNeverMisses(tables: Tables, req: Request)
    requires Complete(tables) && ValidRequest(req)
    ensures Calculate(tables, req).Some?
    ensures var estimate := Calculate(tables, req).value;
            && estimate.amount >= 0.0
            && (estimate.eligible <==> estimate.amount > 0.0)
            && (estimate.eligible <==> estimate.reason.None?)
            && (estimate.reason == Some(AssetsExceedLimit)
                <==> TotalAssets(req) > tables.limits[AssetLimitCategory(req)])
            && estimate.clientType == ClassifyClientType(req)
            && var limit := Column(tables.rates[Capped(FamilySize(req))], estimate.clientType);
               estimate.eligible ==> estimate.amount + req.income + req.spouseIncome == limit
  {
    assert 1 <= Capped(FamilySize(req)) <= MAX_RATE_TABLE_FAMILY_SIZE;
  }

  function Designations(req: Request): int {
    (if req.applicantPwd then 1 else 0) + if req.spousePwd then 1 else 0
  }

  // The type follows from the kind of household and the number of PWD designations in it, the
  // asset category from that number and, without one, from whether the applicant is alone.
  lemma {:induction false} HouseholdDecides(req: Request)
    requires ValidRequest(req)
    ensures var n, t := Designations(req), ClassifyClientType(req);
            if req.relationship == SINGLE && FamilySize(req) > 1 then t == [B, D][n]
            else t == [A, C, E][n]
    ensures AssetLimitCategory(req) ==
            if Designations(req) > 0 then [CatC, CatD][Designations(req) - 1]
            else if FamilySize(req) > 1 then CatB else CatA
  {
    assert Designations(req) in {0, 1, 2};
  }

  predicate SameHousehold(req: Request, other: Request) {
    && req.relationship == other.relationship && req.dependants == other.dependants
    && req.applicantPwd == other.applicantPwd && req.spousePwd == other.spousePwd
  }

  // More income never raises the amount, and lowers it by no more than the extra income.
  lemma {:induction false} IncomeLipschitz(tables: Tables, req: Request, richer: Request)
    requires Complete(tables) && ValidRequest(req) && ValidRequest(richer) && SameHousehold(req, richer)
    requires TotalAssets(req) == TotalAssets(richer) && TotalIncome(req) <= TotalIncome(richer)
    ensures Amount(tables, richer) <= Amount(tables, req)
    ensures Amount(tables, req) - Amount(tables, richer) <= TotalIncome(richer) - TotalIncome(req)
  {
    LookupNeverMisses(tables, req);
  }

  // The same kind of household with no fewer dependants, no fewer designations, no more
  // income and no more assets.
  predicate NoBetterOff(other: Request, req: Request) {
    && req.relationship == other.relationship && req.dependants <= other.dependants
    && (req.applicantPwd ==> other.applicantPwd) && (req.spousePwd ==> other.spousePwd)
    && TotalIncome(other) <= TotalIncome(req) && TotalAssets(other) <= TotalAssets(req)
  }

  // In particular: more assets never raise the amount, and neither a dependant nor a PWD
  // designation ever lowers it.
  ghost predicate Fair(tables: Tables) {
    forall req, other :: ValidRequest(req) && ValidRequest(other) && NoBetterOff(other, req)
                         ==> Amount(tables, req) <= Amount(tables, other)
  }

  function LimitFor(tables: Tables, req: Request): real
    requires Complete(tables) && ValidRequest(req)
  {
    var n := Capped(FamilySize(req));
    assert 1 <= n <= MAX_RATE_TABLE_FAMILY_SIZE;
    Column(tables.rates[n], ClassifyClientType(req))
  }

  lemma {:induction false} DependantsRaiseLimit(tables: Tables, req: Request, more: int)
    requires Complete(tables) && Ordered(tables) && ValidRequest(req) && req.dependants <= more <= 20
    ensures LimitFor(tables, req) <= LimitFor(tables, req.(dependants := more))
    decreases more
  {
    if req.dependants < more {
      DependantsRaiseLimit(tables, req, more - 1);
      var fewer, last := req.(dependants := more - 1), req.(dependants := more);
      var n := FamilySize(fewer);
      assert FamilySize(last) == n + 1;
      if 2 <= n < MAX_RATE_TABLE_FAMILY_SIZE {
        assert Below(tables.rates[n], tables.rates[n + 1]);
      }
    }
  }

  lemma {:induction false} DesignationsRaiseLimit(tables: Tables, req: Request, other: Request)
    requires Complete(tables) && Ordered(tables) && ValidRequest(req) && ValidRequest(other)
    requires NoBetterOff(other, req) && req.dependants == other.dependants
    ensures LimitFor(tables, req) <= LimitFor(tables, other)
  {
    var n := Capped(FamilySize(req));
    assert n >= 2 ==> tables.rates[n].b <= tables.rates[n].d;
  }

  lemma {:induction false} OrderedIsFair(tables: Tables)
    requires Complete(tables) && Ordered(tables)
    ensures Fair(tables)
  {
    forall req, other | ValidRequest(req) && ValidRequest(other) && NoBetterOff(other, req)
      ensures Amount(tables, req) <= Amount(tables, other)
    {
      DependantsRaiseLimit(tables, req, other.dependants);
      DesignationsRaiseLimit(tables, req.(dependants := other.dependants), other);
      LookupNeverMisses(tables, req);
      LookupNeverMisses(tables, other);
    }
  }

  // Every entry that some household is looked up under is positive.
  predicate Positive(tables: Tables)
    requires Complete(tables)
  {
    var r := tables.rates;
    && r[1].a > 0.0 && r[1].c > 0.0
    && (forall n :: 2 <= n <= MAX_RATE_TABLE_FAMILY_SIZE ==>
          r[n].a > 0.0 && r[n].b > 0.0 && r[n].c > 0.0 && r[n].d > 0.0 && r[n].e > 0.0)
    && tables.limits[CatA] >= 0.0 && tables.limits[CatB] >= 0.0
    && tables.limits[CatC] >= 0.0 && tables.limits[CatD] >= 0.0
  }

  // A household without income, with n members and the given assets and designations.
  function Household(r: Relationship, n: int, applicantPwd: bool, spousePwd: bool, assets: real): Request {
    Request(r, n - (if r == COUPLE then 2 else 1), applicantPwd, spousePwd, 0.0, 0.0, 0.0, 0.0, assets)
  }

  // The estimate in terms of the two limits that apply.
  lemma {:induction false} AmountFromLimits(tables: Tables, req: Request)
    requires Complete(tables) && ValidRequest(req)
    ensures Amount(tables, req) ==
            if TotalAssets(req) > tables.limits[AssetLimitCategory(req)] || LimitFor(tables, req) <= TotalIncome(req)
            then 0.0 else LimitFor(tables, req) - TotalIncome(req)
  {
    LookupNeverMisses(tables, req);
  }

  lemma {:induction false} LimitPositive(tables: Tables, req: Request)
    requires Complete(tables) && Positive(tables) && ValidRequest(req)
    ensures LimitFor(tables, req) > 0.0 && tables.limits[AssetLimitCategory(req)] >= 0.0
  {
    var n := Capped(FamilySize(req));
    assert n == 1 || 2 <= n <= MAX_RATE_TABLE_FAMILY_SIZE;
  }

  lemma {:induction false} FairRates(tables: Tables, req: Request, other: Request)
    requires Complete(tables) && Positive(tables) && Fair(tables)
    requires ValidRequest(req) && ValidRequest(other) && NoBetterOff(other, req)
    requires TotalIncome(req) == 0.0 && TotalAssets(req) == 0.0
    ensures LimitFor(tables, req) <= LimitFor(tables, other)
  {
    assert Amount(tables, req) <= Amount(tables, other);
    hide Fair, Positive, Amount, LimitFor, AssetLimitCategory, ClassifyClientType;
    AmountFromLimits(tables, req);
    AmountFromLimits(tables, other);
    LimitPositive(tables, req);
    LimitPositive(tables, other);
  }

  lemma {:induction false} FairLimits(tables: Tables, req: Request, other: Request)
    requires Complete(tables) && Positive(tables) && Fair(tables)
    requires ValidRequest(req) && ValidRequest(other) && NoBetterOff(other, req)
    requires TotalIncome(req) == 0.0 && TotalAssets(req) == TotalAssets(other)
    requires TotalAssets(req) == tables.limits[AssetLimitCategory(req)]
    ensures tables.limits[AssetLimitCategory(req)] <= tables.limits[AssetLimitCategory(other)]
  {
    assert Amount(tables, req) <= Amount(tables, other);
    hide Fair, Positive, Amount, LimitFor, AssetLimitCategory, ClassifyClientType;
    AmountFromLimits(tables, req);
    AmountFromLimits(tables, other);
    LimitPositive(tables, req);
    LimitPositive(tables, other);
  }

  function TypeOf(r: Relationship, n: int, applicantPwd: bool, spousePwd: bool): Type {
    ClassifyClientType(Household(r, n, applicantPwd, spousePwd, 0.0))
  }

  // Fairness between two households without income or assets, read off the rate table.
  lemma {:induction false} FairStep(tables: Tables, r: Relationship, n: int, a: bool, s: bool, m: int, b: bool, t: bool)
    requires Complete(tables) && Positive(tables) && Fair(tables)
    requires (if r == COUPLE then 2 else 1) <= n <= m <= MAX_RATE_TABLE_FAMILY_SIZE
    requires (a ==> b) && (s ==> t) && (t ==> r == COUPLE)
    ensures Column(tables.rates[n], TypeOf(r, n, a, s)) <= Column(tables.rates[m], TypeOf(r, m, b, t))
  {
    var req, other := Household(r, n, a, s, 0.0), Household(r, m, b, t, 0.0);
    assert FamilySize(req) == n && FamilySize(other) == m;
    FairRates(tables, req, other);
  }

  lemma {:induction false} FairColumns(tables: Tables, n: int)
    requires Complete(tables) && Positive(tables) && Fair(tables)
    requires 2 <= n <= MAX_RATE_TABLE_FAMILY_SIZE
    ensures var r := tables.rates[n]; r.b <= r.d && r.a <= r.c <= r.e
    ensures n < MAX_RATE_TABLE_FAMILY_SIZE ==> Below(tables.rates[n], tables.rates[n + 1])
  {
    hide Fair, Positive;
    FairStep(tables, SINGLE, n, false, false, n, true, false);
    FairStep(tables, COUPLE, n, false, false, n, true, false);
    FairStep(tables, COUPLE, n, true, false, n, true, true);
    if n < MAX_RATE_TABLE_FAMILY_SIZE {
      FairStep(tables, COUPLE, n, false, false, n + 1, false, false);
      FairStep(tables, SINGLE, n, false, false, n + 1, false, false);
      FairStep(tables, COUPLE, n, true, false, n + 1, true, false);
      FairStep(tables, SINGLE, n, true, false, n + 1, true, false);
      FairStep(tables, COUPLE, n, true, true, n + 1, true, true);
    }
  }

  lemma {:induction false} FairCategories(tables: Tables)
    requires Complete(tables) && Positive(tables) && Fair(tables)
    ensures tables.limits[CatA] <= tables.limits[CatB] <= tables.limits[CatC] <= tables.limits[CatD]
  {
    assert tables.limits[CatA] >= 0.0 && tables.limits[CatB] >= 0.0 && tables.limits[CatC] >= 0.0;
    hide Fair, Positive;
    var a, b, c := tables.limits[CatA], tables.limits[CatB], tables.limits[CatC];
    FairLimits(tables, Household(SINGLE, 1, false, false, a), Household(SINGLE, 2, false, false, a));
    FairLimits(tables, Household(COUPLE, 2, false, false, b), Household(COUPLE, 2, true, false, b));
    FairLimits(tables, Household(COUPLE, 2, true, false, c), Household(COUPLE, 2, true, true, c));
  }

  lemma {:induction false} FairIsOrdered(tables: Tables)
    requires Complete(tables) && Positive(tables) && Fair(tables)
    ensures Ordered(tables)
  {
    hide Fair, Positive;
    FairStep(tables, SINGLE, 1, false, false, 2, false, false);
    FairStep(tables, SINGLE, 1, true, false, 2, true, false);
    FairStep(tables, SINGLE, 1, false, false, 1, true, false);
    forall n | 2 <= n <= MAX_RATE_TABLE_FAMILY_SIZE
      ensures tables.rates[n].b <= tables.rates[n].d && tables.rates[n].a <= tables.rates[n].c <= tables.rates[n].e
      ensures n < MAX_RATE_TABLE_FAMILY_SIZE ==> Below(tables.rates[n], tables.rates[n + 1])
    {
      FairColumns(tables, n);
    }
    FairCategories(tables);
  }

  // For tables without empty entries, the order conditions are exactly what fairness needs.
  lemma {:induction false} FairIffOrdered(tables: Tables)
    requires Complete(tables) && Positive(tables)
    ensures Fair(tables) <==> Ordered(tables)
  {
    if Fair(tables) {
      FairIsOrdered(tables);
    }
    if Ordered(tables) {
      OrderedIsFair(tables);
    }
  }

  /* ---------- The fallback tables ---------- */

  const FALLBACK_INCOME_RATES := [
    RateRow(1, 1060.0, 0.0, 1535.5, 0.0, 0.0),
    RateRow(2, 1650.0, 1405.0, 2125.5, 1880.5, 2652.5),
    RateRow(3, 1845.0, 1500.0, 2320.5, 1975.5, 2847.5),
    RateRow(4, 1895.0, 1550.0, 2370.5, 2025.5, 2897.5),
    RateRow(5, 1945.0, 1600.0, 2420.5, 2075.5, 2947.5),
    RateRow(6, 1995.0, 1650.0, 2470.5, 2125.5, 2997.5),
    RateRow(7, 2045.0, 1700.0, 2520.5, 2175.5, 3047.5)]

  const FALLBACK_ASSET_LIMITS := [
    AssetLimitRow(CatA, 5000.0), AssetLimitRow(CatB, 10000.0),
    AssetLimitRow(CatC, 100000.0), AssetLimitRow(CatD, 200000.0)]

  lemma {:induction false} IndexedByFamilySize(rows: seq<RateRow>, i: nat)
    requires i < |rows|
    requires forall j :: i < j < |rows| ==> rows[j].familySize != rows[i].familySize
    ensures rows[i].familySize in IndexRates(rows) && IndexRates(rows)[rows[i].familySize] == rows[i]
  {
    if i < |rows| - 1 {
      IndexedByFamilySize(Front(rows), i);
    }
  }

  lemma {:induction false} IndexedByCategory(rows: seq<AssetLimitRow>, i: nat)
    requires i < |rows|
    requires forall j :: i < j < |rows| ==> rows[j].category != rows[i].category
    ensures rows[i].category in IndexLimits(rows) && IndexLimits(rows)[rows[i].category] == rows[i].limit
  {
    if i < |rows| - 1 {
      IndexedByCategory(Front(rows), i);
    }
  }

  lemma {:induction false} OnlyIndexed(rows: seq<RateRow>, limits: seq<AssetLimitRow>)
    ensures forall n :: n in IndexRates(rows) ==> exists i :: 0 <= i < |rows| && rows[i].familySize == n
    ensures forall c :: c in IndexLimits(limits) ==> exists i :: 0 <= i < |limits| && limits[i].category == c
    decreases |rows| + |limits|
  {
    if rows != [] {
      OnlyIndexed(Front(rows), limits);
      assert rows[|rows| - 1] == Last(rows);
      assert forall i :: 0 <= i < |Front(rows)| ==> Front(rows)[i] == rows[i];
    } else if limits != [] {
      OnlyIndexed(rows, Front(limits));
      assert limits[|limits| - 1] == Last(limits);
      assert forall i :: 0 <= i < |Front(limits)| ==> Front(limits)[i] == limits[i];
    }
  }

  lemma {:induction false} FallbackRates(rows: seq<RateRow>, n: int)
    requires rows == FALLBACK_INCOME_RATES && 1 <= n <= 7
    ensures n in IndexRates(rows) && IndexRates(rows)[n] == rows[n - 1]
  {
    IndexedByFamilySize(rows, n - 1);
  }

  lemma {:induction false} FallbackLimits(limits: seq<AssetLimitRow>)
    requires limits == FALLBACK_ASSET_LIMITS
    ensures var m := IndexLimits(limits);
            && CatA in m && CatB in m && CatC in m && CatD in m
            && m[CatA] == 5000.0 && m[CatB] == 10000.0 && m[CatC] == 100000.0 && m[CatD] == 200000.0
  {
    IndexedByCategory(limits, 0);
    IndexedByCategory(limits, 1);
    IndexedByCategory(limits, 2);
    IndexedByCategory(limits, 3);
  }

  // The fallback tables meet the conditions, so the estimator is fair with them.
  lemma {:induction false} FallbackIsOrdered(tables: Tables)
    requires tables == Tables(IndexRates(FALLBACK_INCOME_RATES), IndexLimits(FALLBACK_ASSET_LIMITS))
    ensures Complete(tables) && Ordered(tables) && Fair(tables)
  {
    var rows := FALLBACK_INCOME_RATES;
    FallbackLimits(FALLBACK_ASSET_LIMITS);
    forall n | 1 <= n <= 7
      ensures n in tables.rates && tables.rates[n] == rows[n - 1]
    {
      FallbackRates(rows, n);
    }
    OrderedRows(tables, rows);
    OrderedIsFair(tables);
  }

  // What the fallback tables are worth.  A first designation adds 475.50 for every household
  // and a second one 527.00; each member beyond the third, up to the seventh, adds 50.00.
  lemma {:induction false} FallbackWorth(tables: Tables, req: Request)
    requires tables == Tables(IndexRates(FALLBACK_INCOME_RATES), IndexLimits(FALLBACK_ASSET_LIMITS))
    requires ValidRequest(req) && Complete(tables)
    ensures var couple := req.relationship == COUPLE;
            var n := (if couple then 2 else 1) + req.dependants;
            var base := if n == 1 then 1060.0
                        else if n == 2 then (if couple then 1650.0 else 1405.0)
                        else (if couple then 1845.0 else 1500.0) + 50.0 * (if n > 7 then 4 else n - 3) as real;
            LimitFor(tables, req) == base + if req.applicantPwd && req.spousePwd then 475.5 + 527.0
                                            else if req.applicantPwd || req.spousePwd then 475.5 else 0.0
    ensures var m := tables.limits;
            m[CatA] == 5000.0 && m[CatB] == 10000.0 && m[CatC] == 100000.0 && m[CatD] == 200000.0
  {
    FallbackLimits(FALLBACK_ASSET_LIMITS);
    FallbackRates(FALLBACK_INCOME_RATES, Capped(FamilySize(req)));
    assert 1 <= Capped(FamilySize(req)) <= 7;
  }

  lemma {:induction false} OrderedRows(tables: Tables, rows: seq<RateRow>)
    requires Complete(tables) && rows == FALLBACK_INCOME_RATES
    requires forall n :: 1 <= n <= 7 ==> tables.rates[n] == rows[n - 1]
    requires tables.limits[CatA] <= tables.limits[CatB] <= tables.limits[CatC] <= tables.limits[CatD]
    ensures Ordered(tables)
  {
    forall n | 1 <= n <= 7
      ensures n >= 2 ==> tables.rates[n].b <= tables.rates[n].d
      ensures n >= 2 ==> tables.rates[n].a <= tables.rates[n].c <= tables.rates[n].e
      ensures 2 <= n < 7 ==> Below(tables.rates[n], tables.rates[n + 1])
    {
      FallbackRowsGrow(rows, n);
    }
    FallbackFirstRow(rows);
  }

  lemma {:induction false} FallbackFirstRow(rows: seq<RateRow>)
    requires rows == FALLBACK_INCOME_RATES
    ensures rows[0].a <= rows[1].b && rows[0].c <= rows[1].d && rows[0].a <= rows[0].c
  {}

  lemma {:induction false} FallbackRowsGrow(rows: seq<RateRow>, n: int)
    requires rows == FALLBACK_INCOME_RATES && 1 <= n <= 7
    ensures n >= 2 ==> rows[n - 1].b <= rows[n - 1].d && rows[n - 1].a <= rows[n - 1].c <= rows[n - 1].e
    ensures 2 <= n < 7 ==> Below(rows[n - 1], rows[n])
  {
    assert n == 1 || n == 2 || n == 3 || n == 4 || n == 5 || n == 6 || n == 7;
  }
}
