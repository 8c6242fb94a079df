/** Leverage tiers by notional, and the margin they require. */
module MarginTable {
  import opened Common
  import opened Arithmetic

  datatype Tier = Tier(lowerBound: u64, maxLeverage: u32)

  datatype MetaError =
    | EmptyMarginTable
    | InvalidLeverage
    | UnsortedMarginTable
    | NegativeMarginInput
    | NotionalOverflow
    | MissingMarginTable(selector: u32)

  const BUILTIN_CUTOFF: u32 := 50

  // ----- validation

  /** What is wrong with tier `i` given the tier before it. */
  function TierFault(tiers: seq<Tier>, i: nat): Option<MetaError>
    requires i < |tiers|
  {
    if tiers[i].maxLeverage == 0 then Some(InvalidLeverage)
    else if i > 0 && tiers[i].lowerBound <= tiers[i - 1].lowerBound then Some(UnsortedMarginTable)
    else None
  }

  ghost predicate ValidTiers(tiers: seq<Tier>) {
    && tiers != []
    && (forall i :: 0 <= i < |tiers| ==> tiers[i].maxLeverage >= 1)
    && (forall i, j :: 0 <= i < j < |tiers| ==> tiers[i].lowerBound < tiers[j].lowerBound)
  }

  /** Accepts exactly the nonempty tables with positive leverages and strictly rising bounds,
      and otherwise reports the first fault in scan order. */
  method Validate(tiers: seq<Tier>) returns (r: Option<MetaError>)
    ensures r.None? <==> ValidTiers(tiers)
    ensures tiers == [] ==> r == Some(EmptyMarginTable)
    ensures r.Some? && tiers != [] ==>
              exists i :: 0 <= i < |tiers| && TierFault(tiers, i) == r && ValidPrefix(tiers, i)
  {
    if tiers == [] { return Some(EmptyMarginTable); }
    var last: Option<u64> := None;
    for i := 0 to |tiers|
      invariant ValidPrefix(tiers, i)
      invariant last == if i == 0 then None else Some(tiers[i - 1].lowerBound)
    {
      if tiers[i].maxLeverage == 0 {
        assert TierFault(tiers, i) == Some(InvalidLeverage);
        return Some(InvalidLeverage);
      }
      if last.Some? && tiers[i].lowerBound <= last.value {
        assert TierFault(tiers, i) == Some(UnsortedMarginTable);
        return Some(UnsortedMarginTable);
      }
      last := Some(tiers[i].lowerBound);
    }
    r := None;
  }

  ghost predicate ValidPrefix(tiers: seq<Tier>, n: nat)
    requires n <= |tiers|
  {
    && (forall i :: 0 <= i < n ==> tiers[i].maxLeverage >= 1)
    && (forall i, j :: 0 <= i < j < n ==> tiers[i].lowerBound < tiers[j].lowerBound)
  }

  // ----- selection

  /** The last tier whose bound does not exceed the notional, or the first tier. */
  ghost predicate Selects(tiers: seq<Tier>, notional: u64, k: nat) {
    && k < |tiers|
    && (k > 0 ==> tiers[k].lowerBound <= notional)
    && (forall i :: k < i < |tiers| ==> tiers[i].lowerBound > notional)
  }

  /** Scan position: stops at the first bound above the notional. */
  function TierIndex(tiers: seq<Tier>, notional: u64, from: nat): nat
    requires from < |tiers|
    decreases |tiers| - from
  {
    if from + 1 < |tiers| && tiers[from + 1].lowerBound <= notional then TierIndex(tiers, notional, from + 1) else from
  }

  function SelectedIndex(tiers: seq<Tier>, notional: u64): (k: nat)
    requires tiers != []
    ensures k < |tiers|
  {
    TierIndexFits(tiers, notional, 0);
    if tiers[0].lowerBound > notional then 0 else TierIndex(tiers, notional, 0)
  }

  function TierFor(tiers: seq<Tier>, notional: u64): Tier
    requires tiers != []
  {
    tiers[SelectedIndex(tiers, notional)]
  }

  lemma {:induction false} TierIndexFits(tiers: seq<Tier>, notional: u64, from: nat)
    requires from < |tiers|
    ensures from <= TierIndex(tiers, notional, from) < |tiers|
    decreases |tiers| - from
  {
    if from + 1 < |tiers| && tiers[from + 1].lowerBound <= notional { TierIndexFits(tiers, notional, from + 1); }
  }

  method TierForNotional(tiers: seq<Tier>, notional: u64) returns (selected: Tier)
    requires tiers != []
    ensures selected == TierFor(tiers, notional)
  {
    selected := tiers[0];
    var i := 0;
    while i < |tiers| && tiers[i].lowerBound <= notional
      invariant 0 <= i <= |tiers|
      invariant i == 0 ==> selected == tiers[0]
      invariant i > 0 ==> selected == tiers[i - 1] && tiers[0].lowerBound <= notional
      invariant i > 0 ==> TierIndex(tiers, notional, 0) == TierIndex(tiers, notional, i - 1)
    {
      selected := tiers[i];
      i := i + 1;
    }
  }

  /** On every valid table the scan finds the last tier not above the notional. */
  lemma SelectionExact(tiers: seq<Tier>, notional: u64)
    requires ValidTiers(tiers)
    ensures Selects(tiers, notional, SelectedIndex(tiers, notional))
  {
    if tiers[0].lowerBound <= notional { IndexSelects(tiers, notional, 0); }
  }

  lemma {:induction false} IndexSelects(tiers: seq<Tier>, notional: u64, from: nat)
    requires ValidTiers(tiers) && from < |tiers| && tiers[from].lowerBound <= notional
    ensures Selects(tiers, notional, TierIndex(tiers, notional, from))
    decreases |tiers| - from
  {
    if from + 1 < |tiers| && tiers[from + 1].lowerBound <= notional { IndexSelects(tiers, notional, from + 1); }
  }

  lemma SelectionUnique(tiers: seq<Tier>, notional: u64, j: nat, k: nat)
    requires Selects(tiers, notional, j) && Selects(tiers, notional, k)
    ensures j == k
  {
  }

  // ----- margin

  function TableMargin(tiers: seq<Tier>, notional: u64): nat
    requires ValidTiers(tiers)
  {
    QuotientBound(notional, TierFor(tiers, notional).maxLeverage);
    notional / TierFor(tiers, notional).maxLeverage
  }

  /** At each boundary the margin just below does not exceed the margin at it. */
  ghost predicate NoDrop(tiers: seq<Tier>)
    requires ValidTiers(tiers)
  {
    forall i :: 0 < i < |tiers| ==>
      (tiers[i].lowerBound - 1) / tiers[i - 1].maxLeverage <= tiers[i].lowerBound / tiers[i].maxLeverage
  }

  ghost predicate MarginMonotone(tiers: seq<Tier>)
    requires ValidTiers(tiers)
  {
    forall a: u64, b: u64 :: a <= b ==> TableMargin(tiers, a) <= TableMargin(tiers, b)
  }

  lemma {:induction false} ClimbTiers(tiers: seq<Tier>, a: u64, b: u64, j: nat, k: nat)
    requires ValidTiers(tiers) && NoDrop(tiers) && a <= b && j <= k
    requires Selects(tiers, a, j) && Selects(tiers, b, k)
    ensures a / tiers[j].maxLeverage <= b / tiers[k].maxLeverage
    decreases k - j
  {
    if j == k {
      QuotientMono(a, b, tiers[j].maxLeverage);
    } else {
      var edge := tiers[j + 1].lowerBound;
      assert tiers[j].lowerBound < edge && (j + 1 < k ==> edge < tiers[k].lowerBound);
      assert a <= edge - 1 && edge <= b;
      QuotientMono(a, edge - 1, tiers[j].maxLeverage);
      assert Selects(tiers, edge, j + 1);
      ClimbTiers(tiers, edge, b, j + 1, k);
    }
  }

  /** Margin rises with notional exactly when it does not drop at any tier boundary. */
  lemma MonotoneIff(tiers: seq<Tier>)
    requires ValidTiers(tiers)
    ensures MarginMonotone(tiers) <==> NoDrop(tiers)
  {
    if NoDrop(tiers) {
      hide NoDrop, ValidTiers, SelectedIndex;
      forall a: u64, b: u64 | a <= b ensures TableMargin(tiers, a) <= TableMargin(tiers, b) {
        SelectionExact(tiers, a);
        SelectionExact(tiers, b);
        ClimbTiers(tiers, a, b, SelectedIndex(tiers, a), SelectedIndex(tiers, b));
      }
    }
    if MarginMonotone(tiers) {
      forall i | 0 < i < |tiers|
        ensures (tiers[i].lowerBound - 1) / tiers[i - 1].maxLeverage <= tiers[i].lowerBound / tiers[i].maxLeverage
      {
        EdgeMargins(tiers, i);
        hide TableMargin;
        assert TableMargin(tiers, tiers[i].lowerBound - 1) <= TableMargin(tiers, tiers[i].lowerBound);
      }
    }
  }

  /** Just below a bound the tier before it applies, at the bound its own. */
  lemma EdgeMargins(tiers: seq<Tier>, i: nat)
    requires ValidTiers(tiers) && 0 < i < |tiers|
    ensures tiers[i].lowerBound >= 1
    ensures TableMargin(tiers, tiers[i].lowerBound - 1) == (tiers[i].lowerBound - 1) / tiers[i - 1].maxLeverage
    ensures TableMargin(tiers, tiers[i].lowerBound) == tiers[i].lowerBound / tiers[i].maxLeverage
  {
    hide SelectedIndex;
    var edge := tiers[i].lowerBound;
    assert tiers[i - 1].lowerBound < edge;
    SelectionExact(tiers, edge - 1);
    SelectionUnique(tiers, edge - 1, SelectedIndex(tiers, edge - 1), i - 1);
    SelectionExact(tiers, edge);
    SelectionUnique(tiers, edge, SelectedIndex(tiers, edge), i);
  }

  /** Leverages that never rise from tier to tier are enough. */
  lemma FallingLeverageIsMonotone(tiers: seq<Tier>)
    requires ValidTiers(tiers) && forall i :: 0 < i < |tiers| ==> tiers[i].maxLeverage <= tiers[i - 1].maxLeverage
    ensures MarginMonotone(tiers)
  {
    forall i | 0 < i < |tiers|
      ensures (tiers[i].lowerBound - 1) / tiers[i - 1].maxLeverage <= tiers[i].lowerBound / tiers[i].maxLeverage
    {
      assert tiers[i - 1].lowerBound < tiers[i].lowerBound;
      QuotientMono(tiers[i].lowerBound - 1, tiers[i].lowerBound, tiers[i - 1].maxLeverage);
      QuotientAntitone(tiers[i].lowerBound, tiers[i].maxLeverage, tiers[i - 1].maxLeverage);
    }
    MonotoneIff(tiers);
  }

  /** A valid table whose leverage rises from 10 to 50 at 100: margin falls from 9 to 2. */
  lemma RisingLeverageCanDrop() returns (tiers: seq<Tier>)
    ensures ValidTiers(tiers) && !MarginMonotone(tiers)
  {
    tiers := [Tier(0, 10), Tier(100, 50)];
    assert (tiers[1].lowerBound - 1) / tiers[1 - 1].maxLeverage > tiers[1].lowerBound / tiers[1].maxLeverage;
    MonotoneIff(tiers);
  }

  // ----- requirement by mode

  type i64 = x: int | -0x8000_0000_0000_0000 <= x < 0x8000_0000_0000_0000

  datatype MarginMode = Cross | Isolated | InitialTable | MaintenanceTable | CappedLeverage

  datatype Input = Input(
    hasPosition: bool, existingMargin: i64, price: i64, absSize: i64, mode: MarginMode,
    maxLeverage: u32, tableId: Option<u32>, capLeverage: Option<u32>, positionDelta: i64)

  datatype Requirement = Requirement(
    active: bool, equityAfter: i64, requiredMargin: nat, notional: u64, previousMargin: i64, appliedLeverage: u32)

  function SatAddSigned(a: i64, b: i64): i64 {
    if a + b >= 0x8000_0000_0000_0000 then 0x7FFF_FFFF_FFFF_FFFF
    else if a + b < -0x8000_0000_0000_0000 then -0x8000_0000_0000_0000
    else a + b
  }

  function CheckedProductAbs(a: i64, b: i64): Result<u64, MetaError> {
    var p := a * b;
    if p >= 0x8000_0000_0000_0000 || p <= -0x8000_0000_0000_0000 then Err(NotionalOverflow)
    else Ok(if p < 0 then -p else p)
  }

  /** Small selectors stand for a single tier at the asset's own leverage. */
  function TableFor(tables: map<u32, seq<Tier>>, maxLeverage: u32, selector: u32): Result<seq<Tier>, MetaError> {
    if selector < BUILTIN_CUTOFF then
      if maxLeverage == 0 then Err(InvalidLeverage) else Ok([Tier(0, maxLeverage)])
    else if selector in tables then Ok(tables[selector])
    else Err(MissingMarginTable(selector))
  }

  function Selector(input: Input): u32 {
    if input.tableId.Some? then input.tableId.value else input.maxLeverage
  }

  function LeverageFor(tables: map<u32, seq<Tier>>, input: Input, notional: u64): Result<u32, MetaError>
    requires forall id :: id in tables ==> tables[id] != []
  {
    match input.mode
    case Cross => Ok(0)
    case Isolated => Ok(input.maxLeverage)
    case InitialTable => var t :- TableFor(tables, input.maxLeverage, Selector(input)); Ok(TierFor(t, notional).maxLeverage)
    case MaintenanceTable => var t :- TableFor(tables, input.maxLeverage, Selector(input)); Ok(TierFor(t, notional).maxLeverage)
    case CappedLeverage =>
      Ok(Min(input.maxLeverage, if input.capLeverage.Some? then input.capLeverage.value else input.maxLeverage))
  }

  function ComputeRequirement(tables: map<u32, seq<Tier>>, input: Input): Result<Requirement, MetaError>
    requires forall id :: id in tables ==> tables[id] != []
  {
    if input.price < 0 || input.absSize < 0 then Err(NegativeMarginInput)
    else
      var notional :- CheckedProductAbs(input.price, input.absSize);
      var leverage :- LeverageFor(tables, input, notional);
      var margin := if leverage == 0 then 0 else (QuotientBound(notional, leverage); notional / leverage);
      Ok(Requirement(input.hasPosition, SatAddSigned(input.existingMargin, input.positionDelta),
                     if input.hasPosition then margin else 0, notional, input.existingMargin, leverage))
  }

  /** Every stored table is valid and does not drop at a boundary. */
  ghost predicate SoundTables(tables: map<u32, seq<Tier>>) {
    forall id :: id in tables ==> ValidTiers(tables[id]) && NoDrop(tables[id])
  }

  /** In every mode, moving only price and size so that the notional does not fall never
      lowers the required margin, and cannot change which tables are found. */
  lemma RequirementMonotone(tables: map<u32, seq<Tier>>, a: Input, b: Input)
    requires SoundTables(tables)
    requires a.(price := b.price, absSize := b.absSize) == b
    requires ComputeRequirement(tables, a).Ok? && ComputeRequirement(tables, b).Ok?
    requires a.price * a.absSize <= b.price * b.absSize
    ensures ComputeRequirement(tables, a).value.requiredMargin <= ComputeRequirement(tables, b).value.requiredMargin
  {
    assert forall id :: id in tables ==> tables[id] != [];
    hide NoDrop, ValidTiers, TierFor, SatAddSigned, CheckedProductAbs, TableFor;
    ProductIs(a.price, a.absSize);
    ProductIs(b.price, b.absSize);
    var ra, rb := ComputeRequirement(tables, a).value, ComputeRequirement(tables, b).value;
    if a.mode == InitialTable || a.mode == MaintenanceTable {
      var t := TableFor(tables, a.maxLeverage, Selector(a)).value;
      FoundTableSound(tables, a.maxLeverage, Selector(a));
      MonotoneIff(t);
      MarginAt(t, ra.notional, rb.notional);
    } else if ra.appliedLeverage != 0 {
      QuotientMono(ra.notional, rb.notional, ra.appliedLeverage);
    }
  }

  lemma ProductIs(a: i64, b: i64)
    ensures a >= 0 && b >= 0 && CheckedProductAbs(a, b).Ok? ==> CheckedProductAbs(a, b).value == a * b
  {
  }

  lemma MarginAt(t: seq<Tier>, x: u64, y: u64)
    requires ValidTiers(t) && MarginMonotone(t) && x <= y
    ensures TierFor(t, x).maxLeverage >= 1 && TierFor(t, y).maxLeverage >= 1
    ensures x / TierFor(t, x).maxLeverage <= y / TierFor(t, y).maxLeverage
  {
    assert TableMargin(t, x) <= TableMargin(t, y);
  }

  lemma FoundTableSound(tables: map<u32, seq<Tier>>, maxLeverage: u32, selector: u32)
    requires SoundTables(tables) && TableFor(tables, maxLeverage, selector).Ok?
    ensures ValidTiers(TableFor(tables, maxLeverage, selector).value)
    ensures NoDrop(TableFor(tables, maxLeverage, selector).value)
  {
  }

  /** The table a mode looks up: a selector below 50, the asset's leverage standing in for a missing
      table id, means one tier at the asset's own leverage. */
  ghost predicate UsesTable(tables: map<u32, seq<Tier>>, a: Input, table: seq<Tier>) {
    var selector := if a.tableId == None then a.maxLeverage else a.tableId.value;
    if selector < 50 then a.maxLeverage != 0 && table == [Tier(0, a.maxLeverage)]
    else selector in tables && table == tables[selector]
  }

  /** `leverage` is the leverage the mode applies at this notional. */
  ghost predicate Applies(tables: map<u32, seq<Tier>>, a: Input, notional: u64, leverage: u32) {
    match a.mode
    case Cross => leverage == 0
    case Isolated => leverage == a.maxLeverage
    case CappedLeverage =>
      && leverage <= a.maxLeverage && (a.capLeverage.Some? ==> leverage <= a.capLeverage.value)
      && (leverage == a.maxLeverage || a.capLeverage == Some(leverage))
    case InitialTable => exists table: seq<Tier>, k: nat :: TierOf(tables, a, notional, table, k) && leverage == table[k].maxLeverage
    case MaintenanceTable => exists table: seq<Tier>, k: nat :: TierOf(tables, a, notional, table, k) && leverage == table[k].maxLeverage
  }

  ghost predicate TierOf(tables: map<u32, seq<Tier>>, a: Input, notional: u64, table: seq<Tier>, k: nat) {
    UsesTable(tables, a, table) && Selects(table, notional, k)
  }

  /** `r` is the notional over the leverage, rounded down; nothing at zero leverage or without a
      position. */
  ghost predicate Requires(a: Input, notional: u64, leverage: u32, r: nat) {
    if a.hasPosition && leverage != 0 then r * leverage <= notional < (r + 1) * leverage else r == 0
  }

  /** The equity after the change, held within the signed 64-bit range. */
  ghost predicate Clamped(exact: int, r: i64) {
    || r == exact
    || (exact > 0x7FFF_FFFF_FFFF_FFFF && r == 0x7FFF_FFFF_FFFF_FFFF)
    || (exact < -0x8000_0000_0000_0000 && r == -0x8000_0000_0000_0000)
  }

  ghost predicate TableMode(a: Input) { a.mode == InitialTable || a.mode == MaintenanceTable }

  /** Which inputs fail, and how: a negative price or size, then a notional of 2^63 or more, then a
      table that cannot be found. */
  lemma RequirementErrors(tables: map<u32, seq<Tier>>, a: Input)
    requires forall id :: id in tables ==> tables[id] != []
    ensures var r := ComputeRequirement(tables, a);
      var selector := if a.tableId == None then a.maxLeverage else a.tableId.value;
      && (r == Err(NegativeMarginInput) <==> a.price < 0 || a.absSize < 0)
      && (a.price >= 0 && a.absSize >= 0 ==>
            && (r == Err(NotionalOverflow) <==> a.price * a.absSize >= 0x8000_0000_0000_0000)
            && (a.price * a.absSize < 0x8000_0000_0000_0000 ==>
                  && (r == Err(InvalidLeverage) <==> TableMode(a) && selector < 50 && a.maxLeverage == 0)
                  && (r == Err(MissingMarginTable(selector)) <==> TableMode(a) && selector >= 50 && selector !in tables)
                  && (r.Ok? <==> TableMode(a) ==> exists table: seq<Tier> :: UsesTable(tables, a, table))))
  {
    hide SatAddSigned, TierFor;
    if TableMode(a) && TableFor(tables, a.maxLeverage, Selector(a)).Ok? {
      assert UsesTable(tables, a, TableFor(tables, a.maxLeverage, Selector(a)).value);
    }
  }

  /** What every successful requirement says, in every mode, over valid tables: the notional is
      price times size, the leverage is the mode's, in the table modes that of the tier the
      notional selects, and the margin is their quotient. */
  lemma RequirementExact(tables: map<u32, seq<Tier>>, a: Input)
    requires forall id :: id in tables ==> ValidTiers(tables[id])
    requires (forall id :: id in tables ==> tables[id] != []) && ComputeRequirement(tables, a).Ok?
    ensures var r := ComputeRequirement(tables, a).value;
      && r.notional == a.price * a.absSize
      && Applies(tables, a, r.notional, r.appliedLeverage)
      && Requires(a, r.notional, r.appliedLeverage, r.requiredMargin)
      && Clamped(a.existingMargin + a.positionDelta, r.equityAfter)
      && r.previousMargin == a.existingMargin && r.active == a.hasPosition
  {
    hide CheckedProductAbs, TierFor, ValidTiers, Selects;
    ProductIs(a.price, a.absSize);
    var r := ComputeRequirement(tables, a).value;
    if r.appliedLeverage != 0 { QuotientSpec(r.notional, r.appliedLeverage); }
    if TableMode(a) { TableApplies(tables, a, r.notional); }
  }

  lemma TableApplies(tables: map<u32, seq<Tier>>, a: Input, notional: u64)
    requires (forall id :: id in tables ==> ValidTiers(tables[id])) && TableMode(a)
    requires TableFor(tables, a.maxLeverage, Selector(a)).Ok?
    ensures var table := TableFor(tables, a.maxLeverage, Selector(a)).value;
      table != [] && Applies(tables, a, notional, TierFor(table, notional).maxLeverage)
  {
    var table := TableFor(tables, a.maxLeverage, Selector(a)).value;
    assert ValidTiers(table);
    var k := SelectedIndex(table, notional);
    SelectionExact(table, notional);
    assert TierOf(tables, a, notional, table, k);
  }

  /** The leverage of a mode is unique, so the above leaves no choice. */
  lemma AppliesUnique(tables: map<u32, seq<Tier>>, a: Input, notional: u64, x: u32, y: u32)
    requires forall id :: id in tables ==> ValidTiers(tables[id])
    requires Applies(tables, a, notional, x) && Applies(tables, a, notional, y)
    ensures x == y
  {
    if TableMode(a) {
      var t1: seq<Tier>, k1: nat :| TierOf(tables, a, notional, t1, k1) && x == t1[k1].maxLeverage;
      var t2: seq<Tier>, k2: nat :| TierOf(tables, a, notional, t2, k2) && y == t2[k2].maxLeverage;
      assert ValidTiers(t1);
      SelectionUnique(t1, notional, k1, k2);
    }
  }

  /** Capping leverage lowers the requirement of a held position exactly when the cap is zero and
      the isolated mode would have required something; otherwise it can only raise it, to what
      a positive cap alone would require at least. */
  lemma CapLowersMarginIff(tables: map<u32, seq<Tier>>, a: Input)
    requires forall id :: id in tables ==> tables[id] != []
    ensures var isolated := ComputeRequirement(tables, a.(mode := Isolated));
      var capped := ComputeRequirement(tables, a.(mode := CappedLeverage));
      && (capped.Ok? <==> isolated.Ok?)
      && (capped.Ok? ==>
            && (capped.value.requiredMargin < isolated.value.requiredMargin <==>
                  a.capLeverage == Some(0) && a.hasPosition && 1 <= a.maxLeverage <= a.price * a.absSize)
            && (a.hasPosition && a.maxLeverage >= 1 && a.capLeverage.Some? && a.capLeverage.value >= 1 ==>
                  capped.value.requiredMargin >= a.price * a.absSize / a.capLeverage.value))
  {
    hide CheckedProductAbs, SatAddSigned;
    ProductIs(a.price, a.absSize);
    var isolated := ComputeRequirement(tables, a.(mode := Isolated));
    if isolated.Ok? && a.maxLeverage >= 1 {
      var n := isolated.value.notional;
      if a.maxLeverage <= n { WholeDivision(n, a.maxLeverage); } else { SmallQuotient(n, a.maxLeverage); }
      if a.capLeverage.Some? && a.capLeverage.value >= 1 {
        QuotientAntitone(n, Min(a.maxLeverage, a.capLeverage.value), a.maxLeverage);
        QuotientAntitone(n, Min(a.maxLeverage, a.capLeverage.value), a.capLeverage.value);
      }
    }
  }

  /** A cap of zero requires nothing where the isolated mode requires 10. */
  lemma ZeroCapDropsMargin() returns (a: Input)
    ensures ComputeRequirement(map[], a.(mode := Isolated)).Ok?
    ensures ComputeRequirement(map[], a.(mode := Isolated)).value.requiredMargin == 10
    ensures ComputeRequirement(map[], a.(mode := CappedLeverage)).Ok?
    ensures ComputeRequirement(map[], a.(mode := CappedLeverage)).value.requiredMargin == 0
  {
    a := Input(true, 0, 10, 10, Isolated, 10, None, Some(0), 0);
  }
}
