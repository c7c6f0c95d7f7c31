/** The genesis token distribution: schedules, their builder, the stake check, and the CSV form at record level. Amounts
    are 64-bit; `checked` says whether the build traps arithmetic overflow or wraps around. */
module Genesis {
  import opened Options
  import opened Words

  type u64 = x: int | 0 <= x < U64_SIZE

  const TOTAL_SUPPLY_MIST: u64 := 10_000_000_000 * 1_000_000_000
  const LOW_STAKE_MIST: u64 := 20_000_000 * 1_000_000_000

  type Address = nat
  const DEFAULT_ADDRESS: Address := 0

  datatype Allocation = Allocation(recipient: Address, amount: u64, stakedWith: Option<Address>)
  datatype Schedule = Schedule(fund: u64, allocations: seq<Allocation>)

  // ----- 64-bit arithmetic

  /** The 64-bit value of an exact result; `None` is the overflow panic. */
  function Fit(checked: bool, x: int): Option<u64> {
    if 0 <= x < U64_SIZE then Some(x) else if checked then None else Some(x % U64_SIZE)
  }

  lemma WrapAdd(x: int, y: int)
    ensures (x % U64_SIZE + y) % U64_SIZE == (x + y) % U64_SIZE
  {
    assert x == x / U64_SIZE * U64_SIZE + x % U64_SIZE;
    WrapShift(x % U64_SIZE + y, x / U64_SIZE);
  }

  lemma {:induction false} WrapShift(x: int, k: int)
    ensures (x + k * U64_SIZE) % U64_SIZE == x % U64_SIZE
    decreases if k < 0 then -k else k
  {
    if k > 0 {
      WrapShift(x, k - 1);
      assert x + k * U64_SIZE == (x + (k - 1) * U64_SIZE) + U64_SIZE;
    } else if k < 0 {
      WrapShift(x, k + 1);
      assert x + k * U64_SIZE == (x + (k + 1) * U64_SIZE) - U64_SIZE;
    }
  }

  /** A running 64-bit sum is the 64-bit value of the exact sum. */
  lemma FitAdd(checked: bool, x: int, y: int)
    requires Fit(checked, x).Some?
    ensures Fit(checked, Fit(checked, x).value + y) == Fit(checked, x + y)
  {
    WrapAdd(x, y);
  }

  lemma FitSmall(checked: bool, x: u64)
    ensures Fit(checked, x) == Some(x)
  {
  }

  /** Once trapped, always trapped. */
  lemma FitGrows(checked: bool, x: nat, y: nat)
    requires x <= y && Fit(checked, x).None?
    ensures Fit(checked, y).None?
  {
  }

  // ----- exact amounts

  function Sum(allocations: seq<Allocation>): nat {
    if allocations == [] then 0 else Sum(allocations[..|allocations| - 1]) + allocations[|allocations| - 1].amount
  }

  lemma SumAppend(allocations: seq<Allocation>, a: Allocation)
    ensures Sum(allocations + [a]) == Sum(allocations) + a.amount
  {
    assert (allocations + [a])[..|allocations|] == allocations;
  }

  lemma SumStep(list: seq<Allocation>, i: nat)
    requires i < |list|
    ensures Sum(list[..i + 1]) == Sum(list[..i]) + list[i].amount
  {
    assert list[..i + 1] == list[..i] + [list[i]];
    SumAppend(list[..i], list[i]);
  }

  lemma {:induction false} SumPrefix(allocations: seq<Allocation>, k: nat)
    requires k <= |allocations|
    ensures Sum(allocations[..k]) <= Sum(allocations)
  {
    if k < |allocations| {
      var n := |allocations| - 1;
      SumPrefix(allocations[..n], k);
      assert allocations[..n][..k] == allocations[..k];
    } else {
      assert allocations[..k] == allocations;
    }
  }

  /** Nothing minted, nothing lost. */
  predicate Conserves(s: Schedule) {
    s.fund + Sum(s.allocations) == TOTAL_SUPPLY_MIST
  }

  // ----- `validate`

  predicate Validates(checked: bool, s: Schedule) {
    Fit(checked, s.fund + Sum(s.allocations)) == Some(TOTAL_SUPPLY_MIST)
  }

  /** `validate`; `false` is a panic, for a wrong total or for overflow on the way to it. */
  method Validate(checked: bool, s: Schedule) returns (ok: bool)
    ensures ok <==> Validates(checked, s)
  {
    var total := s.fund;
    var list := s.allocations;
    assert list[..0] == [];
    hide Fit, Sum;
    FitSmall(checked, total);
    for i := 0 to |list|
      invariant Fit(checked, s.fund + Sum(list[..i])) == Some(total)
    {
      FitAdd(checked, s.fund + Sum(list[..i]), list[i].amount);
      SumStep(list, i);
      var next := Fit(checked, total + list[i].amount);
      if next.None? {
        SumPrefix(list, i + 1);
        FitGrows(checked, s.fund + Sum(list[..i + 1]), s.fund + Sum(list));
        return false;
      }
      total := next.value;
    }
    assert list[..|list|] == list;
    ok := total == TOTAL_SUPPLY_MIST;
  }

  /** With overflow trapped `validate` accepts exactly the conserving schedules; wrapping around it accepts those whose
      total is off by a multiple of 2^64 too. */
  lemma ValidatesExactly(s: Schedule)
    ensures Validates(true, s) <==> Conserves(s)
    ensures Validates(false, s) <==> (s.fund + Sum(s.allocations)) % U64_SIZE == TOTAL_SUPPLY_MIST
    ensures s.fund + Sum(s.allocations) < U64_SIZE ==> (Validates(false, s) <==> Conserves(s))
  {
  }

  /** Two allocations that together overflow back to the total supply. */
  lemma WrappedTotalAccepted()
    ensures
      var s := Schedule(TOTAL_SUPPLY_MIST, [Allocation(1, U64_SIZE - 1, None), Allocation(2, 1, None)]);
      Validates(false, s) && !Conserves(s) && !Validates(true, s)
  {
    var a, b := Allocation(1, U64_SIZE - 1, None), Allocation(2, 1, None);
    SumAppend([], a);
    SumAppend([a], b);
    assert [a, b] == [a] + [b] && [a] == [] + [a];
  }

  // ----- `TokenDistributionScheduleBuilder`

  function Default(validator: Address): Allocation {
    Allocation(validator, LOW_STAKE_MIST, Some(validator))
  }

  function Defaults(validators: seq<Address>): seq<Allocation> {
    if validators == [] then []
    else Defaults(validators[..|validators| - 1]) + [Default(validators[|validators| - 1])]
  }

  lemma {:induction false} SumDefaults(validators: seq<Address>)
    ensures Sum(Defaults(validators)) == |validators| * LOW_STAKE_MIST
  {
    if validators != [] {
      var n := |validators| - 1;
      var init := validators[..n];
      SumDefaults(init);
      hide Sum;
      SumAppend(Defaults(init), Default(validators[n]));
      assert |validators| * LOW_STAKE_MIST == |init| * LOW_STAKE_MIST + LOW_STAKE_MIST;
    }
  }

  lemma {:induction false} DefaultsAt(validators: seq<Address>)
    ensures |Defaults(validators)| == |validators|
    ensures forall i | 0 <= i < |validators| :: Defaults(validators)[i] == Default(validators[i])
  {
    if validators != [] { DefaultsAt(validators[..|validators| - 1]); }
  }

  /** Twenty million SUI for each validator, given to it and staked with it, in order. */
  lemma DefaultsExactly(validators: seq<Address>)
    ensures |Defaults(validators)| == |validators|
    ensures forall i | 0 <= i < |validators| ::
              var a := Defaults(validators)[i];
              && a.recipient == validators[i] && a.stakedWith == Some(validators[i])
              && a.amount == 20_000_000 * 1_000_000_000
  {
    DefaultsAt(validators);
  }

  lemma DefaultsAppend(validators: seq<Address>, i: nat)
    requires i < |validators|
    ensures Defaults(validators[..i + 1]) == Defaults(validators[..i]) + [Default(validators[i])]
  {
    assert validators[..i + 1][..i] == validators[..i];
  }

  predicate Affordable(validators: seq<Address>) {
    |validators| * LOW_STAKE_MIST <= TOTAL_SUPPLY_MIST
  }

  lemma StakesGrow(i: nat, n: nat)
    requires i <= n
    ensures i * LOW_STAKE_MIST <= n * LOW_STAKE_MIST
  {
  }

  class Builder {
    var pool: u64
    var allocations: seq<Allocation>

    /** What every sequence of calls keeps: the pool and the allocations are the total supply. */
    ghost predicate Valid()
      reads this
    {
      pool + Sum(allocations) == TOTAL_SUPPLY_MIST
    }

    constructor ()
      ensures Valid() && pool == TOTAL_SUPPLY_MIST && allocations == []
    {
      pool, allocations := TOTAL_SUPPLY_MIST, [];
    }

    /** `add_allocation`; `false` is the panic of `checked_sub` on a pool that is too small, and changes nothing. */
    method AddAllocation(a: Allocation) returns (ok: bool)
      requires Valid()
      modifies this
      ensures Valid()
      ensures ok <==> a.amount <= old(pool)
      ensures ok ==> pool == old(pool) - a.amount && allocations == old(allocations) + [a]
      ensures !ok ==> pool == old(pool) && allocations == old(allocations)
    {
      if pool < a.amount {
        return false;
      }
      SumAppend(allocations, a);
      pool := pool - a.amount;
      allocations := allocations + [a];
      ok := true;
    }

    /** `default_allocation_for_validators`: all or, at the first the pool cannot pay for, a panic. */
    method DefaultAllocationForValidators(validators: seq<Address>) returns (ok: bool)
      requires Valid()
      modifies this
      ensures Valid()
      ensures ok <==> |validators| * LOW_STAKE_MIST <= old(pool)
      ensures ok ==> pool == old(pool) - |validators| * LOW_STAKE_MIST
      ensures ok ==> allocations == old(allocations) + Defaults(validators)
    {
      for i := 0 to |validators|
        invariant Valid() && pool == old(pool) - i * LOW_STAKE_MIST
        invariant allocations == old(allocations) + Defaults(validators[..i])
      {
        DefaultsAppend(validators, i);
        StakesGrow(i + 1, |validators|);
        assert (i + 1) * LOW_STAKE_MIST == i * LOW_STAKE_MIST + LOW_STAKE_MIST;
        ok := AddAllocation(Default(validators[i]));
        if !ok {
          return;
        }
      }
      assert validators[..|validators|] == validators;
      ok := true;
    }

    /** `build` never panics, whichever way overflow is handled, and hands out a schedule that conserves the supply. */
    method Build(checked: bool) returns (s: Schedule, ok: bool)
      requires Valid()
      ensures ok && s == Schedule(pool, allocations) && Conserves(s)
    {
      s := Schedule(pool, allocations);
      ok := Validate(checked, s);
    }
  }

  // ----- `new_for_validators_with_default_allocation`

  /** Traps: a schedule exactly when the supply pays for all. Wraps: always a schedule that `validate` accepts, and it
      conserves the supply exactly when the supply pays for all. */
  method NewForValidators(checked: bool, validators: seq<Address>) returns (r: Option<Schedule>)
    ensures Affordable(validators) ==>
              r == Some(Schedule(TOTAL_SUPPLY_MIST - |validators| * LOW_STAKE_MIST, Defaults(validators)))
    ensures r.Some? <==> Affordable(validators) || !checked
    ensures r.Some? ==> Validates(checked, r.value) && (Conserves(r.value) <==> Affordable(validators))
  {
    var supply: u64 := TOTAL_SUPPLY_MIST;
    var allocations := [];
    for i := 0 to |validators|
      invariant Fit(checked, TOTAL_SUPPLY_MIST - i * LOW_STAKE_MIST) == Some(supply)
      invariant allocations == Defaults(validators[..i])
    {
      FitAdd(checked, TOTAL_SUPPLY_MIST - i * LOW_STAKE_MIST, 0 - LOW_STAKE_MIST);
      assert (i + 1) * LOW_STAKE_MIST == i * LOW_STAKE_MIST + LOW_STAKE_MIST;
      var next := Fit(checked, supply - LOW_STAKE_MIST);
      if next.None? {
        return None;
      }
      supply := next.value;
      DefaultsAppend(validators, i);
      allocations := allocations + [Default(validators[i])];
    }
    assert validators[..|validators|] == validators;
    SumDefaults(validators);
    var s := Schedule(supply, allocations);
    ghost var spent := |validators| * LOW_STAKE_MIST;
    assert Validates(checked, s) by {
      FitAdd(checked, TOTAL_SUPPLY_MIST - spent, spent);
    }
    var ok := Validate(checked, s);
    r := Some(s);
  }

  /** The constructor and the builder agree on every list the supply pays for, and the builder refuses the others. */
  method BuilderAgrees(checked: bool, validators: seq<Address>)
      returns (r: Option<Schedule>, viaBuilder: Option<Schedule>)
    ensures viaBuilder.Some? <==> Affordable(validators)
    ensures viaBuilder.Some? ==> r == viaBuilder
  {
    r := NewForValidators(checked, validators);
    var builder := new Builder();
    var ok := builder.DefaultAllocationForValidators(validators);
    assert [] + Defaults(validators) == Defaults(validators);
    viaBuilder := None;
    if ok {
      var s, built := builder.Build(checked);
      viaBuilder := Some(s);
    }
  }

  // ----- the stake check

  /** What is staked with `v`, exactly. */
  function StakeWith(list: seq<Allocation>, v: Address): nat {
    if list == [] then 0 else
      var a := list[|list| - 1];
      StakeWith(list[..|list| - 1], v) + if a.stakedWith == Some(v) then a.amount else 0
  }

  predicate StakedWithListed(list: seq<Allocation>, validators: seq<Address>) {
    forall i | 0 <= i < |list| && list[i].stakedWith.Some? :: list[i].stakedWith.value in validators
  }

  predicate EnoughStake(checked: bool, stake: nat) {
    var f := Fit(checked, stake);
    f.Some? && f.value >= LOW_STAKE_MIST
  }

  predicate StakesOk(checked: bool, list: seq<Allocation>, validators: seq<Address>) {
    && StakedWithListed(list, validators)
    && forall v | v in validators :: EnoughStake(checked, StakeWith(list, v))
  }

  /** The allocations staked with `v`. */
  function StakedOnly(list: seq<Allocation>, v: Address): seq<Allocation> {
    if list == [] then [] else
      var a := list[|list| - 1];
      StakedOnly(list[..|list| - 1], v) + if a.stakedWith == Some(v) then [a] else []
  }

  /** The stake with a validator is the sum of the allocations staked with it. */
  lemma {:induction false} StakeWithExactly(list: seq<Allocation>, v: Address)
    ensures StakeWith(list, v) == Sum(StakedOnly(list, v))
  {
    if list != [] {
      var init, a := list[..|list| - 1], list[|list| - 1];
      StakeWithExactly(init, v);
      if a.stakedWith == Some(v) {
        SumAppend(StakedOnly(init, v), a);
      } else {
        assert StakedOnly(list, v) == StakedOnly(init, v);
      }
    }
  }

  lemma {:induction false} StakePrefix(list: seq<Allocation>, k: nat, v: Address)
    requires k <= |list|
    ensures StakeWith(list[..k], v) <= StakeWith(list, v)
  {
    if k < |list| {
      var n := |list| - 1;
      StakePrefix(list[..n], k, v);
      assert list[..n][..k] == list[..k];
    } else {
      assert list[..k] == list;
    }
  }

  lemma StakeNone(list: seq<Allocation>, v: Address)
    requires list == []
    ensures StakeWith(list, v) == 0
  {
  }

  lemma StakeAppend(list: seq<Allocation>, i: nat, v: Address)
    requires i < |list|
    ensures StakeWith(list[..i + 1], v) ==
            StakeWith(list[..i], v) + if list[i].stakedWith == Some(v) then list[i].amount else 0
  {
    assert list[..i + 1][..i] == list[..i];
  }

  /** The first loop: stake summed per validator, or a panic for an unlisted validator or an overflow. */
  method SumStakes(checked: bool, list: seq<Allocation>, validators: seq<Address>)
      returns (r: Option<map<Address, u64>>)
    ensures r.Some? ==> StakedWithListed(list, validators) && r.value.Keys == (set v | v in validators)
    ensures r.Some? ==> forall v | v in r.value :: Fit(checked, StakeWith(list, v)) == Some(r.value[v])
    ensures r.None? ==>
              || !StakedWithListed(list, validators)
              || exists v :: v in validators && Fit(checked, StakeWith(list, v)).None?
  {
    hide Fit, StakeWith;
    var stakes: map<Address, u64> := map v | v in validators :: 0;
    forall v: Address ensures Fit(checked, StakeWith(list[..0], v)) == Some(0) {
      StakeNone(list[..0], v);
      FitSmall(checked, 0);
    }
    for i := 0 to |list|
      invariant stakes.Keys == set v | v in validators
      invariant forall j | 0 <= j < i && list[j].stakedWith.Some? :: list[j].stakedWith.value in validators
      invariant forall v | v in stakes :: Fit(checked, StakeWith(list[..i], v)) == Some(stakes[v])
    {
      forall v: Address
        ensures StakeWith(list[..i + 1], v) ==
                StakeWith(list[..i], v) + if list[i].stakedWith == Some(v) then list[i].amount else 0
      {
        StakeAppend(list, i, v);
      }
      if list[i].stakedWith.Some? {
        var v := list[i].stakedWith.value;
        if v !in stakes {
          return None;
        }
        FitAdd(checked, StakeWith(list[..i], v), list[i].amount);
        var next := Fit(checked, stakes[v] + list[i].amount);
        if next.None? {
          StakePrefix(list, i + 1, v);
          FitGrows(checked, StakeWith(list[..i + 1], v), StakeWith(list, v));
          return None;
        }
        stakes := stakes[v := next.value];
      }
    }
    assert list[..|list|] == list;
    r := Some(stakes);
  }

  /** `check_all_stake_operations_are_for_valid_validators`; `false` is a panic. */
  method CheckStakes(checked: bool, s: Schedule, validators: seq<Address>) returns (ok: bool)
    ensures ok <==> StakesOk(checked, s.allocations, validators)
  {
    var stakes := SumStakes(checked, s.allocations, validators);
    if stakes.None? {
      return false;
    }
    var left := stakes.value.Keys;
    while left != {}
      invariant left <= stakes.value.Keys
      invariant forall v | v in stakes.value.Keys - left :: stakes.value[v] >= LOW_STAKE_MIST
    {
      var v :| v in left;
      if stakes.value[v] < LOW_STAKE_MIST {
        return false;
      }
      left := left - {v};
    }
    ok := true;
  }

  lemma {:induction false} StakeWithinSum(list: seq<Allocation>, v: Address)
    ensures StakeWith(list, v) <= Sum(list)
  {
    if list != [] { StakeWithinSum(list[..|list| - 1], v); }
  }

  /** On a conserving schedule no stake overflows: the check accepts exactly the schedules whose stakes are all with
      listed validators and give each at least the threshold. */
  lemma StakesExactly(checked: bool, s: Schedule, validators: seq<Address>)
    requires Conserves(s)
    ensures StakesOk(checked, s.allocations, validators) <==>
            && StakedWithListed(s.allocations, validators)
            && forall v | v in validators :: StakeWith(s.allocations, v) >= LOW_STAKE_MIST
  {
    forall v: Address ensures StakeWith(s.allocations, v) < U64_SIZE { StakeWithinSum(s.allocations, v); }
  }

  lemma {:induction false} StakeAtLeast(list: seq<Allocation>, k: nat)
    requires k < |list| && list[k].stakedWith.Some?
    ensures StakeWith(list, list[k].stakedWith.value) >= list[k].amount
  {
    var n := |list| - 1;
    if k < n {
      StakeAtLeast(list[..n], k);
    }
  }

  /** The default schedule passes the stake check for its own validators, repeated ones included. */
  lemma DefaultSchedulePasses(checked: bool, validators: seq<Address>)
    requires Affordable(validators)
    ensures StakesOk(checked, Defaults(validators), validators)
  {
    var list := Defaults(validators);
    SumDefaults(validators);
    DefaultsAt(validators);
    assert Conserves(Schedule(TOTAL_SUPPLY_MIST - |validators| * LOW_STAKE_MIST, list));
    StakesExactly(checked, Schedule(TOTAL_SUPPLY_MIST - |validators| * LOW_STAKE_MIST, list), validators);
    forall v | v in validators ensures StakeWith(list, v) >= LOW_STAKE_MIST {
      var i :| 0 <= i < |validators| && validators[i] == v;
      StakeAtLeast(list, i);
    }
  }

  // ----- CSV records

  function FundRecord(fund: u64): Allocation {
    Allocation(DEFAULT_ADDRESS, fund, None)
  }

  function Records(s: Schedule): seq<Allocation> {
    s.allocations + [FundRecord(s.fund)]
  }

  /** `to_csv`. */
  method ToCsv(s: Schedule) returns (records: seq<Allocation>)
    ensures records == Records(s)
    ensures |records| == |s.allocations| + 1 && records[..|s.allocations|] == s.allocations
    ensures var last := records[|s.allocations|];
            last.recipient == DEFAULT_ADDRESS && last.amount == s.fund && last.stakedWith.None?
  {
    records := [];
    for i := 0 to |s.allocations|
      invariant records == s.allocations[..i]
    {
      records := records + [s.allocations[i]];
    }
    records := records + [FundRecord(s.fund)];
  }

  /** The record lists `from_csv` accepts: the right total, and a last record that can be the subsidy fund's. */
  predicate Accepted(checked: bool, records: seq<Allocation>) {
    && Fit(checked, Sum(records)) == Some(TOTAL_SUPPLY_MIST)
    && records != []
    && records[|records| - 1] == FundRecord(records[|records| - 1].amount)
  }

  function Parsed(checked: bool, records: seq<Allocation>): Option<Schedule> {
    if Accepted(checked, records)
    then Some(Schedule(records[|records| - 1].amount, records[..|records| - 1]))
    else None
  }

  /** `from_csv` on parsed records; `None` is a panic of one of its assertions. The final `validate` never is one. */
  method FromCsv(checked: bool, records: seq<Allocation>) returns (r: Option<Schedule>)
    ensures r == Parsed(checked, records)
  {
    // summing the records is `validate` without a fund
    var total := Validate(checked, Schedule(0, records));
    if !total {
      return None;
    }
    assert records != [];
    var last := records[|records| - 1];
    if last.recipient != DEFAULT_ADDRESS || last.stakedWith.Some? {
      return None;
    }
    var s := Schedule(last.amount, records[..|records| - 1]);
    var ok := Validate(checked, s);
    r := if ok then Some(s) else None;
  }

  /** Reading back what was written: exactly the schedules that `validate` accepts come back, unchanged. */
  lemma WriteThenRead(checked: bool, s: Schedule)
    ensures Validates(checked, s) ==> Parsed(checked, Records(s)) == Some(s)
    ensures !Validates(checked, s) ==> Parsed(checked, Records(s)) == None
  {
    SumAppend(s.allocations, FundRecord(s.fund));
    assert Records(s)[..|s.allocations|] == s.allocations;
  }

  /** Writing back what was read reproduces the records, the trailing fund record included. */
  lemma ReadThenWrite(checked: bool, records: seq<Allocation>)
    requires Parsed(checked, records).Some?
    ensures Records(Parsed(checked, records).value) == records
    ensures Validates(checked, Parsed(checked, records).value)
  {
    assert records == records[..|records| - 1] + [records[|records| - 1]];
  }
}
