/**
 * _generate_summary: how many obligations there are, how many carry each priority value and
 * each type value, and how many fall due within thirty days.
 */
module Summary {
  import opened ObligationRules
  import opened Obligations

  datatype ObligationSummary = ObligationSummary(
    total: nat,
    byPriority: map<string, nat>,
    byType: map<string, nat>,
    upcomingCount: nat)

  /** The values of ObligationPriority and of ObligationType, in declaration order. */
  const PriorityNames: seq<string> := [Critical.Name(), High.Name(), Medium.Name(), Low.Name()]
  const TypeNames: seq<string> := [
    Payment.Name(), Delivery.Name(), Reporting.Name(), Termination.Name(),
    Renewal.Name(), Compliance.Name(), Notification.Name(), General.Name()
  ]

  function PriorityOf(o: Obligation): string { o.priority }
  function TypeOf(o: Obligation): string { o.obligationType }

  /** sum(1 for o in obs if key(o) == value). */
  function CountKey(obs: seq<Obligation>, key: Obligation -> string, value: string): nat {
    if obs == [] then 0
    else CountKey(obs[..|obs| - 1], key, value) + (if key(obs[|obs| - 1]) == value then 1 else 0)
  }

  /** The dictionary the loop over an enum fills: one entry per value, holding its count. */
  function Tally(obs: seq<Obligation>, key: Obligation -> string, names: seq<string>): map<string, nat> {
    if names == [] then map[]
    else
      var last := names[|names| - 1];
      Tally(obs, key, names[..|names| - 1])[last := CountKey(obs, key, last)]
  }

  /** The deadline is a real date before now plus thirty days. */
  predicate Upcoming(o: Obligation, now: int) {
    o.sortKey.At? && o.sortKey.instant < now + ThirtyDays
  }

  function UpcomingCount(obs: seq<Obligation>, now: int): nat {
    if obs == [] then 0
    else UpcomingCount(obs[..|obs| - 1], now) + (if Upcoming(obs[|obs| - 1], now) then 1 else 0)
  }

  /** Python's _generate_summary, with datetime.now() given as now. */
  method GenerateSummary(obs: seq<Obligation>, now: int) returns (s: ObligationSummary)
    ensures obs == [] ==> s == ObligationSummary(0, map[], map[], 0)
    ensures obs != [] ==>
      && s.total == |obs|
      && s.byPriority == Tally(obs, PriorityOf, PriorityNames)
      && s.byType == Tally(obs, TypeOf, TypeNames)
      && s.upcomingCount == UpcomingCount(obs, now)
  {
    if obs == [] {
      return ObligationSummary(0, map[], map[], 0);
    }
    var byPriority: map<string, nat> := map[];
    for k := 0 to |PriorityNames|
      invariant byPriority == Tally(obs, PriorityOf, PriorityNames[..k])
    {
      assert PriorityNames[..k + 1][..k] == PriorityNames[..k];
      byPriority := byPriority[PriorityNames[k] := CountKey(obs, PriorityOf, PriorityNames[k])];
    }
    var byType: map<string, nat> := map[];
    for k := 0 to |TypeNames|
      invariant byType == Tally(obs, TypeOf, TypeNames[..k])
    {
      assert TypeNames[..k + 1][..k] == TypeNames[..k];
      byType := byType[TypeNames[k] := CountKey(obs, TypeOf, TypeNames[k])];
    }
    assert PriorityNames[..|PriorityNames|] == PriorityNames;
    assert TypeNames[..|TypeNames|] == TypeNames;
    s := ObligationSummary(|obs|, byPriority, byType, UpcomingCount(obs, now));
  }

  // ----- what the counts mean -----

  /** A count is at most the number of obligations. */
  lemma {:induction false} CountKeyBounded(obs: seq<Obligation>, key: Obligation -> string, value: string)
    ensures CountKey(obs, key, value) <= |obs|
    ensures CountKey(obs, key, value) == 0 <==> forall o :: o in obs ==> key(o) != value
  {
    if obs != [] {
      var init := obs[..|obs| - 1];
      CountKeyBounded(init, key, value);
      assert obs == init + [obs[|obs| - 1]];
    }
  }

  /** The dictionary has exactly the enum's values as keys, each mapped to its count. */
  lemma {:induction false} TallyEntries(obs: seq<Obligation>, key: Obligation -> string, names: seq<string>)
    ensures Tally(obs, key, names).Keys == set n | n in names
    ensures forall n :: n in names ==> Tally(obs, key, names)[n] == CountKey(obs, key, n)
  {
    if names != [] {
      var init := names[..|names| - 1];
      TallyEntries(obs, key, init);
      assert names == init + [names[|names| - 1]];
    }
  }

  /**
   * On a non-empty list the summary's total is the number of obligations, its dictionaries
   * have exactly the enum values as keys, and no count exceeds the total.
   */
  lemma {:induction false} SummaryBounded(obs: seq<Obligation>)
    ensures Tally(obs, PriorityOf, PriorityNames).Keys == set n | n in PriorityNames
    ensures Tally(obs, TypeOf, TypeNames).Keys == set n | n in TypeNames
    ensures forall n :: n in PriorityNames ==> Tally(obs, PriorityOf, PriorityNames)[n] <= |obs|
    ensures forall n :: n in TypeNames ==> Tally(obs, TypeOf, TypeNames)[n] <= |obs|
  {
    TallyEntries(obs, PriorityOf, PriorityNames);
    TallyEntries(obs, TypeOf, TypeNames);
    forall n | n in PriorityNames ensures CountKey(obs, PriorityOf, n) <= |obs| {
      CountKeyBounded(obs, PriorityOf, n);
    }
    forall n | n in TypeNames ensures CountKey(obs, TypeOf, n) <= |obs| {
      CountKeyBounded(obs, TypeOf, n);
    }
  }

  /** The counts of the listed values, added up. */
  function SumCounts(obs: seq<Obligation>, key: Obligation -> string, names: seq<string>): nat {
    if names == [] then 0
    else SumCounts(obs, key, names[..|names| - 1]) + CountKey(obs, key, names[|names| - 1])
  }

  /** How many of the listed values equal v. */
  function Hits(names: seq<string>, v: string): nat {
    if names == [] then 0
    else Hits(names[..|names| - 1], v) + (if names[|names| - 1] == v then 1 else 0)
  }

  predicate Distinct(names: seq<string>) {
    forall p, q :: 0 <= p < q < |names| ==> names[p] != names[q]
  }

  /** Adding one obligation adds one to the count of each listed value equal to its key. */
  lemma {:induction false} SumCountsStep(obs: seq<Obligation>, key: Obligation -> string, names: seq<string>)
    requires obs != []
    ensures SumCounts(obs, key, names)
      == SumCounts(obs[..|obs| - 1], key, names) + Hits(names, key(obs[|obs| - 1]))
  {
    if names != [] {
      SumCountsStep(obs, key, names[..|names| - 1]);
    }
  }

  /** A value occurs once in a list of distinct values that holds it. */
  lemma {:induction false} HitsOnce(names: seq<string>, v: string)
    requires Distinct(names)
    ensures Hits(names, v) == (if v in names then 1 else 0)
  {
    if names != [] {
      var init := names[..|names| - 1];
      HitsOnce(init, v);
      assert names == init + [names[|names| - 1]];
    }
  }

  /**
   * When every obligation's key is one of a list of distinct values, the counts of those
   * values add up to the number of obligations.
   */
  lemma {:induction false} CountsPartition(obs: seq<Obligation>, key: Obligation -> string, names: seq<string>)
    requires Distinct(names)
    requires forall o :: o in obs ==> key(o) in names
    ensures SumCounts(obs, key, names) == |obs|
  {
    if obs == [] {
      ZeroCounts(key, names);
    } else {
      var init := obs[..|obs| - 1];
      assert forall o :: o in init ==> o in obs;
      CountsPartition(init, key, names);
      SumCountsStep(obs, key, names);
      HitsOnce(names, key(obs[|obs| - 1]));
    }
  }

  lemma {:induction false} ZeroCounts(key: Obligation -> string, names: seq<string>)
    ensures SumCounts([], key, names) == 0
  {
    if names != [] {
      ZeroCounts(key, names[..|names| - 1]);
    }
  }

  /**
   * For obligations from the rules, whose priority and type are always values of their enums,
   * the priority counts and the type counts each add up to the total.
   */
  lemma {:induction false} SummaryPartitions(obs: seq<Obligation>)
    requires forall o :: o in obs ==> WellFormed(o)
    ensures SumCounts(obs, PriorityOf, PriorityNames) == |obs|
    ensures SumCounts(obs, TypeOf, TypeNames) == |obs|
  {
    forall o | o in obs ensures PriorityOf(o) in PriorityNames && TypeOf(o) in TypeNames {
      assert WellFormed(o);
      var t: ObligationType :| o.obligationType == t.Name();
      assert t.Name() in TypeNames;
    }
    CountsPartition(obs, PriorityOf, PriorityNames);
    CountsPartition(obs, TypeOf, TypeNames);
  }

  /** The upcoming obligations are some of the obligations. */
  lemma {:induction false} UpcomingBounded(obs: seq<Obligation>, now: int)
    ensures UpcomingCount(obs, now) <= |obs|
    ensures UpcomingCount(obs, now) == 0 <==> forall o :: o in obs ==> !Upcoming(o, now)
  {
    if obs != [] {
      var init := obs[..|obs| - 1];
      UpcomingBounded(init, now);
      assert obs == init + [obs[|obs| - 1]];
    }
  }

  /** An obligation without a usable date (sort key datetime.max) is never upcoming. */
  lemma {:induction false} LatestNeverUpcoming(o: Obligation, now: int)
    requires o.sortKey == Latest
    ensures !Upcoming(o, now)
  {
  }
}
