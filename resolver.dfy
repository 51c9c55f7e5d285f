/**
 * The page's two dictionaries and the code that fills and reads them
 * (script.js:15-16, 31-47, 70-85, 113-120, 130-141, 213-233). The fields
 * are reassigned where the source writes into the dictionaries; each
 * method is proved against the functions of `StateIndex`, `TariffIndex`
 * and `Selection`, whose properties are proved there.
 */
module Resolver {
  import opened Wrappers
  import opened Records
  import opened Ordering
  import opened StateIndex
  import opened TariffIndex
  import opened Selection

  class TariffResolver {
    /** `distributorsByState`. */
    var distributorsByState: Index
    /** `tariffByDistributor`. */
    var tariffByDistributor: Tariffs

    /** The index is well-formed and no tariff is stored under a blank code. */
    ghost predicate Valid()
      reads this
    {
      WellFormed(distributorsByState) && "" !in tariffByDistributor
    }

    /** Both dictionaries start empty. */
    constructor ()
      ensures Valid()
      ensures distributorsByState == map[] && tariffByDistributor == map[]
    {
      distributorsByState := map[];
      tariffByDistributor := map[];
    }

    /**
     * The success callback of `fetchDistributorsAndStates`: a payload whose
     * `success` is false changes nothing; otherwise every row is folded into
     * `distributorsByState`.
     */
    method LoadDistributors(data: Payload<AgentRecord>)
      requires Valid()
      modifies this
      ensures Valid()
      ensures distributorsByState ==
        if data.success then IndexAgents(old(distributorsByState), data.records) else old(distributorsByState)
      ensures tariffByDistributor == old(tariffByDistributor)
    {
      if !data.success {
        return;
      }
      var rows := data.records;
      var i := 0;
      while i < |rows|
        invariant 0 <= i <= |rows|
        invariant distributorsByState == IndexAgents(old(distributorsByState), rows[..i])
        invariant tariffByDistributor == old(tariffByDistributor)
      {
        ghost var before := distributorsByState;
        var state := rows[i].sigUF;
        var code := rows[i].sigAgente;
        if state != "" && code != "" {
          if state !in distributorsByState {
            distributorsByState := distributorsByState[state := []];
          }
          if code !in distributorsByState[state] {
            distributorsByState := distributorsByState[state := distributorsByState[state] + [code]];
          }
        }
        assert distributorsByState == AddAgent(before, rows[i]);
        assert rows[..i + 1][..i] == rows[..i];
        i := i + 1;
      }
      assert rows[..i] == rows;
      IndexAgentsWellFormed(old(distributorsByState), rows);
    }

    /**
     * The success callback of `fetchAllTariffs`: a payload whose `success`
     * is false changes nothing; otherwise every row is folded into
     * `tariffByDistributor`, writing a code only while it has no truthy
     * tariff.
     */
    method LoadTariffs(data: Payload<TariffRecord>)
      requires Valid()
      modifies this
      ensures Valid()
      ensures tariffByDistributor ==
        if data.success then IndexTariffs(old(tariffByDistributor), data.records) else old(tariffByDistributor)
      ensures distributorsByState == old(distributorsByState)
    {
      if !data.success {
        return;
      }
      var rows := data.records;
      var i := 0;
      while i < |rows|
        invariant 0 <= i <= |rows|
        invariant tariffByDistributor == IndexTariffs(old(tariffByDistributor), rows[..i])
        invariant distributorsByState == old(distributorsByState)
      {
        ghost var before := tariffByDistributor;
        var code := rows[i].sigAgente;
        if code != "" && !HasTariff(tariffByDistributor, code) {
          var energy := PriceOrZero(rows[i].vlrTE);
          var network := PriceOrZero(rows[i].vlrTUSD);
          var baseKWh := (energy + network) / 1000.0;
          var taxFactor := 1.0 / (1.0 - TaxShare);
          tariffByDistributor := tariffByDistributor[code := baseKWh * taxFactor];
        }
        assert tariffByDistributor == AddTariff(before, rows[i]);
        assert rows[..i + 1][..i] == rows[..i];
        i := i + 1;
      }
      assert rows[..i] == rows;
      IndexTariffsAt(old(tariffByDistributor), rows, "");
    }

    /**
     * `popularEstados`: the state codes of the index, each once, in the
     * default string order.
     */
    method StateOptions() returns (states: seq<string>)
      ensures SortedBy(states, LexLe) && NoDuplicates(states)
      ensures forall s :: s in states <==> s in distributorsByState
    {
      var keys: seq<string> := [];
      var rest := distributorsByState.Keys;
      while rest != {}
        invariant rest <= distributorsByState.Keys
        invariant forall s :: s in keys <==> s in distributorsByState && s !in rest
        invariant NoDuplicates(keys)
        decreases rest
      {
        var s :| s in rest;
        keys := keys + [s];
        rest := rest - {s};
      }
      LexLeTotalOrder();
      SortBySorted(keys, LexLe);
      SortByNoDuplicates(keys, LexLe);
      states := SortBy(keys, LexLe);
      assert forall s :: s in states <==> s in multiset(keys);
    }

    /**
     * `distributorsByState[state]?.sort() || []`: sorts the state's stored
     * list in place and returns it; an unknown state gives the empty list.
     */
    method SortStoredList(state: string) returns (listed: seq<string>)
      requires Valid()
      modifies this
      ensures Valid()
      ensures listed == SortedList(old(distributorsByState), state)
      ensures distributorsByState ==
        if state in old(distributorsByState)
        then old(distributorsByState)[state := listed]
        else old(distributorsByState)
      ensures tariffByDistributor == old(tariffByDistributor)
    {
      listed := [];
      if state in distributorsByState {
        SortInPlaceKeepsWellFormed(distributorsByState, state);
        distributorsByState := distributorsByState[state := SortBy(distributorsByState[state], LexLe)];
        listed := distributorsByState[state];
      }
    }

    /**
     * `popularDistribuidoras(state)`: sorts the state's stored list in place,
     * then offers the codes of it that have a truthy tariff; the select is
     * disabled when the state has no list, or an empty one.
     */
    method DistributorOptions(state: string) returns (options: seq<string>, disabled: bool)
      requires Valid()
      modifies this
      ensures Valid()
      ensures distributorsByState ==
        if state in old(distributorsByState)
        then old(distributorsByState)[state := SortedList(old(distributorsByState), state)]
        else old(distributorsByState)
      ensures tariffByDistributor == old(tariffByDistributor)
      ensures DistributorChoice(options, disabled) == DistributorSelection(old(distributorsByState), tariffByDistributor, state)
    {
      var listed := SortStoredList(state);
      options := PricedCodes(listed);
      disabled := |listed| == 0;
      assert DistributorSelection(old(distributorsByState), tariffByDistributor, state)
          == DistributorChoice(WithTariff(listed, tariffByDistributor), |listed| == 0);
    }

    /**
     * The `forEach` of `popularDistribuidoras`: appends, in list order, each
     * code whose tariff is truthy.
     */
    method PricedCodes(listed: seq<string>) returns (options: seq<string>)
      ensures options == WithTariff(listed, tariffByDistributor)
    {
      options := [];
      var i := 0;
      while i < |listed|
        invariant 0 <= i <= |listed|
        invariant options == WithTariff(listed[..i], tariffByDistributor)
      {
        if HasTariff(tariffByDistributor, listed[i]) {
          options := options + [listed[i]];
        }
        assert listed[..i + 1][..i] == listed[..i];
        i := i + 1;
      }
      assert listed[..i] == listed;
    }

    /**
     * `init`: the two fetches run side by side, each success callback
     * filling its own dictionary (`None` stands for a fetch that failed);
     * the states are offered only when both fetches completed, whatever
     * their `success` flags said.
     */
    method Init(agents: Option<Payload<AgentRecord>>, tariffs: Option<Payload<TariffRecord>>)
      returns (states: Option<seq<string>>)
      requires Valid()
      modifies this
      ensures Valid()
      ensures distributorsByState ==
        if agents.Some? && agents.value.success
        then IndexAgents(old(distributorsByState), agents.value.records)
        else old(distributorsByState)
      ensures tariffByDistributor ==
        if tariffs.Some? && tariffs.value.success
        then IndexTariffs(old(tariffByDistributor), tariffs.value.records)
        else old(tariffByDistributor)
      ensures states.Some? <==> agents.Some? && tariffs.Some?
      ensures states.Some? ==>
        && SortedBy(states.value, LexLe) && NoDuplicates(states.value)
        && forall s :: s in states.value <==> s in distributorsByState
    {
      if agents.Some? {
        LoadDistributors(agents.value);
      }
      if tariffs.Some? {
        LoadTariffs(tariffs.value);
      }
      if agents.Some? && tariffs.Some? {
        var offered := StateOptions();
        states := Some(offered);
      } else {
        states := None;
      }
    }
  }
}
