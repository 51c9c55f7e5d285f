/**
 * What the form offers, derived from the two indexes and the municipality
 * list: the distributors of a state (script.js:134-140) and the cities of a
 * state (script.js:98-111).
 */
module Selection {
  import opened Wrappers
  import opened Records
  import opened Ordering
  import opened StateIndex
  import opened TariffIndex

  /** The options of the distributor select and whether the select stays disabled. */
  datatype DistributorChoice = DistributorChoice(offered: seq<string>, disabled: bool)

  /** The codes of `codes` that have a truthy tariff, in the order of `codes`. */
  function WithTariff(codes: seq<string>, tariffs: Tariffs): (offered: seq<string>)
    ensures forall c :: c in offered <==> c in codes && HasTariff(tariffs, c)
    ensures |offered| <= |codes|
    decreases |codes|
  {
    if codes == [] then []
    else
      var last := codes[|codes| - 1];
      assert codes == codes[..|codes| - 1] + [last];
      WithTariff(codes[..|codes| - 1], tariffs) + (if HasTariff(tariffs, last) then [last] else [])
  }

  /** Filtering keeps the order and the absence of duplicates of its input. */
  lemma WithTariffKeepsOrder(codes: seq<string>, tariffs: Tariffs)
    ensures SortedBy(codes, LexLe) ==> SortedBy(WithTariff(codes, tariffs), LexLe)
    ensures NoDuplicates(codes) ==> NoDuplicates(WithTariff(codes, tariffs))
  {
    if SortedBy(codes, LexLe) {
      WithTariffSorted(codes, tariffs);
    }
    if NoDuplicates(codes) {
      WithTariffNoDuplicates(codes, tariffs);
    }
  }

  lemma {:induction false} WithTariffSorted(codes: seq<string>, tariffs: Tariffs)
    requires SortedBy(codes, LexLe)
    ensures SortedBy(WithTariff(codes, tariffs), LexLe)
    decreases |codes|
  {
    if codes != [] {
      var prefix := codes[..|codes| - 1];
      var last := codes[|codes| - 1];
      WithTariffSorted(prefix, tariffs);
      var f := WithTariff(prefix, tariffs);
      forall k | 0 <= k < |f| ensures LexLe(f[k], last) {
        assert f[k] in prefix;
        var i :| 0 <= i < |prefix| && prefix[i] == f[k];
        assert codes[i] == f[k];
      }
      if HasTariff(tariffs, last) {
        AppendSorted(f, last, LexLe);
      }
    }
  }

  lemma AppendSorted<T>(s: seq<T>, last: T, le: (T, T) -> bool)
    requires SortedBy(s, le) && forall k :: 0 <= k < |s| ==> le(s[k], last)
    ensures SortedBy(s + [last], le)
  {
    forall i, j | 0 <= i < j < |s| + 1 ensures le((s + [last])[i], (s + [last])[j]) {
      assert (s + [last])[i] == s[i];
    }
  }

  lemma {:induction false} WithTariffNoDuplicates(codes: seq<string>, tariffs: Tariffs)
    requires NoDuplicates(codes)
    ensures NoDuplicates(WithTariff(codes, tariffs))
    decreases |codes|
  {
    if codes != [] {
      var prefix := codes[..|codes| - 1];
      var last := codes[|codes| - 1];
      WithTariffNoDuplicates(prefix, tariffs);
      assert last !in prefix;
      var f := WithTariff(prefix, tariffs);
      assert last !in f;
      assert WithTariff(codes, tariffs) == f + (if HasTariff(tariffs, last) then [last] else []);
    }
  }

  /**
   * `popularDistribuidoras(state)`: the state's list sorted by the default
   * string order, keeping the codes with a truthy tariff; the select is
   * disabled exactly when the unfiltered list is empty or missing, even if
   * the filter leaves nothing.
   */
  function DistributorSelection(idx: Index, tariffs: Tariffs, state: string): (choice: DistributorChoice)
    ensures SortedBy(choice.offered, LexLe)
    ensures forall c :: c in choice.offered <==> c in ListOf(idx, state) && HasTariff(tariffs, c)
    ensures NoDuplicates(ListOf(idx, state)) ==> NoDuplicates(choice.offered)
    ensures choice.disabled <==> ListOf(idx, state) == []
  {
    var sorted := SortedList(idx, state);
    SortByNoDuplicates(ListOf(idx, state), LexLe);
    WithTariffKeepsOrder(sorted, tariffs);
    assert forall c :: c in sorted <==> c in multiset(sorted);
    DistributorChoice(WithTariff(sorted, tariffs), |sorted| == 0)
  }

  /** `distributorsByState[state]?.sort() || []`. */
  function SortedList(idx: Index, state: string): (sorted: seq<string>)
    ensures multiset(sorted) == multiset(ListOf(idx, state))
    ensures SortedBy(sorted, LexLe)
    ensures state !in idx ==> sorted == []
  {
    LexLeTotalOrder();
    SortBySorted(ListOf(idx, state), LexLe);
    SortBy(ListOf(idx, state), LexLe)
  }

  /**
   * `popularDistribuidoras` sorts the stored list in place; that changes no
   * later selection, for any state.
   */
  lemma SortInPlaceKeepsSelections(idx: Index, tariffs: Tariffs, state: string, other: string)
    requires state in idx
    ensures DistributorSelection(idx[state := SortedList(idx, state)], tariffs, other)
         == DistributorSelection(idx, tariffs, other)
  {
    var sortedIdx := idx[state := SortedList(idx, state)];
    if other == state {
      LexLeTotalOrder();
      SortBySorted(idx[state], LexLe);
      SortBySortedIsIdentity(SortedList(idx, state), LexLe);
    }
    assert SortedList(sortedIdx, other) == SortedList(idx, other);
  }

  /** Sorting a list of the index in place keeps the index well-formed. */
  lemma SortInPlaceKeepsWellFormed(idx: Index, state: string)
    requires state in idx && WellFormed(idx)
    ensures WellFormed(idx[state := SortedList(idx, state)])
  {
    var list := idx[state];
    var sorted := SortedList(idx, state);
    SortByNoDuplicates(list, LexLe);
    assert forall c :: c in sorted <==> c in multiset(list);
    assert |sorted| == |multiset(sorted)| == |multiset(list)| == |list|;
  }

  /** The collation of city names lifted to cities. */
  function ByName(collate: (string, string) -> bool): (City, City) -> bool {
    (a: City, b: City) => collate(a.nome, b.nome)
  }

  /**
   * Sorting cities by a name collation that is a total preorder puts them
   * in order, and cities whose names the collation ties keep the order
   * they were received in.
   */
  lemma CitiesSorted(received: seq<City>, collate: (string, string) -> bool)
    ensures TotalPreorder(collate) ==> SortedBy(SortBy(received, ByName(collate)), ByName(collate))
    ensures TotalPreorder(collate) ==> forall c ::
      Tied(SortBy(received, ByName(collate)), c, ByName(collate)) == Tied(received, c, ByName(collate))
  {
    if TotalPreorder(collate) {
      ByNameTotalPreorder(collate);
      SortBySorted(received, ByName(collate));
      forall c ensures Tied(SortBy(received, ByName(collate)), c, ByName(collate)) == Tied(received, c, ByName(collate)) {
        SortByStable(received, c, ByName(collate));
      }
    }
  }

  lemma ByNameTotalPreorder(collate: (string, string) -> bool)
    requires TotalPreorder(collate)
    ensures TotalPreorder(ByName(collate))
  {
    var le := ByName(collate);
    forall a: City, b: City ensures le(a, b) || le(b, a) {
      assert collate(a.nome, b.nome) || collate(b.nome, a.nome);
    }
    forall a: City, b: City, c: City | le(a, b) && le(b, c) ensures le(a, c) {
      assert collate(a.nome, b.nome) && collate(b.nome, c.nome);
    }
  }

  /**
   * `fetchCitiesByState(stateUF)`: nothing for a blank state or a failed
   * lookup (`response` is `None` when the request failed, the answer was
   * not OK, the body was not JSON, or the JSON was not an array, so that
   * `cities.sort` is not a function); otherwise the cities received, sorted
   * by name under the collation `collate` (`localeCompare(a, b) <= 0`),
   * cities with tied names in the order received (the sort is stable).
   */
  function CitiesByState(stateUF: string, response: Option<seq<City>>, collate: (string, string) -> bool): (cities: seq<City>)
    ensures stateUF == "" || response.None? ==> cities == []
    ensures stateUF != "" && response.Some? ==> multiset(cities) == multiset(response.value)
    ensures stateUF != "" && response.Some? && TotalPreorder(collate) ==> SortedBy(cities, ByName(collate))
    ensures stateUF != "" && response.Some? && TotalPreorder(collate) ==> forall c ::
      Tied(cities, c, ByName(collate)) == Tied(response.value, c, ByName(collate))
  {
    if stateUF == "" then []
    else match response
      case None => []
      case Some(received) =>
        CitiesSorted(received, collate);
        SortBy(received, ByName(collate))
  }
}
