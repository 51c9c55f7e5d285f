/**
 * The tariff index built by `fetchAllTariffs` (script.js:75-85): for each
 * distributor code, the tariff of one of its rows. The rows arrive newest
 * first, and a row is written only while the code has no truthy tariff yet
 * (absent or zero), so the newest row with a non-zero tariff wins, and a
 * zero tariff is replaced by an older row's.
 *
 * `IndexTariffs` is the fold as the source runs it; `RowsFor` and
 * `FirstNonzeroTariff` read the rows code by code, and `IndexTariffsAt`
 * proves the two agree.
 */
module TariffIndex {
  import opened Wrappers
  import opened Records

  /** `tariffByDistributor`: distributor code to tariff per kWh. */
  type Tariffs = map<string, real>

  /** The value stored for `code`, if any. */
  function Lookup(tariffs: Tariffs, code: string): Option<real> {
    if code in tariffs then Some(tariffs[code]) else None
  }

  /** `tariffByDistributor[code]` is truthy: present and not zero. */
  predicate HasTariff(tariffs: Tariffs, code: string): (truthy: bool)
    ensures truthy <==> Lookup(tariffs, code) != None && Lookup(tariffs, code) != Some(0.0)
  {
    code in tariffs && tariffs[code] != 0.0
  }

  /** One row of the fold: written only when its code is not blank and has no truthy tariff. */
  function AddTariff(tariffs: Tariffs, row: TariffRecord): (added: Tariffs)
    ensures forall code :: code != row.sigAgente || HasTariff(tariffs, code) ==>
              Lookup(added, code) == Lookup(tariffs, code)
    ensures row.sigAgente != "" ==>
              (HasTariff(added, row.sigAgente) <==> HasTariff(tariffs, row.sigAgente) || TariffOf(row) != 0.0)
  {
    var code := row.sigAgente;
    if code != "" && !HasTariff(tariffs, code) then tariffs[code := TariffOf(row)] else tariffs
  }

  /** The rows folded into `tariffs` in the order they arrive. */
  function IndexTariffs(tariffs: Tariffs, rows: seq<TariffRecord>): (indexed: Tariffs)
    ensures forall code :: HasTariff(tariffs, code) ==> Lookup(indexed, code) == Lookup(tariffs, code)
    ensures forall row :: row in rows && row.sigAgente != "" ==> row.sigAgente in indexed
    decreases |rows|
  {
    if rows == [] then tariffs
    else
      var prefix := rows[..|rows| - 1];
      assert forall row :: row in rows ==> row in prefix || row == rows[|rows| - 1];
      AddTariff(IndexTariffs(tariffs, prefix), rows[|rows| - 1])
  }

  /** The rows for a non-blank `code`, in row order. */
  function RowsFor(rows: seq<TariffRecord>, code: string): (mine: seq<TariffRecord>)
    ensures code == "" ==> mine == []
    ensures forall r :: r in mine ==> r in rows && r.sigAgente == code
    decreases |rows|
  {
    if rows == [] || code == "" then []
    else
      var last := rows[|rows| - 1];
      RowsFor(rows[..|rows| - 1], code) + (if last.sigAgente == code then [last] else [])
  }

  /** The tariff of the first row that gives a non-zero one, or zero when none does. */
  function FirstNonzeroTariff(rows: seq<TariffRecord>): (t: real)
    ensures t == 0.0 <==> forall r :: r in rows ==> TariffOf(r) == 0.0
    ensures t != 0.0 ==> exists i :: 0 <= i < |rows| && TariffOf(rows[i]) == t
                                   && forall k :: 0 <= k < i ==> TariffOf(rows[k]) == 0.0
  {
    if rows == [] then 0.0
    else if TariffOf(rows[0]) != 0.0 then TariffOf(rows[0])
    else
      var t := FirstNonzeroTariff(rows[1..]);
      assert forall r :: r in rows ==> r == rows[0] || r in rows[1..];
      if t != 0.0 then
        var i :| 0 <= i < |rows[1..]| && TariffOf(rows[1..][i]) == t
                 && forall k :: 0 <= k < i ==> TariffOf(rows[1..][k]) == 0.0;
        assert TariffOf(rows[i + 1]) == t;
        assert forall k :: 0 <= k < i + 1 ==> TariffOf(rows[k]) == 0.0 by {
          forall k | 0 <= k < i + 1 ensures TariffOf(rows[k]) == 0.0 {
            if k > 0 { assert rows[k] == rows[1..][k - 1]; }
          }
        }
        t
      else t
  }

  lemma {:induction false} FirstNonzeroTariffAppend(rows: seq<TariffRecord>, row: TariffRecord)
    ensures FirstNonzeroTariff(rows + [row]) ==
      if FirstNonzeroTariff(rows) != 0.0 then FirstNonzeroTariff(rows) else TariffOf(row)
  {
    if rows != [] {
      assert (rows + [row])[1..] == rows[1..] + [row];
      FirstNonzeroTariffAppend(rows[1..], row);
    }
  }

  /**
   * The fold, read code by code: a code that already had a truthy tariff,
   * and a code without rows, keep what they had; any other code ends with
   * the tariff of its first row that gives a non-zero one, or zero when
   * none of its rows does.
   */
  lemma {:induction false} IndexTariffsAt(tariffs: Tariffs, rows: seq<TariffRecord>, code: string)
    ensures Lookup(IndexTariffs(tariffs, rows), code) ==
      if HasTariff(tariffs, code) || RowsFor(rows, code) == [] then Lookup(tariffs, code)
      else Some(FirstNonzeroTariff(RowsFor(rows, code)))
    decreases |rows|
  {
    if rows != [] {
      var prefix := rows[..|rows| - 1];
      var row := rows[|rows| - 1];
      var mine0 := RowsFor(prefix, code);
      IndexTariffsAt(tariffs, prefix, code);
      var mid := IndexTariffs(tariffs, prefix);
      AddTariffAt(mid, row, code);
      if code != "" && row.sigAgente == code {
        assert RowsFor(rows, code) == mine0 + [row];
        FirstNonzeroTariffAppend(mine0, row);
        if HasTariff(tariffs, code) {
        } else if mine0 == [] {
          assert mine0 + [row] == [row];
          assert FirstNonzeroTariff([row]) == TariffOf(row);
        } else if FirstNonzeroTariff(mine0) != 0.0 {
          assert HasTariff(mid, code);
        }
      } else {
        assert RowsFor(rows, code) == RowsFor(prefix, code);
      }
    }
  }

  /** One row, read for one code: only a non-blank row of that code without a truthy tariff writes it. */
  lemma AddTariffAt(tariffs: Tariffs, row: TariffRecord, code: string)
    ensures Lookup(AddTariff(tariffs, row), code) ==
      if code != "" && row.sigAgente == code && !HasTariff(tariffs, code) then Some(TariffOf(row))
      else Lookup(tariffs, code)
  {
  }

  /** Folding two batches of rows one after the other is folding them together. */
  lemma {:induction false} IndexTariffsConcat(tariffs: Tariffs, first: seq<TariffRecord>, second: seq<TariffRecord>)
    ensures IndexTariffs(tariffs, first + second) == IndexTariffs(IndexTariffs(tariffs, first), second)
    decreases |second|
  {
    if second == [] {
      assert first + second == first;
    } else {
      var all := first + second;
      assert all[..|all| - 1] == first + second[..|second| - 1];
      assert all[|all| - 1] == second[|second| - 1];
      IndexTariffsConcat(tariffs, first, second[..|second| - 1]);
    }
  }

  /**
   * Once a code holds a non-zero tariff at some point of the scan, no later
   * row changes it, and the row of another code never touches it.
   */
  lemma {:induction false} NonzeroTariffIsFinal(tariffs: Tariffs, earlier: seq<TariffRecord>, later: seq<TariffRecord>, code: string)
    requires HasTariff(IndexTariffs(tariffs, earlier), code)
    ensures Lookup(IndexTariffs(tariffs, earlier + later), code) == Lookup(IndexTariffs(tariffs, earlier), code)
  {
    IndexTariffsConcat(tariffs, earlier, later);
    IndexTariffsAt(IndexTariffs(tariffs, earlier), later, code);
  }

  /** A code that was not in the index before is stored with the formula applied to one of its own rows. */
  lemma {:induction false} StoredTariffComesFromRow(tariffs: Tariffs, rows: seq<TariffRecord>, code: string)
    requires code !in tariffs && code in IndexTariffs(tariffs, rows)
    ensures exists r :: r in rows && r.sigAgente == code && IndexTariffs(tariffs, rows)[code] == TariffOf(r)
  {
    IndexTariffsAt(tariffs, rows, code);
    var mine := RowsFor(rows, code);
    var t := FirstNonzeroTariff(mine);
    assert mine != [];
    if t == 0.0 {
      assert TariffOf(mine[0]) == t;
    } else {
      var i :| 0 <= i < |mine| && TariffOf(mine[i]) == t
               && forall k :: 0 <= k < i ==> TariffOf(mine[k]) == 0.0;
      assert mine[i] in mine;
    }
  }

  /**
   * The zero-tariff quirk: a row whose prices sum to zero is stored, and the
   * next (older) row for the same code overwrites it.
   */
  lemma ZeroTariffIsOverwritten()
    ensures var rows := [TariffRecord("X", Some(0.0), None), TariffRecord("X", Some(100.0), Some(50.0))];
      IndexTariffs(map[], rows) == map["X" := 0.2]
  {
  }

  /** The newest row wins when it gives a non-zero tariff: 100 + 50 per MWh is 0.2 per kWh. */
  lemma NewestRowWins()
    ensures var rows := [TariffRecord("X", Some(100.0), Some(50.0)), TariffRecord("X", Some(10.0), Some(5.0))];
      IndexTariffs(map[], rows) == map["X" := 0.2]
  {
  }
}
