/**
 * The rows the resolver reads from the two open-data tables and the
 * municipality list, and the tariff formula applied to a tariff row.
 *
 * Every text field is a `string`; the empty string stands for every value
 * JavaScript treats as false there (missing, `null`, `""`).
 */
module Records {
  import opened Wrappers

  /** A row of the agents table: the state code `SigUF` and the distributor code `SigAgente`. */
  datatype AgentRecord = AgentRecord(sigUF: string, sigAgente: string)

  /** A price field after `parseFloat`: `None` when the text does not parse (NaN). */
  type Price = Option<real>

  /** A row of the tariffs table: distributor code, energy price `VlrTE`, network price `VlrTUSD`. */
  datatype TariffRecord = TariffRecord(sigAgente: string, vlrTE: Price, vlrTUSD: Price)

  /** The body of a datastore search: the `success` flag and `result.records`. */
  datatype Payload<R> = Payload(success: bool, records: seq<R>)

  /** A municipality of the geographic API, known by its `nome`. */
  datatype City = City(nome: string)

  /** The approximate share of taxes the tariff is grossed up by. */
  const TaxShare: real := 0.25

  /** `parseFloat(x) || 0`: a field that does not parse counts as zero. */
  function PriceOrZero(p: Price): (price: real)
    ensures p.Some? ==> price == p.value
    ensures p.None? ==> price == 0.0
  {
    p.GetOr(0.0)
  }

  /**
   * The tariff per kWh of one row: TE plus TUSD (both per MWh) over 1000,
   * grossed up by 1 / (1 - 0.25). With exact arithmetic that is the sum over
   * 750, and the row yields a usable (non-zero) tariff exactly when the sum
   * is not zero.
   */
  function TariffOf(r: TariffRecord): (t: real)
    ensures t * 750.0 == PriceOrZero(r.vlrTE) + PriceOrZero(r.vlrTUSD)
    ensures t != 0.0 <==> PriceOrZero(r.vlrTE) + PriceOrZero(r.vlrTUSD) != 0.0
  {
    var te := PriceOrZero(r.vlrTE);
    var tusd := PriceOrZero(r.vlrTUSD);
    var baseKWh := (te + tusd) / 1000.0;
    var taxFactor := 1.0 / (1.0 - TaxShare);
    baseKWh * taxFactor
  }

  /** A price that does not parse adds nothing to the tariff. */
  lemma UnparseablePriceCountsZero(code: string, price: real)
    ensures TariffOf(TariffRecord(code, None, Some(price))) == price / 750.0
    ensures TariffOf(TariffRecord(code, Some(price), None)) == price / 750.0
    ensures TariffOf(TariffRecord(code, None, None)) == 0.0
  {
  }
}
