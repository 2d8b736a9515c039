/**
 Country enrichment: joins each raw country record with the exchange-rate
 table, deriving its currency code, exchange rate and estimated GDP.

 The random GDP multiplier is not drawn here: the caller supplies, for the
 i-th country, a value `draw(i)` from the multiplier's range [1000, 2000).
 */
module CountryService {
  import opened Wrappers
  import opened JsValues

  const MinMultiplier: real := 1000.0
  const MaxMultiplier: real := 2000.0

  /** A value `Math.random() * (2000 - 1000) + 1000` can take. */
  type Multiplier = m: real | MinMultiplier <= m < MaxMultiplier witness MinMultiplier

  /** One entry of a country's `currencies` array; only its `code` is read. */
  datatype Currency = Currency(code: JsString)

  /** A country as the external country source delivers it. */
  datatype RawCountry = RawCountry(
    name: string,
    capital: JsString,
    region: JsString,
    population: int,
    currencies: Option<seq<Currency>>,  // None: the field is missing or not an array
    flag: JsString)

  /** A country after enrichment; `None` is the source's `null`. */
  datatype EnrichedCountry = EnrichedCountry(
    name: string,
    capital: Option<string>,
    region: Option<string>,
    population: int,
    currencyCode: JsString,
    exchangeRate: Option<real>,
    estimatedGdp: Option<real>,
    flagUrl: Option<string>)

  /** The first currency's code, or `null` when there is no non-empty currency array. */
  function FirstCurrencyCode(c: RawCountry): (code: JsString)
    ensures c.currencies.None? || c.currencies.value == [] ==> code == Null
    ensures c.currencies.Some? && c.currencies.value != [] ==> code == c.currencies.value[0].code
  {
    match c.currencies
    case Some(cs) => if |cs| > 0 then cs[0].code else Null
    case None => Null
  }

  /** `rates[code]` when both the code and the looked-up rate are truthy; a rate of 0 is no rate. */
  function RateFor(code: JsString, rates: map<string, real>): (rate: Option<real>)
    ensures rate.Some? <==> Truthy(code) && code.text in rates && rates[code.text] != 0.0
    ensures rate.Some? ==> rate.value == rates[code.text] && rate.value != 0.0
  {
    if Truthy(code) && code.text in rates && rates[code.text] != 0.0 then Some(rates[code.text]) else None
  }

  /** Enrichment of one country with multiplier `m`. */
  function ProcessCountry(c: RawCountry, rates: map<string, real>, m: Multiplier): (r: EnrichedCountry)
    // carried through
    ensures r.name == c.name && r.population == c.population
    ensures r.capital == OrNull(c.capital) && r.region == OrNull(c.region) && r.flagUrl == OrNull(c.flag)
    // currency code
    ensures c.currencies.Some? && |c.currencies.value| > 0 ==> r.currencyCode == c.currencies.value[0].code
    ensures c.currencies.None? || |c.currencies.value| == 0 ==> r.currencyCode == Null
    // exchange rate: present only for a truthy code whose rate is present and non-zero
    ensures r.exchangeRate.Some? <==>
              Truthy(r.currencyCode) && r.currencyCode.text in rates && rates[r.currencyCode.text] != 0.0
    ensures r.exchangeRate.Some? ==> r.exchangeRate.value == rates[r.currencyCode.text]
    // three-way GDP policy
    ensures r.currencyCode == Null ==> r.estimatedGdp == Some(0.0) && r.exchangeRate == None
    ensures r.estimatedGdp == None <==> r.currencyCode != Null && r.exchangeRate == None
    ensures r.exchangeRate.Some? ==>
              r.estimatedGdp == Some(c.population as real * m / r.exchangeRate.value)
  {
    var code := FirstCurrencyCode(c);
    var rate := RateFor(code, rates);
    var gdp :=
      if code == Null then Some(0.0)
      else if rate == None then None
      else Some(c.population as real * m / rate.value);
    EnrichedCountry(
      c.name, OrNull(c.capital), OrNull(c.region), c.population,
      code, rate, gdp, OrNull(c.flag))
  }

  /** `countriesData.map(...)`: enriches every country, the i-th with multiplier `draw(i)`. */
  function ProcessCountries(cs: seq<RawCountry>, rates: map<string, real>, draw: nat -> Multiplier): (r: seq<EnrichedCountry>)
    ensures |r| == |cs|
    ensures forall i | 0 <= i < |cs| :: r[i] == ProcessCountry(cs[i], rates, draw(i))
  {
    seq(|cs|, i requires 0 <= i < |cs| => ProcessCountry(cs[i], rates, draw(i)))
  }

  /** Enrichment copies each country's name and population and keeps the input order. */
  lemma ProcessCountriesPreservesOrder(cs: seq<RawCountry>, rates: map<string, real>, draw: nat -> Multiplier)
    ensures |ProcessCountries(cs, rates, draw)| == |cs|
    ensures forall i | 0 <= i < |cs| ::
              ProcessCountries(cs, rates, draw)[i].name == cs[i].name &&
              ProcessCountries(cs, rates, draw)[i].population == cs[i].population
  {
  }

  /** A country without any currency gets GDP 0 and no rate. */
  lemma NoCurrencyMeansZeroGdp(c: RawCountry, rates: map<string, real>, m: Multiplier)
    requires c.currencies.None? || c.currencies.value == []
    ensures ProcessCountry(c, rates, m).currencyCode == Null
    ensures ProcessCountry(c, rates, m).exchangeRate == None
    ensures ProcessCountry(c, rates, m).estimatedGdp == Some(0.0)
  {
  }

  /**
   A first currency whose `code` is missing or empty is not "no currency":
   its GDP is `null`, not 0, because only a `null` code selects the 0 branch.
   */
  lemma MissingCodeMeansNullGdp(c: RawCountry, rates: map<string, real>, m: Multiplier)
    requires c.currencies.Some? && |c.currencies.value| > 0
    requires c.currencies.value[0].code == Undefined || c.currencies.value[0].code == Str("")
    ensures ProcessCountry(c, rates, m).exchangeRate == None
    ensures ProcessCountry(c, rates, m).estimatedGdp == None
  {
  }

  /** A currency whose rate is missing or zero gets GDP `null`, never 0. */
  lemma UnknownRateMeansNullGdp(c: RawCountry, rates: map<string, real>, m: Multiplier)
    requires c.currencies.Some? && |c.currencies.value| > 0
    requires c.currencies.value[0].code.Str?
    requires c.currencies.value[0].code.text !in rates || rates[c.currencies.value[0].code.text] == 0.0
    ensures ProcessCountry(c, rates, m).exchangeRate == None
    ensures ProcessCountry(c, rates, m).estimatedGdp == None
  {
  }

  /** `p * m / rate` lies in `[p * 1000 / rate, p * 2000 / rate)` for positive `p` and `rate`. */
  lemma {:induction false} ScaledBounds(p: real, rate: real, m: Multiplier)
    requires p > 0.0 && rate > 0.0
    ensures 0.0 < p * MinMultiplier / rate <= p * m / rate < p * MaxMultiplier / rate
  {
    var q := p / rate;
    assert q > 0.0;
    assert q * MinMultiplier > 0.0;
    assert p * m / rate == q * m;
    assert p * MinMultiplier / rate == q * MinMultiplier;
    assert p * MaxMultiplier / rate == q * MaxMultiplier;
    assert q * MinMultiplier <= q * m by {
      assert q * m - q * MinMultiplier == q * (m - MinMultiplier);
    }
    assert q * m < q * MaxMultiplier by {
      assert q * MaxMultiplier - q * m == q * (MaxMultiplier - m);
    }
  }

  /**
   With a known positive rate and a positive population the estimate is
   positive and lies in `[population * 1000 / rate, population * 2000 / rate)`.
   */
  lemma EstimatedGdpRange(c: RawCountry, rates: map<string, real>, m: Multiplier)
    requires c.population > 0
    requires ProcessCountry(c, rates, m).exchangeRate.Some?
    requires ProcessCountry(c, rates, m).exchangeRate.value > 0.0
    ensures ProcessCountry(c, rates, m).estimatedGdp.Some?
    ensures
      var rate := ProcessCountry(c, rates, m).exchangeRate.value;
      var gdp := ProcessCountry(c, rates, m).estimatedGdp.value;
      && c.population as real * MinMultiplier / rate <= gdp < c.population as real * MaxMultiplier / rate
      && gdp > 0.0
  {
    var r := ProcessCountry(c, rates, m);
    var p := c.population as real;
    assert r.estimatedGdp.value == p * m / r.exchangeRate.value;
    ScaledBounds(p, r.exchangeRate.value, m);
  }
}
