/**
 The "top 5 countries by estimated GDP" list of the summary image: the
 countries with a GDP estimate, sorted by it in descending order (ties keep
 their input order, as the runtime's sort is stable), the first five of them,
 numbered from 1 and placed 25 units apart starting at y = 180.
 */
module ImageService {
  import opened Wrappers
  import opened CountryService

  const MaxListed: nat := 5
  const FirstLineY: int := 180
  const LineSpacing: int := 25

  /** A country that has a GDP estimate. */
  datatype Ranked = Ranked(name: string, gdp: real)

  /** One text line of the list: its number, its vertical position, the country and its estimate. */
  datatype Line = Line(rank: nat, y: int, name: string, gdp: real)

  /** `filter(country => country.estimated_gdp !== null)`, keeping what the list shows. */
  function WithGdp(cs: seq<EnrichedCountry>): (r: seq<Ranked>)
    ensures |r| <= |cs|
    ensures forall x | x in r :: exists i | 0 <= i < |cs| :: cs[i].name == x.name && cs[i].estimatedGdp == Some(x.gdp)
    ensures forall i | 0 <= i < |cs| && cs[i].estimatedGdp.Some? ::
              Ranked(cs[i].name, cs[i].estimatedGdp.value) in r
  {
    if cs == [] then []
    else
      var rest := WithGdp(cs[1..]);
      assert forall i | 1 <= i < |cs| :: cs[i] == cs[1..][i - 1];
      match cs[0].estimatedGdp
      case Some(g) => [Ranked(cs[0].name, g)] + rest
      case None => rest
  }

  /** The filter keeps the input order: filtering a concatenation concatenates the filtered parts. */
  lemma {:induction false} WithGdpConcat(a: seq<EnrichedCountry>, b: seq<EnrichedCountry>)
    ensures WithGdp(a + b) == WithGdp(a) + WithGdp(b)
  {
    if a == [] {
      assert a + b == b;
    } else {
      assert (a + b)[0] == a[0];
      assert (a + b)[1..] == a[1..] + b;
      WithGdpConcat(a[1..], b);
    }
  }

  /** The entry `x` shows country `c`: its name and its estimate. */
  predicate Shows(c: EnrichedCountry, x: Ranked)
  {
    c.name == x.name && c.estimatedGdp == Some(x.gdp)
  }

  /** The positions of the countries that have an estimate. */
  ghost function EstimatedPositions(cs: seq<EnrichedCountry>): set<nat>
  {
    set i: nat | i < |cs| && cs[i].estimatedGdp.Some?
  }

  /** The positions of the countries that entry `x` shows. */
  ghost function PositionsShowing(cs: seq<EnrichedCountry>, x: Ranked): set<nat>
  {
    set i: nat | i < |cs| && Shows(cs[i], x)
  }

  /** Every position moved one place to the right. */
  ghost function Shift(positions: set<nat>): set<nat>
  {
    set i | i in positions :: i + 1
  }

  /** Shifting positions keeps their number. */
  lemma {:induction false} ShiftSize(positions: set<nat>)
    ensures |Shift(positions)| == |positions|
    ensures 0 !in Shift(positions)
    decreases |positions|
  {
    if positions != {} {
      var e :| e in positions;
      var rest := positions - {e};
      ShiftSize(rest);
      forall j | j in Shift(positions)
        ensures j in Shift(rest) + {e + 1}
      {
        var i :| i in positions && j == i + 1;
        if i != e {
          assert i in rest;
        }
      }
      forall j | j in Shift(rest) + {e + 1}
        ensures j in Shift(positions)
      {
        if j != e + 1 {
          var i :| i in rest && j == i + 1;
        }
      }
      assert Shift(positions) == Shift(rest) + {e + 1};
      assert e + 1 !in Shift(rest);
    }
  }

  lemma EstimatedPositionsCons(cs: seq<EnrichedCountry>)
    requires cs != []
    ensures EstimatedPositions(cs) == (if cs[0].estimatedGdp.Some? then {0} else {}) + Shift(EstimatedPositions(cs[1..]))
  {
    forall i | i in EstimatedPositions(cs) && i > 0
      ensures i in Shift(EstimatedPositions(cs[1..]))
    {
      assert cs[1..][i - 1] == cs[i];
      assert i - 1 in EstimatedPositions(cs[1..]);
    }
    forall j | j in Shift(EstimatedPositions(cs[1..]))
      ensures j in EstimatedPositions(cs)
    {
      var i :| i in EstimatedPositions(cs[1..]) && j == i + 1;
      assert cs[1..][i] == cs[j];
    }
  }

  lemma PositionsShowingCons(cs: seq<EnrichedCountry>, x: Ranked)
    requires cs != []
    ensures PositionsShowing(cs, x) == (if Shows(cs[0], x) then {0} else {}) + Shift(PositionsShowing(cs[1..], x))
  {
    forall i | i in PositionsShowing(cs, x) && i > 0
      ensures i in Shift(PositionsShowing(cs[1..], x))
    {
      assert cs[1..][i - 1] == cs[i];
      assert i - 1 in PositionsShowing(cs[1..], x);
    }
    forall j | j in Shift(PositionsShowing(cs[1..], x))
      ensures j in PositionsShowing(cs, x)
    {
      var i :| i in PositionsShowing(cs[1..], x) && j == i + 1;
      assert cs[1..][i] == cs[j];
    }
  }

  /** The filter keeps one entry per country with an estimate. */
  lemma {:induction false} WithGdpLength(cs: seq<EnrichedCountry>)
    ensures |WithGdp(cs)| == |EstimatedPositions(cs)|
  {
    if cs != [] {
      WithGdpLength(cs[1..]);
      EstimatedPositionsCons(cs);
      ShiftSize(EstimatedPositions(cs[1..]));
    }
  }

  /** Each entry occurs in the filtered list as often as there are countries it shows. */
  lemma {:induction false} WithGdpMultiplicity(cs: seq<EnrichedCountry>, x: Ranked)
    ensures multiset(WithGdp(cs))[x] == |PositionsShowing(cs, x)|
  {
    if cs != [] {
      WithGdpMultiplicity(cs[1..], x);
      PositionsShowingCons(cs, x);
      ShiftSize(PositionsShowing(cs[1..], x));
      var rest := WithGdp(cs[1..]);
      match cs[0].estimatedGdp
      case Some(g) =>
        assert WithGdp(cs) == [Ranked(cs[0].name, g)] + rest;
        assert (Ranked(cs[0].name, g) == x) == Shows(cs[0], x);
      case None =>
        assert WithGdp(cs) == rest;
        assert !Shows(cs[0], x);
    }
  }

  /** Non-increasing by estimate. */
  predicate Descending(s: seq<Ranked>)
  {
    forall i, j | 0 <= i < j < |s| :: s[i].gdp >= s[j].gdp
  }

  /** Prepending an entry not below any entry keeps a sequence descending. */
  lemma DescendingCons(h: Ranked, t: seq<Ranked>)
    requires Descending(t)
    requires forall z | z in t :: z.gdp <= h.gdp
    ensures Descending([h] + t)
  {
    forall i, j | 0 <= i < j < |[h] + t|
      ensures ([h] + t)[i].gdp >= ([h] + t)[j].gdp
    {
      assert ([h] + t)[j] == t[j - 1];
      if i > 0 {
        assert ([h] + t)[i] == t[i - 1];
      }
    }
  }

  /** Places `x` before the first entry it is not below, so that it precedes equal entries. */
  function InsertDescending(x: Ranked, s: seq<Ranked>): (r: seq<Ranked>)
    ensures |r| == |s| + 1
    ensures multiset(r) == multiset(s) + multiset{x}
  {
    if s == [] || x.gdp >= s[0].gdp then [x] + s
    else
      assert s == [s[0]] + s[1..];
      [s[0]] + InsertDescending(x, s[1..])
  }

  /** Inserting into a descending sequence keeps it descending. */
  lemma {:induction false} InsertKeepsDescending(x: Ranked, s: seq<Ranked>)
    requires Descending(s)
    ensures Descending(InsertDescending(x, s))
  {
    if s == [] || x.gdp >= s[0].gdp {
      assert forall z | z in s :: z.gdp <= s[0].gdp;
      DescendingCons(x, s);
    } else {
      var rest := InsertDescending(x, s[1..]);
      InsertKeepsDescending(x, s[1..]);
      assert forall z | z in s[1..] :: z.gdp <= s[0].gdp;
      InsertBelowBound(x, s[1..], s[0].gdp);
      DescendingCons(s[0], rest);
    }
  }

  /** Inserting an entry not above a bound into entries not above it keeps them all below it. */
  lemma InsertBelowBound(x: Ranked, s: seq<Ranked>, bound: real)
    requires x.gdp <= bound && forall z | z in s :: z.gdp <= bound
    ensures forall z | z in InsertDescending(x, s) :: z.gdp <= bound
  {
    forall z | z in InsertDescending(x, s)
      ensures z.gdp <= bound
    {
      assert z in multiset(InsertDescending(x, s));
      if z != x {
        assert z in multiset(s);
      }
    }
  }

  /** A stable sort by descending estimate: `sort((a, b) => b.estimated_gdp - a.estimated_gdp)`. */
  function SortDescending(s: seq<Ranked>): (r: seq<Ranked>)
    ensures Descending(r)
    ensures |r| == |s|
    ensures multiset(r) == multiset(s)
  {
    if s == [] then []
    else
      assert s == [s[0]] + s[1..];
      InsertKeepsDescending(s[0], SortDescending(s[1..]));
      InsertDescending(s[0], SortDescending(s[1..]))
  }

  function Min(a: nat, b: nat): nat
  {
    if a < b then a else b
  }

  /** The listed countries: as many as have an estimate but at most five, in descending order of estimate. */
  function TopCountries(cs: seq<EnrichedCountry>): (r: seq<Ranked>)
    ensures |r| == Min(MaxListed, |EstimatedPositions(cs)|)
    ensures Descending(r)
  {
    WithGdpLength(cs);
    var sorted := SortDescending(WithGdp(cs));
    var k := Min(MaxListed, |sorted|);
    DescendingPrefix(sorted, k);
    sorted[..k]
  }

  /**
   The listed countries are drawn from the countries with an estimate, and
   none of the countries left out has a larger estimate than any listed one.
   */
  lemma TopCountriesAreLargest(cs: seq<EnrichedCountry>)
    ensures multiset(TopCountries(cs)) <= multiset(WithGdp(cs))
    ensures forall x, y | x in multiset(WithGdp(cs)) - multiset(TopCountries(cs)) && y in TopCountries(cs) ::
              x.gdp <= y.gdp
  {
    var all := WithGdp(cs);
    var sorted := SortDescending(all);
    var k := Min(MaxListed, |sorted|);
    assert TopCountries(cs) == sorted[..k];
    LargestOfSorted(all, sorted, k);
  }

  /** The first `k` entries of a descending arrangement of `all` are `k` largest entries of `all`. */
  lemma LargestOfSorted(all: seq<Ranked>, sorted: seq<Ranked>, k: nat)
    requires Descending(sorted) && multiset(sorted) == multiset(all) && k <= |sorted|
    ensures multiset(sorted[..k]) <= multiset(all)
    ensures forall x, y | x in multiset(all) - multiset(sorted[..k]) && y in sorted[..k] :: x.gdp <= y.gdp
  {
    TopOfSorted(sorted, k);
    assert multiset(sorted) == multiset(sorted[..k]) + multiset(sorted[k..]) by {
      assert sorted == sorted[..k] + sorted[k..];
    }
  }

  /** Each listed entry shows a country of the input, and is listed at most as often as there are countries it shows. */
  lemma ListedComeFromInput(cs: seq<EnrichedCountry>)
    ensures forall x | x in TopCountries(cs) :: 0 < multiset(TopCountries(cs))[x] <= |PositionsShowing(cs, x)|
  {
    TopCountriesAreLargest(cs);
    forall x | x in TopCountries(cs)
      ensures 0 < multiset(TopCountries(cs))[x] <= |PositionsShowing(cs, x)|
    {
      WithGdpMultiplicity(cs, x);
    }
  }

  /** The first `k` entries of a descending sequence are its `k` largest. */
  lemma TopOfSorted(sorted: seq<Ranked>, k: nat)
    requires Descending(sorted) && k <= |sorted|
    ensures Descending(sorted[..k])
    ensures multiset(sorted) - multiset(sorted[..k]) == multiset(sorted[k..])
    ensures forall x, y | x in multiset(sorted[k..]) && y in sorted[..k] :: x.gdp <= y.gdp
  {
    DescendingPrefix(sorted, k);
    SplitRemainder(sorted, k);
    PrefixDominates(sorted, k);
  }

  lemma DescendingPrefix(sorted: seq<Ranked>, k: nat)
    requires Descending(sorted) && k <= |sorted|
    ensures Descending(sorted[..k])
  {
    assert forall i | 0 <= i < k :: sorted[..k][i] == sorted[i];
  }

  /** Removing a prefix's entries from a sequence's entries leaves the suffix's. */
  lemma SplitRemainder<T>(s: seq<T>, k: nat)
    requires k <= |s|
    ensures multiset(s) - multiset(s[..k]) == multiset(s[k..])
  {
    var a, b := multiset(s[..k]), multiset(s[k..]);
    assert multiset(s) == a + b by {
      assert s == s[..k] + s[k..];
    }
    assert (a + b) - a == b by {
      forall z
        ensures ((a + b) - a)[z] == b[z]
      {
      }
    }
  }

  /** In a descending sequence every entry after position `k` is below every entry before it. */
  lemma PrefixDominates(sorted: seq<Ranked>, k: nat)
    requires Descending(sorted) && k <= |sorted|
    ensures forall x, y | x in multiset(sorted[k..]) && y in sorted[..k] :: x.gdp <= y.gdp
  {
    forall x, y | x in multiset(sorted[k..]) && y in sorted[..k]
      ensures x.gdp <= y.gdp
    {
      var j :| 0 <= j < |sorted[k..]| && sorted[k..][j] == x;
      var i :| 0 <= i < k && sorted[..k][i] == y;
      assert sorted[i] == y && sorted[k + j] == x;
    }
  }

  /** The entries of `s` whose estimate is `g`, in their order in `s`. */
  function Tied(s: seq<Ranked>, g: real): seq<Ranked>
  {
    if s == [] then [] else (if s[0].gdp == g then [s[0]] else []) + Tied(s[1..], g)
  }

  lemma {:induction false} TiedConcat(a: seq<Ranked>, b: seq<Ranked>, g: real)
    ensures Tied(a + b, g) == Tied(a, g) + Tied(b, g)
  {
    if a == [] {
      assert a + b == b;
    } else {
      var head := if a[0].gdp == g then [a[0]] else [];
      assert (a + b)[0] == a[0] && (a + b)[1..] == a[1..] + b;
      assert Tied(a + b, g) == head + Tied(a[1..] + b, g);
      TiedConcat(a[1..], b, g);
      assert Tied(a, g) == head + Tied(a[1..], g);
    }
  }

  /** Insertion places the new entry before every entry of equal estimate. */
  lemma {:induction false} InsertIsStable(x: Ranked, s: seq<Ranked>, g: real)
    ensures Tied(InsertDescending(x, s), g) == (if x.gdp == g then [x] else []) + Tied(s, g)
  {
    if s == [] || x.gdp >= s[0].gdp {
      assert ([x] + s)[1..] == s;
    } else {
      var rest := InsertDescending(x, s[1..]);
      assert ([s[0]] + rest)[1..] == rest;
      assert Tied(InsertDescending(x, s), g) == (if s[0].gdp == g then [s[0]] else []) + Tied(rest, g);
      InsertIsStable(x, s[1..], g);
      // s[0] ranks strictly above x, so at most one of them has estimate g
      assert s[0].gdp != g || x.gdp != g;
    }
  }

  /** The sort is stable: entries of equal estimate keep their relative order. */
  lemma {:induction false} SortIsStable(s: seq<Ranked>, g: real)
    ensures Tied(SortDescending(s), g) == Tied(s, g)
  {
    if s != [] {
      SortIsStable(s[1..], g);
      InsertIsStable(s[0], SortDescending(s[1..]), g);
    }
  }

  /**
   Among countries of equal estimate, the listed ones are the first of them
   in the filtered input's order: a tie for the last place goes to the
   country that comes earlier.
   */
  lemma TopCountriesKeepTieOrder(cs: seq<EnrichedCountry>, g: real)
    ensures |Tied(TopCountries(cs), g)| <= |Tied(WithGdp(cs), g)|
    ensures Tied(TopCountries(cs), g) == Tied(WithGdp(cs), g)[..|Tied(TopCountries(cs), g)|]
  {
    var sorted := SortDescending(WithGdp(cs));
    var k := Min(MaxListed, |sorted|);
    assert TopCountries(cs) == sorted[..k];
    TiedOfPrefix(sorted, k, g);
    SortIsStable(WithGdp(cs), g);
  }

  /** The tied entries of a prefix are a prefix of the tied entries of the whole. */
  lemma TiedOfPrefix(s: seq<Ranked>, k: nat, g: real)
    requires k <= |s|
    ensures |Tied(s[..k], g)| <= |Tied(s, g)|
    ensures Tied(s[..k], g) == Tied(s, g)[..|Tied(s[..k], g)|]
  {
    assert s == s[..k] + s[k..];
    TiedConcat(s[..k], s[k..], g);
  }

  /** Numbers the entries from `index + 1` while the y position advances by the line spacing from `y`. */
  function NumberLines(top: seq<Ranked>, index: nat, y: int): (r: seq<Line>)
    ensures |r| == |top|
    ensures forall i | 0 <= i < |top| ::
              r[i] == Line(index + i + 1, y + LineSpacing * i, top[i].name, top[i].gdp)
    decreases |top|
  {
    if top == [] then []
    else [Line(index + 1, y, top[0].name, top[0].gdp)] + NumberLines(top[1..], index + 1, y + LineSpacing)
  }

  /** `generateTopCountriesList`: the i-th listed country is numbered i + 1 and sits at y = 180 + 25 i. */
  function TopCountriesList(cs: seq<EnrichedCountry>): (r: seq<Line>)
    ensures |r| == |TopCountries(cs)| <= MaxListed
    ensures forall i | 0 <= i < |r| ::
              && r[i].rank == i + 1
              && r[i].y == FirstLineY + LineSpacing * i
              && Ranked(r[i].name, r[i].gdp) == TopCountries(cs)[i]
  {
    NumberLines(TopCountries(cs), 0, FirstLineY)
  }

  /** An estimate of 0 is an estimate: such a country competes for the list. */
  lemma ZeroGdpIsListedCandidate(cs: seq<EnrichedCountry>, i: nat)
    requires i < |cs| && cs[i].estimatedGdp == Some(0.0)
    ensures Ranked(cs[i].name, 0.0) in WithGdp(cs)
  {
  }

  /** A country without an estimate is never listed. */
  lemma NullGdpIsNeverListed(cs: seq<EnrichedCountry>, name: string)
    requires forall i | 0 <= i < |cs| && cs[i].name == name :: cs[i].estimatedGdp.None?
    ensures forall x | x in TopCountries(cs) :: x.name != name
  {
    TopCountriesAreLargest(cs);
    forall x | x in TopCountries(cs)
      ensures x.name != name
    {
      assert x in multiset(TopCountries(cs));
      assert x in multiset(WithGdp(cs));
    }
  }
}
