/** The static list of IBEX 35 constituents (`IBEX_35_COMPANIES`) and the
    display form of a Yahoo Finance ticker (`ticker.replace('.MC', '')`). */
module Registry {

  /** One constituent: display name, Yahoo Finance ticker, sector label. */
  datatype Company = Company(name: string, ticker: string, sector: string)

  /** The Madrid exchange suffix of every Yahoo Finance ticker in the list. */
  const ExchangeSuffix: string := ".MC"

  const IbexCompanies: seq<Company> := [
    Company("Inditex", "ITX.MC", "Consumo"),
    Company("Banco Santander", "SAN.MC", "Banca"),
    Company("Iberdrola", "IBE.MC", "Energía"),
    Company("BBVA", "BBVA.MC", "Banca"),
    Company("Telefónica", "TEF.MC", "Telecom"),
    Company("Repsol", "REP.MC", "Energía"),
    Company("CaixaBank", "CABK.MC", "Banca"),
    Company("Amadeus", "AMS.MC", "Tecnología"),
    Company("Ferrovial", "FER.MC", "Construcción"),
    Company("Naturgy", "NTGY.MC", "Energía"),
    Company("ACS", "ACS.MC", "Construcción"),
    Company("Endesa", "ELE.MC", "Energía"),
    Company("Sabadell", "SAB.MC", "Banca"),
    Company("Cellnex", "CLNX.MC", "Telecom"),
    Company("IAG", "IAG.MC", "Transporte"),
    Company("Grifols", "GRF.MC", "Farmacia"),
    Company("Acciona", "ANA.MC", "Energía"),
    Company("Bankinter", "BKT.MC", "Banca"),
    Company("Aena", "AENA.MC", "Transporte"),
    Company("Red Eléctrica", "REE.MC", "Energía"),
    Company("Mapfre", "MAP.MC", "Seguros"),
    Company("Acerinox", "ACX.MC", "Industrial"),
    Company("Enagás", "ENG.MC", "Energía"),
    Company("Unicaja", "UNI.MC", "Banca"),
    Company("Meliá Hotels", "MEL.MC", "Turismo"),
    Company("Sacyr", "SCYR.MC", "Construcción"),
    Company("Solaria", "SLR.MC", "Energía"),
    Company("Fluidra", "FDR.MC", "Industrial"),
    Company("Rovi", "ROVI.MC", "Farmacia"),
    Company("PharmaMar", "PHM.MC", "Farmacia"),
    Company("Indra", "IDR.MC", "Tecnología"),
    Company("ArcelorMittal", "MTS.MC", "Industrial"),
    Company("Merlin Properties", "MRL.MC", "Inmobiliario"),
    Company("Colonial", "COL.MC", "Inmobiliario"),
    Company("Logista", "LOG.MC", "Distribución")
  ]

  /** Python's `s.replace('.MC', '')`: every non-overlapping occurrence of
      ".MC", scanned from the left, is removed, wherever it occurs. */
  function StripExchange(s: string): (r: string)
    ensures |r| <= |s|
    ensures (|s| - |r|) % 3 == 0
  {
    if |s| < 3 then s
    else if s[..3] == ExchangeSuffix then StripExchange(s[3..])
    else [s[0]] + StripExchange(s[1..])
  }

  /** No '.' in the first `n` characters of `s`. */
  predicate NoDotBefore(s: string, n: int)
  {
    forall k :: 0 <= k < n && k < |s| ==> s[k] != '.'
  }

  /** A Yahoo Finance ticker of the Madrid exchange: a dot-free code followed
      by ".MC". */
  predicate MadridTicker(t: string)
  {
    |t| >= 3 && t[|t| - 3..] == ExchangeSuffix && NoDotBefore(t, |t| - 3)
  }

  /** The code part of a Madrid ticker, i.e. all but its last 3 characters. */
  function TickerCode(t: string): (code: string)
    requires |t| >= 3
  {
    t[..|t| - 3]
  }

  /** A string without '.' contains no ".MC", so `replace` leaves it alone. */
  lemma {:induction false} StripExchangeNoDot(s: string)
    requires NoDotBefore(s, |s|)
    ensures StripExchange(s) == s
  {
    if |s| >= 3 {
      assert s[..3][0] == s[0] != '.';
      StripExchangeNoDot(s[1..]);
      assert s == [s[0]] + s[1..];
    }
  }

  /** On a Madrid ticker, removing every ".MC" is removing the trailing one. */
  lemma {:induction false} StripExchangeMadrid(t: string)
    requires MadridTicker(t)
    ensures StripExchange(t) == TickerCode(t)
  {
    if |t| == 3 {
      assert t == t[|t| - 3..] == ExchangeSuffix;
    } else {
      var rest := t[1..];
      assert t[0] != '.';
      assert t[..3] != ExchangeSuffix by { assert t[..3][0] == t[0]; }
      assert rest[|rest| - 3..] == t[|t| - 3..];
      assert NoDotBefore(rest, |rest| - 3) by {
        forall k | 0 <= k < |rest| - 3 ensures rest[k] != '.' {
          assert rest[k] == t[k + 1];
        }
      }
      StripExchangeMadrid(rest);
      assert t[..|t| - 3] == [t[0]] + rest[..|rest| - 3];
    }
  }

  /** An occurrence of ".MC" starting at position `k` of `s`. */
  predicate SuffixAt(s: string, k: int)
  {
    0 <= k && k + 3 <= |s| && s[k..k + 3] == ExchangeSuffix
  }

  /** A ".MC" after a dot-free prefix is removed, wherever it stands, and the
      scan goes on after it. */
  lemma {:induction false} StripExchangeInner(a: string, b: string)
    requires NoDotBefore(a, |a|)
    ensures StripExchange(a + ExchangeSuffix + b) == a + StripExchange(b)
    decreases |a|
  {
    var s := a + ExchangeSuffix + b;
    if a == [] {
      assert s == ExchangeSuffix + b;
      assert s[..3] == ExchangeSuffix && s[3..] == b;
    } else {
      var rest := a[1..];
      assert a[0] != '.';
      assert s[0] == a[0];
      assert s[..3] != ExchangeSuffix by { assert s[..3][0] == s[0]; }
      assert NoDotBefore(rest, |rest|) by {
        forall k | 0 <= k < |rest| ensures rest[k] != '.' { assert rest[k] == a[k + 1]; }
      }
      assert s[1..] == rest + ExchangeSuffix + b;
      assert StripExchange(s) == [s[0]] + StripExchange(s[1..]);
      StripExchangeInner(rest, b);
      assert a == [a[0]] + rest;
    }
  }

  /** Any occurrence of ".MC" makes the result strictly shorter. */
  lemma {:induction false} StripExchangeShrinks(s: string, k: int)
    requires SuffixAt(s, k)
    ensures |StripExchange(s)| < |s|
    decreases |s|
  {
    if s[..3] != ExchangeSuffix {
      assert k != 0;
      assert s[1..][k - 1..k + 2] == s[k..k + 3];
      StripExchangeShrinks(s[1..], k - 1);
    }
  }

  /** A string without any ".MC" is returned unchanged. */
  lemma {:induction false} StripExchangeNoSuffix(s: string)
    requires forall k :: 0 <= k ==> !SuffixAt(s, k)
    ensures StripExchange(s) == s
    decreases |s|
  {
    if |s| >= 3 {
      assert !SuffixAt(s, 0) && s[..3] == s[0..3];
      forall k | 0 <= k ensures !SuffixAt(s[1..], k) {
        if SuffixAt(s[1..], k) {
          assert s[1..][k..k + 3] == s[k + 1..k + 4];
          assert SuffixAt(s, k + 1);
        }
      }
      StripExchangeNoSuffix(s[1..]);
      assert s == [s[0]] + s[1..];
    }
  }

  /** `replace('.MC', '')` leaves a string unchanged exactly when it holds no
      ".MC" at all. */
  lemma StripExchangeFixed(s: string)
    ensures StripExchange(s) == s <==> forall k :: 0 <= k ==> !SuffixAt(s, k)
  {
    if forall k :: 0 <= k ==> !SuffixAt(s, k) {
      StripExchangeNoSuffix(s);
    } else {
      var k :| 0 <= k && SuffixAt(s, k);
      StripExchangeShrinks(s, k);
    }
  }

  /** Stripping is injective on Madrid tickers: the suffix is always the same. */
  lemma StripExchangeInjective(a: string, b: string)
    requires MadridTicker(a) && MadridTicker(b)
    requires StripExchange(a) == StripExchange(b)
    ensures a == b
  {
    StripExchangeMadrid(a);
    StripExchangeMadrid(b);
    assert a == a[..|a| - 3] + a[|a| - 3..];
    assert b == b[..|b| - 3] + b[|b| - 3..];
  }

  predicate DistinctTickers(reg: seq<Company>)
  {
    forall i, j :: 0 <= i < j < |reg| ==> reg[i].ticker != reg[j].ticker
  }

  predicate AllMadrid(reg: seq<Company>)
  {
    forall i :: 0 <= i < |reg| ==> MadridTicker(reg[i].ticker)
  }

  lemma RegistrySuffixes()
    ensures forall i :: 0 <= i < |IbexCompanies| ==>
      |IbexCompanies[i].ticker| >= 4 && IbexCompanies[i].ticker[|IbexCompanies[i].ticker| - 3..] == ExchangeSuffix
  {
  }

  lemma RegistryCodesDotFree()
    ensures forall i :: 0 <= i < |IbexCompanies| ==>
      NoDotBefore(IbexCompanies[i].ticker, |IbexCompanies[i].ticker| - 3)
  {
  }

  lemma RegistryDistinct()
    ensures forall i, j :: 0 <= i < j < |IbexCompanies| ==> IbexCompanies[i].ticker != IbexCompanies[j].ticker
  {
  }

  /** The invariants of `IBEX_35_COMPANIES`: 35 entries, pairwise distinct
      tickers, every ticker a non-empty code followed by ".MC". */
  lemma RegistryShape()
    ensures |IbexCompanies| == 35
    ensures DistinctTickers(IbexCompanies)
    ensures AllMadrid(IbexCompanies)
    ensures forall i :: 0 <= i < |IbexCompanies| ==> |IbexCompanies[i].ticker| > |ExchangeSuffix|
  {
    RegistryDistinct();
    RegistrySuffixes();
    RegistryCodesDotFree();
    forall i | 0 <= i < |IbexCompanies| ensures MadridTicker(IbexCompanies[i].ticker) {
    }
  }

  /** For every registry entry the displayed ticker is the Yahoo ticker minus
      its last three characters, and displayed tickers are pairwise distinct. */
  lemma RegistryDisplayTickers()
    ensures forall i :: 0 <= i < |IbexCompanies| ==>
      StripExchange(IbexCompanies[i].ticker) == TickerCode(IbexCompanies[i].ticker)
    ensures forall i, j :: 0 <= i < j < |IbexCompanies| ==>
      StripExchange(IbexCompanies[i].ticker) != StripExchange(IbexCompanies[j].ticker)
  {
    RegistryShape();
    forall i | 0 <= i < |IbexCompanies|
      ensures StripExchange(IbexCompanies[i].ticker) == TickerCode(IbexCompanies[i].ticker)
    {
      StripExchangeMadrid(IbexCompanies[i].ticker);
    }
    forall i, j | 0 <= i < j < |IbexCompanies|
      ensures StripExchange(IbexCompanies[i].ticker) != StripExchange(IbexCompanies[j].ticker)
    {
      if StripExchange(IbexCompanies[i].ticker) == StripExchange(IbexCompanies[j].ticker) {
        StripExchangeInjective(IbexCompanies[i].ticker, IbexCompanies[j].ticker);
      }
    }
  }
}
