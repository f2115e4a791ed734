/** Worked examples of change_ticker on Brown-Forman's tickers and on the
    placeholder ticker "-", showing the order of lookup and filter. */
module TickerExamples {
  import opened Tickers

  /** The lookup comes before the filter: "BF.B" is renamed to "BF-B",
      whereas the filter alone would give "BFB"; "-" is renamed to "LPRAX",
      whereas the filter alone would give the empty string. */
  lemma LookupBeforeFilter()
    ensures ChangeTicker("BF.B") == "BF-B" && StripNonUpper("BF.B") == "BFB"
    ensures ChangeTicker("-") == "LPRAX" && StripNonUpper("-") == ""
  {
  }

  /** change_ticker is not idempotent: "BF-B" is not a key and is filtered
      to "BFB", which is a key renamed back to "BF-B". */
  lemma ChangeTickerNotIdempotent()
    ensures ChangeTicker("BF-B") == "BFB"
    ensures ChangeTicker("BFB") == "BF-B"
    ensures ChangeTicker(ChangeTicker("BF-B")) != ChangeTicker("BF-B")
  {
  }
}
