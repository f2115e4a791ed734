/** Normalisation of the raw ticker symbols found in ETF holding snapshots:
    a fixed rename table is consulted first, and a ticker that is not one of
    its keys has every character outside `A`-`Z` deleted. */
module Tickers {

  /** A character matched by the character class `[A-Z]`. */
  predicate IsUpper(c: char) {
    'A' <= c <= 'Z'
  }

  /** Every character of `s` is in `A`-`Z`. */
  ghost predicate AllUpper(s: string) {
    forall i :: 0 <= i < |s| ==> IsUpper(s[i])
  }

  /** `sub` is obtained from `s` by deleting characters, keeping the order of the rest. */
  ghost predicate IsSubsequence(sub: string, s: string)
    decreases |s|
  {
    if sub == [] then true
    else if s == [] then false
    else (sub[0] == s[0] && IsSubsequence(sub[1..], s[1..])) || IsSubsequence(sub, s[1..])
  }

  datatype Option<T> = None | Some(value: T)

  /** The rename table: known renamings of holdings' tickers to the symbols
      used elsewhere (delisted, foreign-listed or differently punctuated
      symbols). `Some(v)` for a key of the table, `None` for any other string. */
  function Rename(ticker: string): Option<string> {
    match ticker
    case "-" => Some("LPRAX")
    case "8686" => Some("AFL")
    case "4XS" => Some("ESRX")
    case "AAZ" => Some("APC")
    case "AG4" => Some("AGN")
    case "BFB" => Some("BF-B")
    case "BF.B" => Some("BF-B")
    case "BF/B" => Some("BF-B")
    case "BF_B" => Some("BF-B")
    case "BLD WI" => Some("BLD")
    case "BRKB" => Some("BRK-B")
    case "BRK_B" => Some("BRK-B")
    case "CC WI" => Some("CC")
    case "DC7" => Some("DFS")
    case "DWDP" => Some("DD")
    case "FB" => Some("META")
    case "GGQ7" => Some("GOOG")
    case "GEC" => Some("GE")
    case "HNZ" => Some("KHC")
    case "INCO" => Some("INTC")
    case "LOM" => Some("LMT")
    case "LTD" => Some("LB")
    case "LTR" => Some("L")
    case "MPN" => Some("MPC")
    case "MYL" => Some("VTRS")
    case "MWZ" => Some("MET")
    case "MX4A" => Some("CME")
    case "NCRA" => Some("NWSA")
    case "NTH" => Some("NOC")
    case "PA9" => Some("TRV")
    case "QCI" => Some("QCOM")
    case "RN7" => Some("RF")
    case "RTN" => Some("RTX")
    case "SLBA" => Some("SLB")
    case "SYF-W" => Some("SYF")
    case "SWG" => Some("SCHW")
    case "UAC/C" => Some("UAA")
    case "UBSFT" => Some("UBSFY")
    case "USX1" => Some("X")
    case "UUM" => Some("UNM")
    case "VISA" => Some("V")
    case "VIAC" => Some("VIA")
    case "WLTW" => Some("WTW")
    case _ => None
  }

  /** Length of the maximal run of characters outside `A`-`Z` at the start
      of `s`: what one match of the pattern `[^A-Z]+` consumes there. */
  function NonUpperRun(s: string): (n: nat)
    ensures n <= |s|
    ensures forall i :: 0 <= i < n ==> !IsUpper(s[i])
    ensures n < |s| ==> IsUpper(s[n])
  {
    if s == [] || IsUpper(s[0]) then 0
    else
      var n := 1 + NonUpperRun(s[1..]);
      assert forall i :: 1 <= i < n ==> s[i] == s[1..][i - 1];
      n
  }

  /** Pattern `[^A-Z]+` replaced by the empty string throughout `s`: scanning
      left to right, an `A`-`Z` character is kept and each maximal run of
      other characters is removed. */
  function StripNonUpper(s: string): string
    decreases |s|
  {
    if s == [] then []
    else if IsUpper(s[0]) then [s[0]] + StripNonUpper(s[1..])
    else StripNonUpper(s[NonUpperRun(s)..])
  }

  /** What the substitution leaves: only `A`-`Z` characters, in their
      original order, each `A`-`Z` character of `s` kept as often as it
      occurs. */
  lemma {:induction false} StripNonUpperSpec(s: string)
    ensures AllUpper(StripNonUpper(s))
    ensures IsSubsequence(StripNonUpper(s), s)
    ensures forall c :: IsUpper(c) ==> multiset(StripNonUpper(s))[c] == multiset(s)[c]
    decreases |s|
  {
    var r := StripNonUpper(s);
    if s == [] {
    } else if IsUpper(s[0]) {
      var rest := StripNonUpper(s[1..]);
      StripNonUpperSpec(s[1..]);
      assert r == [s[0]] + rest;
      assert s == [s[0]] + s[1..];
      assert r[1..] == rest;
      assert AllUpper(r) by {
        forall i | 0 <= i < |r| ensures IsUpper(r[i]) {
          if i > 0 { assert r[i] == rest[i - 1]; }
        }
      }
    } else {
      var n := NonUpperRun(s);
      StripNonUpperSpec(s[n..]);
      SubsequenceOfSuffix(r, s, n);
      NonUpperPrefixCount(s, n);
    }
  }

  /** A subsequence of a suffix of `s` is a subsequence of `s`. */
  lemma {:induction false} SubsequenceOfSuffix(sub: string, s: string, n: nat)
    requires n <= |s| && IsSubsequence(sub, s[n..])
    ensures IsSubsequence(sub, s)
  {
    if n > 0 {
      assert s[1..][n - 1..] == s[n..];
      SubsequenceOfSuffix(sub, s[1..], n - 1);
    }
  }

  /** Dropping a prefix of characters outside `A`-`Z` keeps the number of
      occurrences of every `A`-`Z` character. */
  lemma NonUpperPrefixCount(s: string, n: nat)
    requires n <= |s|
    requires forall i :: 0 <= i < n ==> !IsUpper(s[i])
    ensures forall c :: IsUpper(c) ==> multiset(s[n..])[c] == multiset(s)[c]
  {
    assert s == s[..n] + s[n..];
    forall c | IsUpper(c)
      ensures multiset(s[..n])[c] == 0
    {
      assert forall i :: 0 <= i < n ==> s[..n][i] != c;
      assert c !in s[..n];
    }
  }

  /** change_ticker: the rename table takes precedence; any other ticker is
      filtered down to its `A`-`Z` characters. */
  function ChangeTicker(ticker: string): string {
    match Rename(ticker)
    case Some(renamed) => renamed
    case None => StripNonUpper(ticker)
  }

  /** A subsequence is never longer than the sequence it is taken from. */
  lemma {:induction false} SubsequenceLength(sub: string, s: string)
    requires IsSubsequence(sub, s)
    ensures |sub| <= |s|
  {
    if sub != [] {
      if sub[0] == s[0] && IsSubsequence(sub[1..], s[1..]) {
        SubsequenceLength(sub[1..], s[1..]);
      } else {
        SubsequenceLength(sub, s[1..]);
      }
    }
  }

  /** A key of the rename table gets its mapped value and is never
      filtered; any other ticker comes back as the in-order sequence of its
      `A`-`Z` characters, so never longer than it was. */
  lemma ChangeTickerSpec(ticker: string)
    ensures Rename(ticker).Some? ==> ChangeTicker(ticker) == Rename(ticker).value
    ensures Rename(ticker).None? ==>
              && AllUpper(ChangeTicker(ticker))
              && IsSubsequence(ChangeTicker(ticker), ticker)
              && (forall c :: IsUpper(c) ==> multiset(ChangeTicker(ticker))[c] == multiset(ticker)[c])
              && |ChangeTicker(ticker)| <= |ticker|
  {
    if Rename(ticker).None? {
      StripNonUpperSpec(ticker);
      SubsequenceLength(StripNonUpper(ticker), ticker);
    }
  }

  /** The filter leaves a string made only of `A`-`Z` unchanged. */
  lemma {:induction false} StripNonUpperKeepsUpper(s: string)
    requires AllUpper(s)
    ensures StripNonUpper(s) == s
  {
    if s != [] {
      assert AllUpper(s[1..]) by {
        forall i | 0 <= i < |s[1..]| ensures IsUpper(s[1..][i]) {
          assert s[1..][i] == s[i + 1];
        }
      }
      StripNonUpperKeepsUpper(s[1..]);
      assert s == [s[0]] + s[1..];
    }
  }

  /** Filtering twice is filtering once (unlike change_ticker as a whole). */
  lemma StripNonUpperIdempotent(s: string)
    ensures StripNonUpper(StripNonUpper(s)) == StripNonUpper(s)
  {
    StripNonUpperSpec(s);
    StripNonUpperKeepsUpper(StripNonUpper(s));
  }

  /** A subsequence holds each character at most as often as the whole. */
  lemma {:induction false} SubsequenceMultiset(sub: string, s: string)
    requires IsSubsequence(sub, s)
    ensures multiset(sub) <= multiset(s)
  {
    if sub != [] {
      assert s == [s[0]] + s[1..];
      if sub[0] == s[0] && IsSubsequence(sub[1..], s[1..]) {
        SubsequenceMultiset(sub[1..], s[1..]);
        assert sub == [sub[0]] + sub[1..];
      } else {
        SubsequenceMultiset(sub, s[1..]);
      }
    }
  }

  /** The contract of StripNonUpper determines its result: the only string
      of `A`-`Z` characters that is a subsequence of `s` and holds each
      `A`-`Z` character as often as `s` does is StripNonUpper(s). */
  lemma {:induction false} StripNonUpperUnique(s: string, r: string)
    requires AllUpper(r) && IsSubsequence(r, s)
    requires forall c :: IsUpper(c) ==> multiset(r)[c] == multiset(s)[c]
    ensures r == StripNonUpper(s)
    decreases |s|
  {
    if s == [] {
      assert r == [];
    } else {
      assert s == [s[0]] + s[1..];
      var tail := s[1..];
      if IsUpper(s[0]) {
        assert multiset(r)[s[0]] > 0;
        assert r != [];
        if r[0] == s[0] && IsSubsequence(r[1..], tail) {
          assert r == [r[0]] + r[1..];
          assert AllUpper(r[1..]) by {
            forall i | 0 <= i < |r[1..]| ensures IsUpper(r[1..][i]) {
              assert r[1..][i] == r[i + 1];
            }
          }
          StripNonUpperUnique(tail, r[1..]);
        } else {
          SubsequenceMultiset(r, tail);
          assert false;
        }
      } else {
        assert IsSubsequence(r, tail) by {
          if r != [] { assert IsUpper(r[0]); }
        }
        assert forall c :: IsUpper(c) ==> multiset(r)[c] == multiset(tail)[c];
        StripNonUpperUnique(tail, r);
        StripSkipsNonUpper(s);
      }
    }
  }

  /** A leading character outside `A`-`Z` is dropped by the filter. */
  lemma StripSkipsNonUpper(s: string)
    requires s != [] && !IsUpper(s[0])
    ensures StripNonUpper(s) == StripNonUpper(s[1..])
  {
    var n := NonUpperRun(s);
    if n > 1 {
      assert NonUpperRun(s[1..]) == n - 1;
      assert s[1..][n - 1..] == s[n..];
    }
  }

  /** A ticker that is not in the table and is already made of `A`-`Z`
      comes back unchanged. */
  lemma UpperTickerUnchanged(ticker: string)
    requires Rename(ticker).None? && AllUpper(ticker)
    ensures ChangeTicker(ticker) == ticker
  {
    StripNonUpperKeepsUpper(ticker);
  }

  /** The filter removes everything exactly when `s` has no `A`-`Z` character. */
  lemma StripNonUpperEmptyIff(s: string)
    ensures StripNonUpper(s) == [] <==> forall i :: 0 <= i < |s| ==> !IsUpper(s[i])
  {
    var r := StripNonUpper(s);
    StripNonUpperSpec(s);
    if r != [] {
      assert IsUpper(r[0]);
      assert r[0] in multiset(r);
      assert r[0] in multiset(s);
      var i :| 0 <= i < |s| && s[i] == r[0];
    }
    forall i | 0 <= i < |s| && IsUpper(s[i]) ensures r != [] {
      assert s[i] in multiset(s);
      assert multiset(r)[s[i]] == multiset(s)[s[i]];
    }
  }

  /** Every value of the rename table is a non-empty symbol. */
  lemma RenameValuesNonEmpty()
    ensures forall t :: Rename(t).Some? ==> Rename(t).value != []
  {
  }

  /** change_ticker returns the empty string exactly for a ticker that is
      not in the table and has no `A`-`Z` character; in particular never for
      a table key such as "-". */
  lemma ChangeTickerEmptyIff(ticker: string)
    ensures ChangeTicker(ticker) == [] <==>
              Rename(ticker).None? && forall i :: 0 <= i < |ticker| ==> !IsUpper(ticker[i])
  {
    RenameValuesNonEmpty();
    StripNonUpperEmptyIff(ticker);
  }

  /** Subsequences of two strings concatenate to a subsequence of their
      concatenation. */
  lemma {:induction false} SubsequenceAppend(x: string, a: string, y: string, b: string)
    requires IsSubsequence(x, a) && IsSubsequence(y, b)
    ensures IsSubsequence(x + y, a + b)
    decreases |a|
  {
    if x == [] {
      assert x + y == y;
      assert (a + b)[|a|..] == b;
      SubsequenceOfSuffix(y, a + b, |a|);
    } else if x[0] == a[0] && IsSubsequence(x[1..], a[1..]) {
      SubsequenceAppend(x[1..], a[1..], y, b);
      assert (x + y)[1..] == x[1..] + y;
      assert (a + b)[1..] == a[1..] + b;
    } else {
      SubsequenceAppend(x, a[1..], y, b);
      assert (a + b)[1..] == a[1..] + b;
    }
  }

  /** Joining two strings of `A`-`Z` characters gives one. */
  lemma AllUpperAppend(x: string, y: string)
    requires AllUpper(x) && AllUpper(y)
    ensures AllUpper(x + y)
  {
    forall i | 0 <= i < |x + y| ensures IsUpper((x + y)[i]) {
      if i >= |x| { assert (x + y)[i] == y[i - |x|]; }
    }
  }

  /** The filter distributes over concatenation: a run of characters
      outside `A`-`Z` that straddles the join is removed all the same. */
  lemma StripNonUpperAppend(a: string, b: string)
    ensures StripNonUpper(a + b) == StripNonUpper(a) + StripNonUpper(b)
  {
    var x, y := StripNonUpper(a), StripNonUpper(b);
    var r := x + y;
    StripNonUpperSpec(a);
    StripNonUpperSpec(b);
    AllUpperAppend(x, y);
    assert multiset(r) == multiset(x) + multiset(y);
    assert multiset(a + b) == multiset(a) + multiset(b);
    forall c | IsUpper(c) ensures multiset(r)[c] == multiset(a + b)[c] {
      assert multiset(x)[c] == multiset(a)[c];
      assert multiset(y)[c] == multiset(b)[c];
    }
    SubsequenceAppend(x, a, y, b);
    StripNonUpperUnique(a + b, r);
  }

}
