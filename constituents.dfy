/** Survivor and union bookkeeping over an index's constituent history: a
    sequence of holding snapshots, each a list of (ticker, name) pairs, whose
    tickers are normalised with change_ticker before they are compared. */
module Constituents {
  import opened Tickers

  /** One holding of a snapshot: (ticker, name). */
  type Holding = (string, string)

  /** The holdings of the index on one date. */
  type Snapshot = seq<Holding>

  /** `[change_ticker(h[0]) for h in snapshot]`: the normalised ticker of
      every holding, in order, duplicates kept. */
  function NormalisedTickers(snapshot: Snapshot): seq<string> {
    seq(|snapshot|, i requires 0 <= i < |snapshot| => ChangeTicker(snapshot[i].0))
  }

  /** `set(xs)`: the distinct elements of a list. */
  function Elements(xs: seq<string>): set<string> {
    set x | x in xs
  }

  /** The set of normalised tickers of one snapshot. */
  function TickerSet(snapshot: Snapshot): set<string> {
    Elements(NormalisedTickers(snapshot))
  }

  /** Some holding of `snapshot` normalises to `t`. */
  ghost predicate Lists(snapshot: Snapshot, t: string) {
    exists i :: 0 <= i < |snapshot| && ChangeTicker(snapshot[i].0) == t
  }

  /** Tickers listed in every snapshot of the window. */
  ghost function Survivors(window: seq<Snapshot>): set<string>
    requires |window| > 0
  {
    set t | t in TickerSet(window[0]) && forall k :: 0 <= k < |window| ==> t in TickerSet(window[k])
  }

  /** Tickers listed in at least one snapshot of the window. */
  ghost function EverListed(window: seq<Snapshot>): set<string> {
    set k, t | 0 <= k < |window| && t in TickerSet(window[k]) :: t
  }

  /** A ticker is in a snapshot's set exactly when some holding normalises to it. */
  lemma TickerSetListed(snapshot: Snapshot, t: string)
    ensures t in TickerSet(snapshot) <==> Lists(snapshot, t)
  {
    var xs := NormalisedTickers(snapshot);
    if t in xs {
      var i :| 0 <= i < |xs| && xs[i] == t;
      assert ChangeTicker(snapshot[i].0) == t;
    }
    if Lists(snapshot, t) {
      var i :| 0 <= i < |snapshot| && ChangeTicker(snapshot[i].0) == t;
      assert xs[i] == t;
    }
  }

  /** simple_surviving_stocks: the normalised tickers held both in the first
      and in the last snapshot of the history. */
  function SimpleSurvivingStocks(history: seq<Snapshot>): (survivors: set<string>)
    requires |history| > 0
    ensures forall t :: t in survivors <==> Lists(history[0], t) && Lists(history[|history| - 1], t)
  {
    var initial := NormalisedTickers(history[0]);
    var final := NormalisedTickers(history[|history| - 1]);
    var survivors := Elements(initial) * Elements(final);
    assert forall t :: t in survivors <==> Lists(history[0], t) && Lists(history[|history| - 1], t) by {
      forall t ensures t in survivors <==> Lists(history[0], t) && Lists(history[|history| - 1], t) {
        TickerSetListed(history[0], t);
        TickerSetListed(history[|history| - 1], t);
      }
    }
    survivors
  }

  /** Appending a snapshot to a window intersects its survivors with the
      new snapshot's tickers. */
  lemma SurvivorsSnoc(window: seq<Snapshot>, snapshot: Snapshot)
    requires |window| > 0
    ensures Survivors(window + [snapshot]) == Survivors(window) * TickerSet(snapshot)
  {
    var w := window + [snapshot];
    forall t | t in Survivors(window) * TickerSet(snapshot)
      ensures t in Survivors(w)
    {
      forall k | 0 <= k < |w| ensures t in TickerSet(w[k]) {
        if k < |window| { assert w[k] == window[k]; }
      }
    }
    forall t | t in Survivors(w)
      ensures t in Survivors(window) * TickerSet(snapshot)
    {
      assert t in TickerSet(w[|window|]);
      forall k | 0 <= k < |window| ensures t in TickerSet(window[k]) {
        assert w[k] == window[k];
      }
    }
  }

  /** Appending a snapshot to a window adds its tickers to those ever listed. */
  lemma EverListedSnoc(window: seq<Snapshot>, snapshot: Snapshot)
    ensures EverListed(window + [snapshot]) == EverListed(window) + TickerSet(snapshot)
  {
    var w := window + [snapshot];
    forall t | t in EverListed(window) ensures t in EverListed(w) {
      var k :| 0 <= k < |window| && t in TickerSet(window[k]);
      assert w[k] == window[k];
    }
    forall t | t in TickerSet(snapshot) ensures t in EverListed(w) {
      assert w[|window|] == snapshot;
    }
  }

  /** The survivors and the union of a one-snapshot window are that
      snapshot's tickers. */
  lemma SingleSnapshotWindow(window: seq<Snapshot>)
    requires |window| == 1
    ensures Survivors(window) == TickerSet(window[0])
    ensures EverListed(window) == TickerSet(window[0])
  {
    forall t | t in EverListed(window) ensures t in TickerSet(window[0]) {
      var k :| 0 <= k < |window| && t in TickerSet(window[k]);
    }
  }

  /** The list concatenation the loop performs becomes a set union. */
  lemma ElementsAppend(xs: seq<string>, ys: seq<string>)
    ensures Elements(xs + ys) == Elements(xs) + Elements(ys)
  {
    forall x | x in xs + ys ensures x in xs || x in ys {
      var i :| 0 <= i < |xs + ys| && (xs + ys)[i] == x;
      if i >= |xs| { assert ys[i - |xs|] == x; }
    }
  }

  /** all_times_stocks over a window already sliced to the requested dates:
      returns the tickers present in every snapshot and the tickers present
      in any snapshot. The first snapshot seeds both results and the loop
      skips index 0, as the source does. */
  method AllTimesStocks(window: seq<Snapshot>) returns (symbols: set<string>, allSymbols: set<string>)
    requires |window| > 0
    ensures symbols == Survivors(window)
    ensures allSymbols == EverListed(window)
    ensures symbols <= allSymbols
    ensures |window| == 1 ==> symbols == allSymbols == TickerSet(window[0])
  {
    var first := NormalisedTickers(window[0]);
    var all := first;
    symbols := Elements(first);
    SingleSnapshotWindow(window[..1]);
    for i := 0 to |window|
      invariant symbols == Survivors(window[..if i == 0 then 1 else i])
      invariant Elements(all) == EverListed(window[..if i == 0 then 1 else i])
    {
      if i > 0 {
        var sym := NormalisedTickers(window[i]);
        ElementsAppend(all, sym);
        all := all + sym;
        symbols := symbols * Elements(sym);
        assert window[..i + 1] == window[..i] + [window[i]];
        SurvivorsSnoc(window[..i], window[i]);
        EverListedSnoc(window[..i], window[i]);
      }
    }
    assert window[..|window|] == window;
    allSymbols := Elements(all);
    SurvivorsWithinEverListed(window);
  }

  /** Every survivor was listed at some point. */
  lemma SurvivorsWithinEverListed(window: seq<Snapshot>)
    requires |window| > 0
    ensures Survivors(window) <= EverListed(window)
  {
    forall t | t in Survivors(window) ensures t in EverListed(window) {
      assert t in TickerSet(window[0]);
    }
  }

  /** A ticker held throughout the window is held at both of its ends, so
      the all-times survivors are among the simple survivors; with at most
      two snapshots the two notions coincide. */
  lemma SurvivorsWithinSimple(window: seq<Snapshot>)
    requires |window| > 0
    ensures Survivors(window) <= SimpleSurvivingStocks(window)
    ensures |window| <= 2 ==> Survivors(window) == SimpleSurvivingStocks(window)
  {
    var last := |window| - 1;
    var ends := TickerSet(window[0]) * TickerSet(window[last]);
    assert SimpleSurvivingStocks(window) == ends;
    forall t | t in Survivors(window) ensures t in ends {
      assert t in TickerSet(window[last]);
    }
    if |window| <= 2 {
      forall t | t in ends ensures t in Survivors(window) {
        forall k | 0 <= k < |window| ensures t in TickerSet(window[k]) {
          assert k == 0 || k == last;
        }
      }
    }
  }

  /** Two snapshots whose holdings carry the same tickers, position by
      position, whatever their names. */
  ghost predicate SameTickers(a: Snapshot, b: Snapshot) {
    |a| == |b| && forall i :: 0 <= i < |a| ==> a[i].0 == b[i].0
  }

  /** Snapshots with the same tickers normalise to the same list. */
  lemma SameTickersSameNormalised(a: Snapshot, b: Snapshot)
    requires SameTickers(a, b)
    ensures NormalisedTickers(a) == NormalisedTickers(b)
  {
    var xs, ys := NormalisedTickers(a), NormalisedTickers(b);
    forall i | 0 <= i < |xs| ensures xs[i] == ys[i] {
      assert a[i].0 == b[i].0;
    }
  }

  /** Windows whose snapshots have the same ticker sets, position by
      position, have the same survivors and the same union. */
  lemma SameTickerSetsSameResults(window: seq<Snapshot>, other: seq<Snapshot>)
    requires |window| == |other| > 0
    requires forall k :: 0 <= k < |window| ==> TickerSet(window[k]) == TickerSet(other[k])
    ensures Survivors(window) == Survivors(other)
    ensures EverListed(window) == EverListed(other)
  {
    forall t | t in EverListed(window) ensures t in EverListed(other) {
      var k :| 0 <= k < |window| && t in TickerSet(window[k]);
      assert t in TickerSet(other[k]);
    }
    forall t | t in EverListed(other) ensures t in EverListed(window) {
      var k :| 0 <= k < |other| && t in TickerSet(other[k]);
      assert t in TickerSet(window[k]);
    }
  }

  /** Only the first component of each holding matters: renaming the
      companies changes none of the three results. */
  lemma NamesIgnored(window: seq<Snapshot>, other: seq<Snapshot>)
    requires |window| == |other| > 0
    requires forall k :: 0 <= k < |window| ==> SameTickers(window[k], other[k])
    ensures SimpleSurvivingStocks(window) == SimpleSurvivingStocks(other)
    ensures Survivors(window) == Survivors(other)
    ensures EverListed(window) == EverListed(other)
  {
    forall k | 0 <= k < |window|
      ensures TickerSet(window[k]) == TickerSet(other[k])
    {
      SameTickersSameNormalised(window[k], other[k]);
    }
    var last := |window| - 1;
    assert SimpleSurvivingStocks(window) == TickerSet(window[0]) * TickerSet(window[last]);
    assert SimpleSurvivingStocks(other) == TickerSet(other[0]) * TickerSet(other[last]);
    SameTickerSetsSameResults(window, other);
  }

  /** The survivors and the union depend only on which snapshots the
      window holds, not on their order or repetition. */
  lemma WindowOrderIrrelevant(window: seq<Snapshot>, other: seq<Snapshot>)
    requires |window| > 0 && |other| > 0
    requires forall s :: s in window <==> s in other
    ensures Survivors(window) == Survivors(other)
    ensures EverListed(window) == EverListed(other)
  {
    SurvivorsAsAll(window);
    SurvivorsAsAll(other);
    EverListedAsAny(window);
    EverListedAsAny(other);
  }

  /** Survivors, stated over the snapshots the window holds. */
  lemma SurvivorsAsAll(window: seq<Snapshot>)
    requires |window| > 0
    ensures forall t :: t in Survivors(window) <==> forall s :: s in window ==> t in TickerSet(s)
  {
    forall t | forall s :: s in window ==> t in TickerSet(s)
      ensures t in Survivors(window)
    {
      assert window[0] in window;
      forall k | 0 <= k < |window| ensures t in TickerSet(window[k]) {
        assert window[k] in window;
      }
    }
  }

  /** EverListed, stated over the snapshots the window holds. */
  lemma EverListedAsAny(window: seq<Snapshot>)
    ensures forall t :: t in EverListed(window) <==> exists s :: s in window && t in TickerSet(s)
  {
    forall t | exists s :: s in window && t in TickerSet(s)
      ensures t in EverListed(window)
    {
      var s :| s in window && t in TickerSet(s);
      var k :| 0 <= k < |window| && window[k] == s;
    }
  }
}
