/** The watchlist of App.tsx and the four state updaters that change it: toggling a code,
    setting a holding's quantity or average cost, merging an imported JSON list, and merging the
    holdings read off a broker screenshot. Each updater is the pure function React is handed;
    the clock value `Date.now()` is a parameter. */
module Portfolio {
  import opened Maybe

  datatype Market = AShare | UsStock | HkStock

  /** `PortfolioItem` of types.ts; the optional fields are `Option`s. */
  datatype PortfolioItem = PortfolioItem(
    code: string,
    market: Market,
    addedAt: int,
    name: Option<string>,
    quantity: Option<real>,
    avgCost: Option<real>)

  /** A holding as the screenshot reader returns it. */
  datatype Holding = Holding(
    code: string,
    name: Option<string>,
    quantity: Option<real>,
    avgCost: Option<real>)

  predicate HasCode(items: seq<PortfolioItem>, code: string) {
    exists k | 0 <= k < |items| :: items[k].code == code
  }

  /** No two entries share a code. */
  predicate UniqueCodes(items: seq<PortfolioItem>) {
    forall i, j | 0 <= i < j < |items| :: items[i].code != items[j].code
  }

  lemma HasCodeAppend(a: seq<PortfolioItem>, b: seq<PortfolioItem>, code: string)
    ensures HasCode(a + b, code) <==> HasCode(a, code) || HasCode(b, code)
  {
    if HasCode(a + b, code) {
      var k :| 0 <= k < |a + b| && (a + b)[k].code == code;
      if k >= |a| {
        assert b[k - |a|].code == code;
      }
    }
    if HasCode(a, code) {
      var k :| 0 <= k < |a| && a[k].code == code;
      assert (a + b)[k].code == code;
    }
    if HasCode(b, code) {
      var k :| 0 <= k < |b| && b[k].code == code;
      assert (a + b)[|a| + k].code == code;
    }
  }

  // ---------------------------------------------------------------------------------------
  // Toggle

  /** `prev.filter(p => p.code !== code)` */
  function RemoveCode(items: seq<PortfolioItem>, code: string): (r: seq<PortfolioItem>)
    ensures |r| <= |items|
    ensures !HasCode(r, code)
  {
    if |items| == 0 then []
    else
      var rest := RemoveCode(items[..|items| - 1], code);
      var last := items[|items| - 1];
      if last.code == code then rest
      else
        assert !HasCode([last], code);
        HasCodeAppend(rest, [last], code);
        rest + [last]
  }

  /** Removal works piece by piece: the entries of other codes keep their order. */
  lemma {:induction false} RemoveCodeAppend(a: seq<PortfolioItem>, b: seq<PortfolioItem>, code: string)
    ensures RemoveCode(a + b, code) == RemoveCode(a, code) + RemoveCode(b, code)
    decreases |b|
  {
    if |b| == 0 {
      assert a + b == a;
    } else {
      var init, last := b[..|b| - 1], b[|b| - 1];
      assert (a + b)[..|a + b| - 1] == a + init;
      assert (a + b)[|a + b| - 1] == last;
      RemoveCodeAppend(a, init, code);
      var ra, ri := RemoveCode(a, code), RemoveCode(init, code);
      assert RemoveCode(a + init, code) == ra + ri;
      if last.code != code {
        assert RemoveCode(a + b, code) == ra + ri + [last];
        assert RemoveCode(b, code) == ri + [last];
        assert ra + ri + [last] == ra + (ri + [last]);
      }
    }
  }

  /** Removing a code that is not there changes nothing. */
  lemma {:induction false} RemoveCodeAbsent(items: seq<PortfolioItem>, code: string)
    requires !HasCode(items, code)
    ensures RemoveCode(items, code) == items
    decreases |items|
  {
    if |items| > 0 {
      var init := items[..|items| - 1];
      forall k | 0 <= k < |init| ensures init[k].code != code {
        assert init[k] == items[k];
      }
      RemoveCodeAbsent(init, code);
      assert items == init + [items[|items| - 1]];
    }
  }

  /** The entry `toggleWatchlist` appends. */
  function NewEntry(code: string, name: Option<string>, market: Market, now: int): PortfolioItem {
    PortfolioItem(code, market, now, name, None, None)
  }

  /** `toggleWatchlist`: a code on the list is removed, every entry of it; a code not on it is
      appended once at the end. */
  function Toggle(items: seq<PortfolioItem>, code: string, name: Option<string>, market: Market,
                  now: int): (r: seq<PortfolioItem>)
    ensures HasCode(items, code) ==> r == RemoveCode(items, code) && |r| < |items|
    ensures !HasCode(items, code) ==> r == items + [NewEntry(code, name, market, now)]
  {
    if HasCode(items, code) then
      var k :| 0 <= k < |items| && items[k].code == code;
      RemoveCodeShrinks(items, code, k);
      RemoveCode(items, code)
    else items + [NewEntry(code, name, market, now)]
  }

  /** Removing a code that is there makes the list shorter. */
  lemma {:induction false} RemoveCodeShrinks(items: seq<PortfolioItem>, code: string, k: int)
    requires 0 <= k < |items| && items[k].code == code
    ensures |RemoveCode(items, code)| < |items|
    decreases |items|
  {
    var init := items[..|items| - 1];
    if k < |items| - 1 {
      assert init[k].code == code;
      RemoveCodeShrinks(init, code, k);
    }
  }

  /** Toggling a code that is not on the list twice gives the list back. */
  lemma ToggleTwiceRestores(items: seq<PortfolioItem>, code: string, name: Option<string>,
                            market: Market, now: int, later: int)
    requires !HasCode(items, code)
    ensures Toggle(Toggle(items, code, name, market, now), code, name, market, later) == items
  {
    var added := items + [NewEntry(code, name, market, now)];
    assert added[|items|].code == code;
    RemoveCodeAppend(items, [NewEntry(code, name, market, now)], code);
    RemoveCodeAbsent(items, code);
    assert RemoveCode([NewEntry(code, name, market, now)], code) == [];
  }

  /** A list with distinct codes keeps them distinct when toggled. */
  lemma {:induction false} ToggleKeepsUnique(items: seq<PortfolioItem>, code: string,
                                             name: Option<string>, market: Market, now: int)
    requires UniqueCodes(items)
    ensures UniqueCodes(Toggle(items, code, name, market, now))
  {
    if HasCode(items, code) {
      RemoveCodeSublist(items, code);
    }
  }

  /** Every entry left after a removal is an entry of the list, and distinct codes stay
      distinct. */
  lemma {:induction false} RemoveCodeSublist(items: seq<PortfolioItem>, code: string)
    requires UniqueCodes(items)
    ensures UniqueCodes(RemoveCode(items, code))
    ensures forall k | 0 <= k < |RemoveCode(items, code)| :: RemoveCode(items, code)[k] in items
    decreases |items|
  {
    if |items| > 0 {
      var init := items[..|items| - 1];
      var last := items[|items| - 1];
      RemoveCodeSublist(init, code);
      var rest := RemoveCode(init, code);
      if last.code != code {
        forall k | 0 <= k < |rest| ensures rest[k].code != last.code {
          var m :| 0 <= m < |init| && init[m] == rest[k];
          assert items[m] == init[m];
        }
      }
    }
  }

  // ---------------------------------------------------------------------------------------
  // Field update

  datatype Field = Quantity | AvgCost

  /** `{ ...p, [field]: value }` */
  function WithField(p: PortfolioItem, field: Field, value: real): PortfolioItem {
    match field
    case Quantity => p.(quantity := Some(value))
    case AvgCost => p.(avgCost := Some(value))
  }

  /** `updatePortfolioItem`: every entry of the code gets the value in the named field; nothing
      else changes. */
  function UpdateField(items: seq<PortfolioItem>, code: string, field: Field, value: real)
    : (r: seq<PortfolioItem>)
    ensures |r| == |items|
    ensures forall k | 0 <= k < |items| && items[k].code != code :: r[k] == items[k]
    ensures forall k | 0 <= k < |items| && items[k].code == code ::
              && r[k].code == items[k].code && r[k].market == items[k].market
              && r[k].addedAt == items[k].addedAt && r[k].name == items[k].name
              && (field == Quantity ==> r[k].quantity == Some(value) && r[k].avgCost == items[k].avgCost)
              && (field == AvgCost ==> r[k].avgCost == Some(value) && r[k].quantity == items[k].quantity)
  {
    seq(|items|, k requires 0 <= k < |items| =>
          if items[k].code == code then WithField(items[k], field, value) else items[k])
  }

  // ---------------------------------------------------------------------------------------
  // JSON import

  /** One step of the import loop: the item is pushed unless its code is already there. */
  function AddIfNew(combined: seq<PortfolioItem>, item: PortfolioItem): (r: seq<PortfolioItem>)
    ensures HasCode(combined, item.code) ==> r == combined
    ensures !HasCode(combined, item.code) ==> r == combined + [item]
  {
    if HasCode(combined, item.code) then combined else combined + [item]
  }

  /** `handleImportPortfolio`'s updater: the imported items in order, each added only when no
      entry, earlier imports included, has its code. */
  function ImportMerge(prev: seq<PortfolioItem>, imported: seq<PortfolioItem>)
    : (r: seq<PortfolioItem>)
    ensures |prev| <= |r| <= |prev| + |imported|
    decreases |imported|
  {
    if |imported| == 0 then prev else ImportMerge(AddIfNew(prev, imported[0]), imported[1..])
  }

  /** The import keeps the previous list as it is, in front. */
  lemma {:induction false} ImportKeepsPrefix(prev: seq<PortfolioItem>, imported: seq<PortfolioItem>)
    ensures ImportMerge(prev, imported)[..|prev|] == prev
    decreases |imported|
  {
    if |imported| > 0 {
      var next := AddIfNew(prev, imported[0]);
      ImportKeepsPrefix(next, imported[1..]);
      assert next[..|prev|] == prev;
      assert ImportMerge(prev, imported)[..|prev|] == ImportMerge(next, imported[1..])[..|next|][..|prev|];
    }
  }

  /** Pushing only new codes keeps the codes distinct. */
  lemma AddIfNewKeepsUnique(combined: seq<PortfolioItem>, item: PortfolioItem)
    requires UniqueCodes(combined)
    ensures UniqueCodes(AddIfNew(combined, item))
  {
    if !HasCode(combined, item.code) {
      var r := combined + [item];
      forall i, j | 0 <= i < j < |r| ensures r[i].code != r[j].code {
        if j == |combined| {
          assert r[i] == combined[i];
        }
      }
    }
  }

  /** If the previous list has distinct codes, so has the merged list. */
  lemma {:induction false} ImportKeepsUnique(prev: seq<PortfolioItem>, imported: seq<PortfolioItem>)
    requires UniqueCodes(prev)
    ensures UniqueCodes(ImportMerge(prev, imported))
    decreases |imported|
  {
    if |imported| > 0 {
      AddIfNewKeepsUnique(prev, imported[0]);
      ImportKeepsUnique(AddIfNew(prev, imported[0]), imported[1..]);
    }
  }

  /** After the import every code of the file is on the list. */
  lemma {:induction false} ImportCoversImported(prev: seq<PortfolioItem>, imported: seq<PortfolioItem>)
    ensures forall k | 0 <= k < |imported| :: HasCode(ImportMerge(prev, imported), imported[k].code)
    decreases |imported|
  {
    if |imported| > 0 {
      var next := AddIfNew(prev, imported[0]);
      ImportCoversImported(next, imported[1..]);
      assert HasCode(next, imported[0].code) by {
        if !HasCode(prev, imported[0].code) {
          assert next[|prev|] == imported[0];
        }
      }
      ImportKeepsCodes(next, imported[1..], imported[0].code);
      forall k | 1 <= k < |imported|
        ensures HasCode(ImportMerge(prev, imported), imported[k].code)
      {
        assert imported[1..][k - 1] == imported[k];
      }
    }
  }

  /** A code on the list stays on it through the import. */
  lemma {:induction false} ImportKeepsCodes(prev: seq<PortfolioItem>, imported: seq<PortfolioItem>,
                                            code: string)
    requires HasCode(prev, code)
    ensures HasCode(ImportMerge(prev, imported), code)
    decreases |imported|
  {
    if |imported| > 0 {
      var next := AddIfNew(prev, imported[0]);
      var k :| 0 <= k < |prev| && prev[k].code == code;
      assert next[k] == prev[k];
      ImportKeepsCodes(next, imported[1..], code);
    }
  }

  /** Every entry the import adds comes from the file. */
  lemma {:induction false} ImportAddsOnlyImported(prev: seq<PortfolioItem>, imported: seq<PortfolioItem>)
    ensures forall k | |prev| <= k < |ImportMerge(prev, imported)| ::
              ImportMerge(prev, imported)[k] in imported
    decreases |imported|
  {
    if |imported| > 0 {
      var next := AddIfNew(prev, imported[0]);
      ImportAddsOnlyImported(next, imported[1..]);
      ImportKeepsPrefix(next, imported[1..]);
      var r := ImportMerge(prev, imported);
      forall k | |prev| <= k < |r| ensures r[k] in imported {
        if k < |next| {
          assert r[k] == r[..|next|][k] == next[k] == imported[0];
        } else {
          assert r[k] in imported[1..];
        }
      }
    }
  }

  // ---------------------------------------------------------------------------------------
  // Screenshot merge

  /** `combined.findIndex(p => p.code === code)` */
  function FindIndex(items: seq<PortfolioItem>, code: string): (r: int)
    ensures -1 <= r < |items|
    ensures r >= 0 ==> items[r].code == code
    ensures r == -1 <==> !HasCode(items, code)
    ensures forall k | 0 <= k < r :: items[k].code != code
  {
    if |items| == 0 then -1
    else if items[0].code == code then 0
    else
      var rest := FindIndex(items[1..], code);
      assert HasCode(items, code) ==> HasCode(items[1..], code) by {
        if HasCode(items, code) {
          var k :| 0 <= k < |items| && items[k].code == code;
          assert items[1..][k - 1].code == code;
        }
      }
      if rest == -1 then -1 else rest + 1
  }

  /** One step of the screenshot loop: a known code gets the holding's quantity and average cost
      (absent ones included), an unknown code is pushed as a new entry. */
  function MergeHolding(combined: seq<PortfolioItem>, h: Holding, market: Market, now: int)
    : (r: seq<PortfolioItem>)
    ensures |r| == |combined| || |r| == |combined| + 1
    ensures |r| == |combined| + 1 <==> !HasCode(combined, h.code)
    ensures forall k | 0 <= k < |combined| :: SameEntryBesidesHolding(r[k], combined[k])
    ensures |r| == |combined| + 1 ==>
              r[|combined|] == PortfolioItem(h.code, market, now, h.name, h.quantity, h.avgCost)
  {
    var idx := FindIndex(combined, h.code);
    if idx != -1 then
      combined[idx := combined[idx].(quantity := h.quantity, avgCost := h.avgCost)]
    else combined + [PortfolioItem(h.code, market, now, h.name, h.quantity, h.avgCost)]
  }

  /** `handleScreenshotImport`'s updater: the holdings merged one after another. */
  function MergeScreenshot(prev: seq<PortfolioItem>, holdings: seq<Holding>, market: Market,
                           now: int): (r: seq<PortfolioItem>)
    ensures |prev| <= |r| <= |prev| + |holdings|
    decreases |holdings|
  {
    if |holdings| == 0 then prev
    else MergeScreenshot(MergeHolding(prev, holdings[0], market, now), holdings[1..], market, now)
  }

  /** Entry `k` of `r` is entry `k` of `prev` with at most its quantity and average cost
      changed. */
  predicate SameEntryBesidesHolding(p: PortfolioItem, q: PortfolioItem) {
    p.code == q.code && p.market == q.market && p.addedAt == q.addedAt && p.name == q.name
  }

  /** The merge never reorders, drops or renames an entry already on the list: only quantity
      and average cost change. */
  lemma {:induction false} ScreenshotKeepsEntries(prev: seq<PortfolioItem>, holdings: seq<Holding>,
                                                  market: Market, now: int)
    ensures forall k | 0 <= k < |prev| ::
              SameEntryBesidesHolding(MergeScreenshot(prev, holdings, market, now)[k], prev[k])
    decreases |holdings|
  {
    if |holdings| > 0 {
      var next := MergeHolding(prev, holdings[0], market, now);
      ScreenshotKeepsEntries(next, holdings[1..], market, now);
    }
  }

  /** An entry whose code no later holding mentions is left exactly as it is. */
  lemma {:induction false} ScreenshotKeepsUntouched(prev: seq<PortfolioItem>, holdings: seq<Holding>,
                                                    market: Market, now: int, k: int)
    requires 0 <= k < |prev|
    requires forall j | 0 <= j < |holdings| :: holdings[j].code != prev[k].code
    ensures MergeScreenshot(prev, holdings, market, now)[k] == prev[k]
    decreases |holdings|
  {
    if |holdings| > 0 {
      var next := MergeHolding(prev, holdings[0], market, now);
      assert next[k] == prev[k];
      ScreenshotKeepsUntouched(next, holdings[1..], market, now, k);
    }
  }

  /** A merge step keeps codes distinct. */
  lemma MergeHoldingKeepsUnique(combined: seq<PortfolioItem>, h: Holding, market: Market, now: int)
    requires UniqueCodes(combined)
    ensures UniqueCodes(MergeHolding(combined, h, market, now))
    ensures HasCode(MergeHolding(combined, h, market, now), h.code)
  {
    var r := MergeHolding(combined, h, market, now);
    var idx := FindIndex(combined, h.code);
    if idx == -1 {
      forall i, j | 0 <= i < j < |r| ensures r[i].code != r[j].code {
        if j == |combined| {
          assert r[i] == combined[i];
        }
      }
      assert r[|combined|].code == h.code;
    } else {
      assert r[idx].code == h.code;
    }
  }

  /** With distinct codes before, the merged list has distinct codes and holds every code of
      the screenshot. */
  lemma {:induction false} ScreenshotKeepsUniqueAndCovers(prev: seq<PortfolioItem>,
                                                          holdings: seq<Holding>,
                                                          market: Market, now: int)
    requires UniqueCodes(prev)
    ensures UniqueCodes(MergeScreenshot(prev, holdings, market, now))
    ensures forall j | 0 <= j < |holdings| ::
              HasCode(MergeScreenshot(prev, holdings, market, now), holdings[j].code)
    decreases |holdings|
  {
    if |holdings| > 0 {
      var next := MergeHolding(prev, holdings[0], market, now);
      MergeHoldingKeepsUnique(prev, holdings[0], market, now);
      ScreenshotKeepsUniqueAndCovers(next, holdings[1..], market, now);
      var r := MergeScreenshot(prev, holdings, market, now);
      var k := FindIndex(next, holdings[0].code);
      ScreenshotKeepsEntries(next, holdings[1..], market, now);
      assert r[k].code == holdings[0].code;
      forall j | 1 <= j < |holdings| ensures HasCode(r, holdings[j].code) {
        assert holdings[1..][j - 1] == holdings[j];
      }
    }
  }

  /** Holding `j` is the first in the screenshot with its code. */
  predicate FirstOfCode(holdings: seq<Holding>, j: int) {
    0 <= j < |holdings| && forall i | 0 <= i < j :: holdings[i].code != holdings[j].code
  }

  /** An appended entry was pushed by the first holding of a code not on the list before: it
      carries that holding's code and name, the current market and the current time. */
  predicate PushedBy(e: PortfolioItem, prev: seq<PortfolioItem>, holdings: seq<Holding>,
                     market: Market, now: int) {
    e.market == market && e.addedAt == now && !HasCode(prev, e.code) &&
    exists j | 0 <= j < |holdings| && FirstOfCode(holdings, j) ::
      e.code == holdings[j].code && e.name == holdings[j].name
  }

  /** Every entry after the previous list was pushed by a holding. */
  predicate AllPushed(r: seq<PortfolioItem>, prev: seq<PortfolioItem>, holdings: seq<Holding>,
                      market: Market, now: int) {
    forall k | |prev| <= k < |r| :: PushedBy(r[k], prev, holdings, market, now)
  }

  /** Every entry the merge appends is a new code of the screenshot, with the name of the first
      holding of that code, the market in use and the time of the merge; later holdings of
      the same code change only quantity and average cost. */
  lemma {:induction false} ScreenshotNewEntries(prev: seq<PortfolioItem>, holdings: seq<Holding>,
                                                market: Market, now: int)
    ensures AllPushed(MergeScreenshot(prev, holdings, market, now), prev, holdings, market, now)
    decreases |holdings|
  {
    if |holdings| > 0 {
      var h := holdings[0];
      var next := MergeHolding(prev, h, market, now);
      var r := MergeScreenshot(next, holdings[1..], market, now);
      ScreenshotNewEntries(next, holdings[1..], market, now);
      assert AllPushed(r, next, holdings[1..], market, now);
      ScreenshotKeepsEntries(next, holdings[1..], market, now);
      forall k | |prev| <= k < |r| ensures PushedBy(r[k], prev, holdings, market, now) {
        if k < |next| {
          assert SameEntryBesidesHolding(r[k], next[k]);
          assert FirstOfCode(holdings, 0);
        } else {
          assert |next| <= k < |r|;
          assert PushedBy(r[k], next, holdings[1..], market, now);
          NewEntryOfRest(prev, holdings, market, now, r[k]);
        }
      }
    }
  }

  /** An entry pushed by the rest of the screenshot was pushed by the whole of it. */
  lemma NewEntryOfRest(prev: seq<PortfolioItem>, holdings: seq<Holding>, market: Market, now: int,
                       e: PortfolioItem)
    requires |holdings| > 0
    requires PushedBy(e, MergeHolding(prev, holdings[0], market, now), holdings[1..], market, now)
    ensures PushedBy(e, prev, holdings, market, now)
  {
    var next := MergeHolding(prev, holdings[0], market, now);
    var j :| 0 <= j < |holdings[1..]| && FirstOfCode(holdings[1..], j) &&
             e.code == holdings[1..][j].code &&
             e.name == holdings[1..][j].name;
    MergeHoldingHasCode(prev, holdings[0], market, now);
    assert e.code != holdings[0].code;
    forall i | 0 <= i < j + 1 ensures holdings[i].code != holdings[j + 1].code {
      if i > 0 {
        assert holdings[i] == holdings[1..][i - 1];
      }
    }
    assert FirstOfCode(holdings, j + 1);
  }

  /** After a merge step the holding's code is on the list. */
  lemma MergeHoldingHasCode(combined: seq<PortfolioItem>, h: Holding, market: Market, now: int)
    ensures HasCode(MergeHolding(combined, h, market, now), h.code)
  {
    var r := MergeHolding(combined, h, market, now);
    var idx := FindIndex(combined, h.code);
    if idx == -1 {
      assert r[|combined|].code == h.code;
    } else {
      assert r[idx].code == h.code;
    }
  }

  /** Some entry has the holding's code, quantity and average cost. */
  predicate Reflects(items: seq<PortfolioItem>, h: Holding) {
    exists k | 0 <= k < |items| ::
      items[k].code == h.code && items[k].quantity == h.quantity && items[k].avgCost == h.avgCost
  }

  /** A merge step leaves the holding's code on one entry carrying its quantity and average
      cost. */
  lemma MergeHoldingSets(combined: seq<PortfolioItem>, h: Holding, market: Market, now: int)
    returns (k: int)
    ensures var r := MergeHolding(combined, h, market, now);
            0 <= k < |r| && r[k].code == h.code && r[k].quantity == h.quantity &&
            r[k].avgCost == h.avgCost
  {
    var idx := FindIndex(combined, h.code);
    k := if idx != -1 then idx else |combined|;
  }

  /** A holding whose code no later holding repeats leaves its values on an entry. */
  lemma ScreenshotFirstSticks(prev: seq<PortfolioItem>, holdings: seq<Holding>, market: Market,
                              now: int)
    requires 0 < |holdings|
    requires forall i | 0 < i < |holdings| :: holdings[i].code != holdings[0].code
    ensures Reflects(MergeScreenshot(prev, holdings, market, now), holdings[0])
  {
    var next := MergeHolding(prev, holdings[0], market, now);
    var k := MergeHoldingSets(prev, holdings[0], market, now);
    forall i | 0 <= i < |holdings[1..]| ensures holdings[1..][i].code != next[k].code {
      assert holdings[1..][i] == holdings[i + 1];
    }
    ScreenshotKeepsUntouched(next, holdings[1..], market, now, k);
    var r := MergeScreenshot(prev, holdings, market, now);
    assert r == MergeScreenshot(next, holdings[1..], market, now);
    assert r[k] == next[k];
    assert r[k].code == holdings[0].code && r[k].quantity == holdings[0].quantity &&
           r[k].avgCost == holdings[0].avgCost;
  }

  /** The last holding of a code decides its entry's quantity and average cost: a code that
      appears twice in the screenshot updates the entry the first occurrence pushed instead of
      pushing a second one. */
  lemma {:induction false} ScreenshotLastWins(prev: seq<PortfolioItem>, holdings: seq<Holding>,
                                              market: Market, now: int, j: int)
    requires 0 <= j < |holdings|
    requires forall i | j < i < |holdings| :: holdings[i].code != holdings[j].code
    ensures Reflects(MergeScreenshot(prev, holdings, market, now), holdings[j])
    decreases |holdings|
  {
    if j == 0 {
      ScreenshotFirstSticks(prev, holdings, market, now);
    } else {
      var next := MergeHolding(prev, holdings[0], market, now);
      forall i | j - 1 < i < |holdings[1..]| ensures holdings[1..][i].code != holdings[1..][j - 1].code {
        assert holdings[1..][i] == holdings[i + 1];
      }
      ScreenshotLastWins(next, holdings[1..], market, now, j - 1);
      assert holdings[1..][j - 1] == holdings[j];
    }
  }
}
