# tefas-ui fund ledger in Dafny

A model of the portfolio core of `tefas_ui.py`, a terminal tool that reads a
bank's export of mutual-fund trades (TEFAS funds) and reports profit and loss.
The model covers:

- **Actions and funds.** An `Action` is a BUY or SELL of some shares on a
  date at a price. Its share count is a mutable field, because the netting
  shrinks lots in place and the lot objects are shared with the caller's
  list. A `Fund` is a key plus its list of actions.
- **`Fund.deduct_sales`** (`Funds.Fund.DeductSales`). It sorts the actions
  by date (a stable sort), splits them into BUYs and SELLs, and deducts each
  SELL from the oldest remaining BUY lots. It either fails ("Can't deduct any
  more shares.") or returns a new fund holding the surviving BUY lots.
  - The arithmetic is specified by the pure module `Fifo`, over share counts.
    `Deduct` handles one SELL and `Net` handles all of them.
  - The imperative loops (`NetSells`, `DeductShares`) are proved to update
    the shared `Action` objects exactly as `Net` says.
  - `Funds.Reconciled` is the outcome for a fund's action list.
- **`drop_sold_funds`** (`Funds.DropSoldFunds`). It reconciles every fund in
  order and keeps those with surviving lots. The first oversold fund aborts
  the whole run.
- **`Fund.share_info` and `Fund.calculate_profits`.** Totals and P/L
  arithmetic. The FX rate and the price history are parameters.
- **`Teb.normalize_float`.** The string rewrite "5.000,50" → "5000.50".
- **`Teb.process`.** Groups parsed lines into one fund per key, in
  first-seen order.

The module layout follows the program:

| file | module | models |
|---|---|---|
| `fifo.dfy` | `Fifo`, `FifoLemmas` | The netting arithmetic on share counts. |
| `sorting.dfy` | `Sorting` | Python's stable `sorted` with a key. |
| `funds.dfy` | `Funds` | `Action`, `Fund`, `deduct_sales`, `drop_sold_funds`, `share_info`, `calculate_profits`. |
| `funds_lemmas.dfy` | `FundsLemmas` | The properties of the reconciliation. |
| `teb.dfy` | `Teb` | `normalize_float` and `process`. |
| `teb_lemmas.dfy` | `TebLemmas` | The properties of the grouping. |

`wrappers.dfy` holds the `Option` and `Result` types.

What the reconciliation guarantees, for action lists whose share counts are
positive:

- **Conservation.** The surviving shares equal BUY shares minus SELL shares.
- **Oversell.** It fails exactly when SELL shares exceed BUY shares.
- **Shape of the result.** The survivors are a date-sorted, BUY-only suffix
  of the date-sorted BUY lots, and every survivor is positive.
- **FIFO.** Only the oldest survivor can have shrunk.
- **Idempotence.** A BUY-only fund reconciles to itself, sorted.

Behaviour of the code worth knowing:

- **Error text.** The oversell error is a plain
  `ValueError("Can't deduct any more shares.")` (`tefas_ui.py:152`). It names
  neither the fund nor the missing amount, and the model's `Failure` carries
  the same text.
- **Equal dates.** The stable sort keeps the input order for actions on the
  same date. A permutation of same-date actions can therefore change which
  lots survive: BUY lots of 5 and 3 shares on one date and a later SELL of 4
  leave lots of 1 and 3 shares, or a single lot of 4 with the BUYs the other
  way round (`FifoLemmas.SameDateOrderMatters`). When no two actions share a
  date, the order of the input does not matter
  (`FundsLemmas.ReorderedReconciled`).
- **Zero-share SELL.** A zero-share SELL still fails when no BUY lot is left:
  the `for ... else` of `deduct_shares` raises on an empty list.
  `FifoLemmas.NetFailsWhenEmpty` and `FifoLemmas.NetFailsExactly` state this.

## Model

| member | source | states |
|---|---|---|
| Fifo.Deduct | tefas_ui.py:141-152 | One SELL against lots from `front` on. A lot larger than what is owed is shrunk. Otherwise it is dropped, and the rest is owed to the next lot, stopping when nothing is left. Running out of lots is an error. On success the result is valid, has the same number of counts and never moves `front` back. |
| Fifo.Net | tefas_ui.py:154-155 | Deducts each SELL in order and stops at the first failure, returning the counts as they were then. A netted result is valid, keeps the number of counts and only advances `front`. |
| FifoLemmas.DeductConserves | tefas_ui.py:141-152 | A successful SELL lowers the open shares by exactly the SELL's amount. |
| FifoLemmas.NetConserves | tefas_ui.py:154-155 | Netting lowers the open shares by the sum of the SELLs. |
| FifoLemmas.DeductKeepsPositive | tefas_ui.py:141-152 | If every open lot is positive before a SELL, every open lot is positive after it: a lot is shrunk only while it stays above zero. |
| FifoLemmas.NetKeepsPositive | tefas_ui.py:154-155 | The surviving lots stay positive through all the SELLs. |
| FifoLemmas.DeductTouchesOnlyFront | tefas_ui.py:143-145 | A SELL changes the count of at most one lot: the one where it stops. |
| FifoLemmas.DeductShrinksFront | tefas_ui.py:143-145 | A SELL of a non-negative amount never grows the lot where it stops. |
| FifoLemmas.NetShape | tefas_ui.py:154-155 | After netting, every surviving lot but the first keeps its original count. With non-negative SELLs, the first can only have shrunk. |
| FifoLemmas.DeductFails | tefas_ui.py:151-152 | With positive lots, one SELL fails if and only if it exceeds the open shares or there are no open lots. |
| FifoLemmas.NetFailsIffOversold | tefas_ui.py:154-155 | With positive lots and positive SELLs, netting fails if and only if the SELLs total more than the BUYs. |
| FifoLemmas.NetFailsExactly | tefas_ui.py:141-155 | With non-negative SELLs, netting fails if and only if the SELLs total more than the BUYs, or some SELL arrives once the earlier ones have used up every lot (even a zero-share SELL). |
| FifoLemmas.NetFailsWhenEmpty | tefas_ui.py:151-152 | With no open lot, any SELL fails, whatever its size, and leaves the counts unchanged. |
| FifoLemmas.SumPositive | tefas_ui.py:141-152 | A list of positive lots sums to zero only when it is empty. |
| FifoLemmas.SameDateOrderMatters | tefas_ui.py:132-155 | Input order on a shared date matters: with same-date BUY lots of 5 and 3 and a SELL of 4, netting leaves lots of 1 and 3; with the lots swapped it leaves a single lot of 4. |
| Sorting.SortBy | tefas_ui.py:132 | `sorted(..., key=...)` as an insertion sort: one result element per input element. `SortByPermutes`, `SortBySorted` and `SortByStable` prove it is a stable sort. |
| Sorting.SortByPermutes | tefas_ui.py:132 | Sorting is a permutation of its input (as a multiset). |
| Sorting.SortBySorted | tefas_ui.py:132 | The sorted list is ordered by the key. |
| Sorting.SortByStable | tefas_ui.py:132 | Stability: the elements with any one key keep their input order. |
| Sorting.SortBySortedInput | tefas_ui.py:132 | An already sorted list is returned unchanged. |
| Sorting.SortByIdempotent | tefas_ui.py:132 | Sorting twice is sorting once. |
| Sorting.InsertSorted | tefas_ui.py:132 | Inserting into a sorted list keeps it sorted. |
| Sorting.SortByDistinctKeys | tefas_ui.py:132 | If no two input elements share a key, no two sorted elements do. |
| Sorting.SortedUnique | tefas_ui.py:132 | Two key-ordered arrangements of the same multiset are equal when no two elements share a key. |
| Sorting.SortByReordered | tefas_ui.py:132 | Order independence: when no two elements share a key, every rearrangement of the input sorts to the same list. |
| Funds.SortByDate | tefas_ui.py:132 | `sorted(self.actions, key=lambda action: action.date)`: one sorted action per input action. `SortByDateMembers` gives membership in both directions. |
| Funds.SortByDateMembers | tefas_ui.py:132 | Sorting by date neither adds nor drops an action. |
| Funds.OfKind | tefas_ui.py:134-139 | The actions of one kind, in list order. Every element has that kind. |
| Funds.OfKindMembers | tefas_ui.py:134-139 | Every action of the kind is kept, and nothing else is. |
| Funds.Buys | tefas_ui.py:132-139 | The date-sorted BUY list `buys`: every element is a BUY. `SplitMembers` shows it holds every BUY of the fund and nothing else. |
| Funds.Sells | tefas_ui.py:132-139 | The date-sorted SELL list `sells`: every element is a SELL. `SplitMembers` shows it holds every SELL of the fund and nothing else. |
| Funds.SplitMembers | tefas_ui.py:134-139 | The BUY and SELL lists hold exactly the input's BUYs and SELLs. |
| Funds.Counts | tefas_ui.py:141-152 | The share counts of a list of actions, position by position. |
| Funds.Reconciled | tefas_ui.py:130-157 | What `deduct_sales` does to a fund's current state: the netted lots, valid and with one count per date-sorted BUY lot, or the counts (one per BUY lot) when it raises. |
| Funds.Shares | tefas_ui.py:75-79 | The `total_shares` sum: the share counts of the actions of one kind. `FundsLemmas.SharesOfKind` and `FundsLemmas.SharesSorted` state its properties. `Funds.Fund.ShareInfo`, `FundsLemmas.Conservation` and `FundsLemmas.OversoldIff` are stated with it. |
| Funds.Worth | tefas_ui.py:112-116 | One `pricing_info` entry: the shares × the price of one history row × the rate on that row's date. `Funds.Fund.CalculateProfits` states the worth and the P/L figures with it. |
| Funds.Cost | tefas_ui.py:76-82 | The `total_spent` sum: each lot's shares × price × the rate on its own date. `FundsLemmas.CostNonNegative` and `FundsLemmas.CostAtUnitRate` state its properties. |
| Funds.Partition | tefas_ui.py:134-139 | The loop over the sorted actions returns the BUY list and the SELL list, each in sorted order. |
| Funds.DeductShares | tefas_ui.py:141-152 | One SELL on the shared lot objects. It fails exactly when `Fifo.Deduct` does, and then the counts are unchanged. Otherwise the new counts and the new front are those of `Fifo.Deduct`. |
| Funds.NetSells | tefas_ui.py:154-155 | The SELL loop. It fails exactly when `Fifo.Net` reports an oversell, and the lot counts are then `Net`'s. On success it returns `Net`'s front, the lot objects hold `Net`'s counts, and no SELL object changes. |
| Funds.NetActions | tefas_ui.py:130-157 | Sort, split and net. It fails exactly when the fund is oversold. On success it returns the date-sorted BUYs from the first survivor on. Either way the lot counts are those of `Reconciled`, and the SELLs are untouched. |
| Funds.Fund.DeductSales | tefas_ui.py:130-157 | `deduct_sales`: it fails exactly when `Reconciled` reports an oversell. Otherwise it returns a new fund with the same key, holding the surviving lots (a suffix of the sorted BUYs). The shared lot objects hold the netted counts, or the counts reached when it raised, and the SELL objects keep their counts. |
| Funds.DistinctSorted | tefas_ui.py:132 | Sorting keeps a list free of repeated objects. |
| Funds.DistinctOfKind | tefas_ui.py:134-139 | Splitting by kind keeps a list free of repeated objects. |
| Funds.Fund.ShareInfo | tefas_ui.py:71-83 | For a BUY-only fund: the total of the share counts, and the cost as each lot's shares × price × the FX rate on the lot's own date. |
| Funds.Fund.CalculateProfits | tefas_ui.py:85-128 | For a non-empty BUY-only fund, it fails exactly when the price history has fewer than two points. Otherwise it returns the key, the title, the first action's date and the total shares. Worth is at the latest price and rate, the daily and weekly P/L are taken against the second and the oldest price points, and the all-time P/L is worth minus cost. |
| Funds.Settle | tefas_ui.py:161-163 | One fund through `deduct_sales`: None where it raises, otherwise a position with the fund's key and BUY lots only. |
| Funds.SettleAll | tefas_ui.py:160-164 | One outcome per input fund. |
| Funds.Kept | tefas_ui.py:160-164 | `drop_sold_funds` over the outcomes: when it succeeds, at most one position per fund, each holding lots. |
| Funds.SettleAllAt | tefas_ui.py:160-164 | The reconciliation of the funds, one outcome per fund, in input order. |
| Funds.KeptNext | tefas_ui.py:162-164 | One more fund: an emptied fund is skipped, and a fund with lots is appended. |
| Funds.KeptFailsOnward | tefas_ui.py:160-164 | Once a fund is oversold, the whole run fails, whatever follows. |
| Funds.SettleNext | tefas_ui.py:161-164 | One iteration of `drop_sold_funds`: it fails if the fund is oversold, and otherwise appends the reconciled fund only if it still has lots. It leaves every later fund's lots untouched. |
| Funds.DropSoldFunds | tefas_ui.py:160-164 | `drop_sold_funds`: it fails exactly when `Kept` of the funds' reconciliations fails. Otherwise it returns, in order, the keys and lots that `Kept` lists. |
| FundsLemmas.SharesOfKind | tefas_ui.py:134-139 | The share counts of the split-off list sum to the fund's shares of that kind. |
| FundsLemmas.SharesSorted | tefas_ui.py:132 | Sorting does not change the shares of either kind. |
| FundsLemmas.SplitShares | tefas_ui.py:132-139 | The BUY lots hold all BUY shares, and the SELLs hold all SELL shares. |
| FundsLemmas.Conservation | tefas_ui.py:130-157 | Share conservation: the surviving lots hold the BUY shares minus the SELL shares. |
| FundsLemmas.PositiveCounts | tefas_ui.py:134-139 | Positive actions give positive BUY and SELL counts. |
| FundsLemmas.OversoldIff | tefas_ui.py:130-157 | With positive share counts, reconciliation fails if and only if the SELLs exceed the BUYs. |
| FundsLemmas.SurvivorsPositive | tefas_ui.py:141-157 | With positive share counts, every surviving lot is positive. |
| FundsLemmas.OfKindSorted | tefas_ui.py:134-139 | Splitting a date-sorted list gives date-sorted lists. |
| FundsLemmas.BuysSorted | tefas_ui.py:132-139 | The BUY list and every suffix of it are date-sorted. |
| FundsLemmas.FifoShape | tefas_ui.py:141-157 | FIFO shape: every survivor after the first keeps its original count. With non-negative SELLs, the first survivor only shrinks. |
| FundsLemmas.OfKindAll | tefas_ui.py:134-139 | A list of one kind splits off whole. |
| FundsLemmas.OfKindNone | tefas_ui.py:134-139 | A list with no action of a kind splits off nothing of it. |
| FundsLemmas.BuyOnlyIdempotent | tefas_ui.py:130-157 | A BUY-only fund has no SELLs. Its BUY list is its sorted list, it reconciles to all of it with the same counts, and splitting again changes nothing. |
| FundsLemmas.CostAtUnitRate | tefas_ui.py:71-83 | At a rate of 1 on every lot's date, the cost is the plain sum of shares × price. |
| FundsLemmas.CostNonNegative | tefas_ui.py:76-82 | With no negative shares, prices or rates, the cost is not negative. |
| FundsLemmas.SettleIsReconciled | tefas_ui.py:160-164 | The per-fund outcome used by `drop_sold_funds` is the fund's reconciliation: the lots from the first survivor on, or a failure. |
| FundsLemmas.SettleFailsIff | tefas_ui.py:161 | A fund with positive counts is rejected exactly when it is oversold. |
| FundsLemmas.SettleShape | tefas_ui.py:161-163 | A reconciled fund keeps its key. Its lots are date-sorted and BUY-only, and they are empty exactly when SELLs equal BUYs. |
| FundsLemmas.Holding | tefas_ui.py:162-164 | The kept outcomes, in order. Every kept one has lots. |
| FundsLemmas.HoldingSnoc | tefas_ui.py:162-164 | Appending an outcome keeps it exactly when it has lots. |
| FundsLemmas.HoldingMembers | tefas_ui.py:162-164 | Every kept position is the outcome of some input fund. |
| FundsLemmas.KeptFails | tefas_ui.py:160-164 | The run fails if and only if some fund fails to reconcile. |
| FundsLemmas.KeptIsHolding | tefas_ui.py:160-164 | `Kept` fails if and only if some fund failed. Otherwise it is exactly the non-empty outcomes, in input order. |
| FundsLemmas.DropSoldFundsFails | tefas_ui.py:160-164 | For funds with positive counts, `drop_sold_funds` fails if and only if some fund sold more shares than it bought. |
| FundsLemmas.DropSoldFundsKept | tefas_ui.py:160-164 | When `drop_sold_funds` succeeds, its result is the reconciled funds that still hold lots, in input order, each one date-sorted, BUY-only and non-empty. |
| FundsLemmas.DropSoldFundsResult | tefas_ui.py:160-164 | Both halves together, from `DropSoldFundsFails` and `DropSoldFundsKept`: for funds with positive counts, `drop_sold_funds` fails if and only if some fund is oversold. Otherwise its result is the non-empty reconciled funds, in input order, each one date-sorted, BUY-only and non-empty. |
| FundsLemmas.ReorderedReconciled | tefas_ui.py:130-157 | Order independence of `deduct_sales`: when no two actions share a date, any rearrangement of a fund's actions gives the same sorted list, the same BUYs and SELLs, and the same outcome. |
| Teb.RemoveAll | tefas_ui.py:258 | `replace(".", "")` never lengthens the string. |
| Teb.ReplaceFirst | tefas_ui.py:258 | `replace(",", ".", 1)` keeps the length. |
| Teb.RemoveAllCounts | tefas_ui.py:258 | Removing a character drops all of its occurrences and keeps the count of every other character. The length falls by the number removed. |
| Teb.RemoveAllAppend | tefas_ui.py:258 | Removing a character works piecewise over a concatenation. |
| Teb.RemoveAllAbsent | tefas_ui.py:258 | Removing a character that does not occur changes nothing. |
| Teb.ReplaceFirstUpdates | tefas_ui.py:258 | Against an independent description: with no comma the string is unchanged, and otherwise exactly the first comma's position is overwritten. |
| Teb.ReplaceFirstCounts | tefas_ui.py:258 | Replacing turns one occurrence, if any, into the new character, and leaves every other count alone. |
| Teb.RemoveAllKeeps | tefas_ui.py:258 | Removing a character keeps every other character that occurs and adds none. |
| Teb.ReplaceFirstSplit | tefas_ui.py:258 | With no earlier occurrence, the occurrence between two parts is the one replaced. |
| Teb.NormalizeFloat | tefas_ui.py:256-258 | `normalize_float`'s string rewrite. Without a comma, the result is the input with its dots removed. |
| Teb.NormalizeFloatSplit | tefas_ui.py:256-258 | Where the decimal point lands: the first comma becomes the '.', with the integer part before it and the fraction after it, each without thousands dots. |
| Teb.NormalizeFloatShape | tefas_ui.py:256-258 | `normalize_float`'s result has one '.' if the input has a comma and none otherwise, and one comma fewer (if any). It keeps every other character in order and is one character shorter per thousands dot. |
| Teb.NormalizeFloatExample | tefas_ui.py:257-258 | "5.000,50" becomes "5000.50". |
| Teb.Keys | tefas_ui.py:287-291 | The keys of the `funds` dict, in insertion order: a key is appended at its first line. `TebLemmas.KeysDistinct` and `TebLemmas.KeysMembers` state its properties. |
| Teb.ActionsOf | tefas_ui.py:288-290 | The actions appended to one key's fund, in line order. `TebLemmas.ActionsOfMembers` and `TebLemmas.ActionsOfAppend` state its properties. |
| Teb.Process | tefas_ui.py:286-291 | `process`: one new fund per distinct key, in first-seen order, each holding the actions of its key in line order. |
| Teb.ActionsOfUnseen | tefas_ui.py:288-290 | A key that occurs on no line has no actions. |
| TebLemmas.KeysDistinct | tefas_ui.py:287-291 | No key gets two funds. |
| TebLemmas.KeysMembers | tefas_ui.py:288-289 | The keys are exactly the keys that occur on some line. |
| TebLemmas.ActionsOfMembers | tefas_ui.py:288-290 | A fund holds exactly the actions of the lines carrying its key. |
| TebLemmas.ActionsOfAppend | tefas_ui.py:288-290 | Filing keeps line order: the lines of a longer export come after those of its first part. |
| TebLemmas.FiledStep | tefas_ui.py:288-290 | Each new line is filed under its own key only. |
| TebLemmas.EveryLineFiled | tefas_ui.py:286-291 | Every line is filed exactly once: the funds' lists hold all the lines between them. |
| TebLemmas.ActionsOfDistinct | tefas_ui.py:288-290 | If no action object is on two lines, no fund holds an object twice. |
| TebLemmas.ActionsOfApart | tefas_ui.py:288-290 | If no action object is on two lines, funds of different keys share no action. |
| TebLemmas.SeparateIntro | tefas_ui.py:160-164 | Funds that pairwise share no action are separate. |
| TebLemmas.ProcessedSeparate | tefas_ui.py:286-291 | The funds built by `process` meet what `drop_sold_funds` requires: no repeated action in a fund, and no action shared by two funds. |

## Left out

- The price service (`tefas.Crawler`) is not part of this model. `Funds.Fund.CalculateProfits` takes the fetched rows as a `history` argument, newest first.
  - The fetch window of eight days is not modelled.
  - A history with fewer than two rows is a `Failure`. In the source the label lookup `current_data.price[1]` raises a lookup error (`KeyError`).
  - An empty history is covered by the same `Failure` case.
- FX rates (`forex_python`, the `lru_cache` around `get_rate`, and the fallback that only allows "TRY") are a function parameter `fx`. Caching and the fallback's assertion are not modelled.
- Floating point: prices, costs and rates are Dafny `real`, so no rounding is modelled.
- `Funds.Fund.ShareInfo`: `total_spent` starts as the integer 0 in the source; here it is a real from the start.
- Dates are day numbers. Parsing them with `strptime` is not modelled, and neither is the `float()` conversion after `normalize_float` or the `int()` truncation of share counts.
- `Teb.iter_actions` (splitting lines on tabs and looking up action kinds) is left out. `Teb.Process` takes the already parsed `(key, action)` pairs.
- The `ExportFormat` registry (`__init_subclass__`), `get_profits`, `ui`, `display_pl`, the rich tables, `run_from_file`, `main`, argument parsing and file reading are left out. They are I/O and presentation.
- `Funds.Fund.DeductSales`, `Funds.NetActions` and `Funds.DropSoldFunds` require that no action object appears twice in a fund. `DropSoldFunds` also requires that no object appears in two funds. `TebLemmas.ProcessedSeparate` shows that funds built by `process` satisfy both when every line creates its own action.
- The `assert` statements of `share_info` and `calculate_profits` (every action is a BUY; there is at least one action) are preconditions.
- `Funds.Fund`'s action list is a constant field. The source appends to a fund's list while `process` builds it and never afterwards.
  - `Teb.Process` therefore collects each key's list first and creates the funds at the end.
  - The source instead creates a fund at each key's first line, through `setdefault`, which also builds and discards a new `Fund` on every line.
- `Funds.DropSoldFunds`: the source is a generator, so a caller sees the funds yielded before an oversold fund raises. The model returns either the whole list or the failure.
- `Funds.DropSoldFunds`: does not state the share counts left in the funds' lot objects afterwards. Reconciliation mutates the lots of every fund it reaches, including the oversold one: reached funds hold their netted counts, the oversold one the counts reached when it raised, and later funds are untouched. The model states the resulting lists of the successful run, and for the failed run only that it fails. The counts of each single fund are stated by `Funds.Fund.DeductSales`, and `Funds.SettleNext` states that the later funds' lots are untouched, but carrying every fund's counts through the loop is not proved.
- `Funds.SettleNext`: does not state the share counts it leaves in the first fund's lots. They are those of `Funds.Fund.DeductSales`, which it calls.
