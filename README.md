# beanru, modelled in Dafny

This project models the core of beanru, a set of tools over Beancount ledgers. The tools are written in Rust.

- **Currency bag** (`Bags`). A per-account total: a map from currency to amount that is updated in place.
- **Stock split** (`SplitStock`). Rescales every amount, cost, unit price, balance assertion and price directive denominated in one commodity.
- **Closing matcher** (`Closing`). Pairs same-day transactions whose `Assets:Closing` legs cancel, and renames both legs to a fresh `Assets:Closing:NNNNNN`. It then appends an Open and a zero Balance for each pair.
- **Balance checker** (`FixBalance`). Replays the date-sorted directives of a ledger. It keeps per-account bags and a set of padded accounts, and collects the balance assertions that fail by more than 0.04.
- **Serialiser** (`Format`). Renders files, directives, postings and metadata as Beancount text.
- **Lossless parser** (`ExpScan`, `Exp`). Character scanners, the entry parser, and the `to_string` functions that write a parsed file back verbatim.
- **Transaction-header parser** (`ExpTransaction`). A token-driven state machine that reads payee, narration, tags and links while keeping all the whitespace. It also writes the header back.

The shared data model is in `Types`. The stable sort used by the closing matcher and the balance checker is in `Ordering`. Digit strings, zero padding, string order and sorted sets are in `Text`.

Modelling conventions:

- Amounts are exact `real` numbers.
- A `HashMap` or `HashSet` is a `map` or `set`.
- Objects whose fields the source updates in place are classes: `Bags.Bag`, `Types.BeancountFile` and `ExpTransaction.Lexer`.
- Each Rust loop that mutates state is a `method` with loop invariants. It is proved equal to a specification function, and the properties are proved about that function.
- Text printed to the console is returned as a value instead. This covers the closing matches and the balance failures.
- A panic in the source becomes a precondition.
- The parsers work on `seq<char>`. Character classes are ASCII.
- The lexer used by the transaction-header parser is a sequence of tokens consumed from the front. Once exhausted, it yields an empty end-of-line token.

## Model

| member | source | states |
|---|---|---|
| Bags.Bag.constructor | src/bag.rs:22-24 | A new bag has no entries and is zero. |
| Bags.Bag.IsZero | src/bag.rs:27-30 | Zero iff every currency's value is 0, including the empty bag and entries that cancelled to 0. |
| Bags.AllZeroMeansNoValue | src/bag.rs:27-30 | "All stored values are 0" is the same as "every currency reads 0", present or not. |
| Bags.Bag.Trim | src/bag.rs:33-36 | Keeps exactly the non-zero entries with their values. Every currency reads the same before and after, and `is_zero` is unchanged. |
| Bags.Bag.Commodities | src/bag.rs:38-41 | The map handed out reads, currency by currency, exactly what the bag holds, and all its stored values are 0 iff the bag is zero. |
| Bags.TrimmedSpec | src/bag.rs:33-36 | The trimmed map's keys are exactly the non-zero entries, and values are kept. It is empty iff the bag was zero. |
| Bags.WithAmount | src/bag.rs:48-50 | Adding an amount raises that currency by the value (from 0 if absent) and adds it to the key set. Every other currency is unchanged. |
| Bags.Bag.AddAmount | src/bag.rs:48-50 | `+= Amount` replaces the map by `WithAmount` of the old one. |
| Bags.Merge | src/bag.rs:53-62 | Adding a bag gives the union of the key sets, and each currency reads the sum of both bags. |
| Bags.Bag.AddBag | src/bag.rs:57-72 | `+= Bag` and `+= &Bag` replace the map by the merge of the old map and the other bag. |
| Bags.Bag.Add | src/bag.rs:81-87 | `a + b` returns the updated left bag, holding the same merge as `+=`. |
| Bags.MergeCommutative | src/bag.rs:53-62 | Adding bags is commutative. |
| Bags.MergeAssociative | src/bag.rs:53-62 | Adding bags is associative. |
| Bags.WithAmountIsMerge | src/bag.rs:48-62 | Adding one amount is the same as adding a one-entry bag. |
| Bags.AccumulateSpec | src/bag.rs:48-50 | After a sequence of `+= Amount`, the keys are the initial keys plus the currencies added, and each currency reads its initial value plus the sum added in it. |
| Bags.SumInAppend | src/bag.rs:48-50 | The per-currency sum of a concatenation is the sum of the two parts. |
| Bags.SumInPermutation | src/bag.rs:48-50 | Per-currency sums do not depend on the order of the amounts. |
| Bags.AccumulateOrderIrrelevant | src/bag.rs:48-50 | Adding the same amounts in any order gives the same bag. |
| SplitStock.SplitPosting | src/split_stock.rs:38-60 | Only the amount, cost amount and price amount values may change. Currencies, kinds and presence are kept. A posting with no amount or another currency is returned unchanged. |
| SplitStock.SplitPostingKeepsWeight | src/split_stock.rs:50-58 | In the commodity: amount ×ratio, cost ÷ratio, unit price ÷ratio, so amount×cost and amount×unit price are kept. A total (`@@`) price is unchanged. |
| SplitStock.SplitDirective | src/split_stock.rs:8-35 | Keeps the date and the metadata. `SplitDirectiveEffect` states the effect on each kind. |
| SplitStock.SplitDirectiveEffect | src/split_stock.rs:8-35 | Balance in the commodity ×ratio, Price of the commodity ÷ratio, others of those kinds unchanged. Transactions get every posting split in order. Close/Commodity/Event/Open/Pad are untouched. |
| SplitStock.SplitAll | src/split_stock.rs:8-35 | The number, order and dates of directives are kept. |
| SplitStock.Split | src/split_stock.rs:3-36 | The file's directives become `SplitAll` of the old ones (each directive split by `SplitDirective`). |
| SplitStock.SplitOne | src/split_stock.rs:9-33 | One directive becomes exactly its `SplitDirective` image. |
| SplitStock.SplitPostings | src/split_stock.rs:28-30 | Every posting of a transaction is replaced by its split, in place and in order. |
| Ordering.PrecedesTransitive | src/fix_balance.rs:20 | Ordering by (key, original position) is transitive. |
| Ordering.PrecedesTotal | src/fix_balance.rs:20 | Ordering by (key, original position) is total on distinct positions. |
| Ordering.Insert | src/fix_balance.rs:20 | Insertion keeps the positions in range and adds exactly one occurrence. |
| Ordering.InsertSorted | src/fix_balance.rs:20 | Inserting into a sorted list keeps it sorted. |
| Ordering.StableSort | src/fix_balance.rs:20 | The result is a permutation, sorted by (key, original position) when the positions are distinct. |
| Ordering.StableSortIsStable | src/closing.rs:14 | Sorting ascending positions never puts a larger key first, and keeps equal keys in their original order. |
| Ordering.PrecedesAsymmetric | src/fix_balance.rs:20 | The sort order is asymmetric. |
| Ordering.SortedHeadsAgree | src/fix_balance.rs:20 | Two sorted permutations of the same positions start with the same element. |
| Ordering.SortedUnique | src/fix_balance.rs:20 | A stable sort's result is unique: two sorted permutations are equal. |
| Closing.ClosingAccountName | src/closing.rs:38 | `Assets:Closing:` plus six zero-padded digits, never the clearing account itself. |
| Closing.ClosingAccountNameInjective | src/closing.rs:38-39 | Different ids give different account names. |
| Closing.FirstClearing | src/closing.rs:79-80 | Finds the first posting on exactly `Assets:Closing`, or reports that there is none. |
| Closing.ClosingPosting | src/closing.rs:74-81 | On a transaction, the index of its first `Assets:Closing` posting, or None if it has none. |
| Closing.ContainsIffClosingPosting | src/closing.rs:83-91 | A directive is a candidate iff it is a transaction whose `closing_posting` exists. |
| Closing.ContainsClosingPosting | src/closing.rs:83-91 | Only a transaction with at least one posting can contain a clearing posting. |
| Closing.Candidates | src/closing.rs:9-13 | The candidates, in file order, are exactly the directives containing a clearing posting. |
| Closing.DateKeys | src/closing.rs:14 | Defines the sort key of every candidate as its date alone. |
| Closing.ClosingOrderSpec | src/closing.rs:9-14 | The visiting order holds each candidate once, by date. Same-date candidates stay in file order. |
| Closing.ClosingOrder | src/closing.rs:9-14 | The visiting order holds exactly the candidates, each once, and only positions of the directive list. |
| Closing.RenameOf | src/closing.rs:41-42 | A posting is renamed iff some match holds it, and then to that match's account. |
| Closing.RenameOfMatch | src/closing.rs:41-42 | With distinct slots, a matched leg gets exactly its match's account. |
| Closing.Renamed | src/closing.rs:41-42 | Renaming keeps a directive's date, metadata and kind; non-transactions are untouched. |
| Closing.RenameAll | src/closing.rs:9-47 | The number of directives is kept. |
| Closing.RenamedExtend | src/closing.rs:41-42 | One more match renames exactly its two legs. |
| Closing.RenameAllNonCandidates | src/closing.rs:9-47 | Directives without a clearing posting come out of the matcher unchanged. |
| Closing.RenameAllLegs | src/closing.rs:9-47 | Unmatched postings are unchanged. The legs of match t get `Assets:Closing:` + t in six digits, with all their other fields kept. |
| Closing.MatchAccountsDistinct | src/closing.rs:38-39 | Different matches of one run get different accounts. |
| Closing.SupportingDirectives | src/closing.rs:49-69 | For each match in order: an Open dated 2000-01-01 with exactly its currency, then a Balance of 0 in that currency dated 2099-01-01. |
| Closing.RenameOfOnlyLegs | src/closing.rs:41-42 | Only postings that were on `Assets:Closing` are ever renamed, and never back to it. |
| Closing.UnrenamedLeg | src/closing.rs:21-28 | A posting still on `Assets:Closing` has not been renamed: `closing_posting` cannot return a renamed leg again. |
| Closing.TracksExtend | src/closing.rs:18-43 | Renaming the two legs of a valid new match keeps the loop invariant (state == all renames applied, matches valid, slots distinct). |
| Closing.Closing | src/closing.rs:3-72 | The matches and the renamed directives are exactly those of `ClosingSpec`, the fold of the two nested loops over the visiting order. The file becomes those directives followed by the supporting Open/Balance pairs. Every match is valid (i<j in date order, same date, first clearing legs with explicit amounts in one currency that negate each other, account `Assets:Closing:` + the match number), and no leg is matched twice. |
| Closing.TryMatch | src/closing.rs:17-45 | One visited pair updates the file and the matches exactly as `MatchStep` does: no change, or one valid match appended with its two legs renamed. The loop invariant holds, and the counter equals the number of matches. |
| Closing.MatchStep | src/closing.rs:18-45 | One inner-loop iteration keeps the number of directives and which of them are transactions. It either keeps the matches or appends one whose account is `Assets:Closing:` + the number of earlier matches. |
| Closing.Pass | src/closing.rs:16-47 | The outer loop from visit i on keeps the number of directives and only appends matches after the earlier ones. |
| Closing.Sweep | src/closing.rs:17-46 | The inner loop for visit i, from visit j on, keeps the number of directives and which visited positions are transactions, and only appends matches after the earlier ones. |
| Closing.SweepStep | src/closing.rs:17-46 | One inner-loop visit is one `MatchStep`, after which the loop goes on with the next j; the visited positions stay transactions. |
| Closing.MatchWithLater | src/closing.rs:17-46 | The inner loop changes the file and the matches exactly as `Sweep` from the first later visit does, keeps the loop invariant, and keeps the counter equal to the number of matches. |
| Closing.Visit | src/closing.rs:18-45 | One visit (i, j) moves the state one step along `Sweep`, keeping the loop invariant and the counter. |
| Closing.TracksStart | src/closing.rs:6-13 | Before the loops, with no matches, the directives are the original ones with nothing renamed. |
| Closing.ClosingSpec | src/closing.rs:9-47 | Sorting the candidates and running both loops from the start keeps the number of directives. |
| Closing.ClosingExample | src/closing.rs:99-125 | The unit test with explicit amounts: `-5 CHF` and `5 CHF` on one day give one match, `Assets:Closing:000000` in CHF, and both clearing legs are renamed to it. |
| Closing.ClosingExampleElided | src/closing.rs:99-125 | The unit test as written, with elided clearing amounts: nothing is matched and the directives are unchanged. |
| Closing.ClosingOrderPair | src/closing.rs:9-17 | Every visited position is a transaction with a clearing posting, and of two same-date candidates the earlier in the file is visited first. |
| Closing.AppendSupporting | src/closing.rs:49-69 | Appends the supporting directives after all existing ones. |
| FixBalance.Abs | src/fix_balance.rs:34-37 | The absolute value of the difference. |
| FixBalance.Priority | src/fix_balance.rs:5-10 | 0 exactly for a Balance, 1 for every other kind. |
| FixBalance.MarkFixed | src/fix_balance.rs:51-55 | Every failure on the account, in any currency, is flagged "fixed later"; others keep their flag. |
| FixBalance.PostAmounts | src/fix_balance.rs:61-66 | Never drops an account. `PostAmountsSpec` states the exact accounts and values. |
| FixBalance.PostAmountsSpec | src/fix_balance.rs:61-66 | After a transaction, the accounts are the old ones plus those posted to with an explicit amount. Each account/currency reads its old value plus the amounts posted. Postings without an amount are ignored. |
| FixBalance.PostAmountsKeys | src/fix_balance.rs:61-66 | The accounts after a transaction are the old ones plus those posted to with an explicit amount. |
| FixBalance.PostAmountsValues | src/fix_balance.rs:61-66 | Each account/currency reads its old value plus the sum of the amounts posted to it in that currency. |
| FixBalance.StepUnpaddedBalance | src/fix_balance.rs:27-56 | A Balance on an unpadded account never changes the bags or pads. Off by more than 40/1000 from the bag's value (0 if absent), it appends exactly one failure carrying that value. Otherwise the failures become `MarkFixed` of the old ones: same length, same accounts and dates, and exactly the account's entries gain the "fixed later" flag. |
| FixBalance.StepPaddedBalance | src/fix_balance.rs:41-47 | A Balance on a padded account sets its bag to exactly the asserted amount and un-pads it, without a failure or fix. Other accounts are unchanged. |
| FixBalance.StepOtherKinds | src/fix_balance.rs:58-68 | A Pad marks its account padded; a Transaction adds its posted amounts; nothing else changes anything. |
| FixBalance.Step | src/fix_balance.rs:26-69 | One iteration only appends at most one failure and otherwise only sets "fixed later" flags; kinds other than Balance leave the failures alone. |
| FixBalance.Run | src/fix_balance.rs:25-70 | Replaying n directives adds at most n failures and removes none. |
| FixBalance.RunExtends | src/fix_balance.rs:25-70 | Failures are only appended, in processing order; earlier ones change only by gaining the "fixed later" flag. |
| FixBalance.CheckKeys | src/fix_balance.rs:5-20 | Defines the sort key of each directive as the pair (date, `priority`). |
| FixBalance.Positions | src/fix_balance.rs:14-19 | Defines the starting order as the positions 0..n-1 of the flattened list. |
| FixBalance.CheckOrder | src/fix_balance.rs:20 | The order only holds positions of the flattened list. |
| FixBalance.CheckOrderSpec | src/fix_balance.rs:14-20 | Every directive of every file appears once. They are ordered by date, Balances before other kinds on the same date, and otherwise in file order. |
| FixBalance.CheckOrderPermutes | src/fix_balance.rs:14-20 | The order holds each directive position exactly once. |
| FixBalance.CheckOrderSorted | src/fix_balance.rs:14-20 | Dates never decrease along the order. Balances come first on a date, and ties keep file order. |
| FixBalance.Sorted | src/fix_balance.rs:20 | Defines the sorted list as the flattened directives taken in the `CheckOrder` order. |
| FixBalance.CollectDirectives | src/fix_balance.rs:14-19 | The directives of all files, file by file, in order. |
| FixBalance.Flatten | src/fix_balance.rs:14-19 | A directive is in the flattened list iff it is in one of the ledger's files. |
| FixBalance.MarkFixedInPlace | src/fix_balance.rs:51-55 | The in-place loop computes `MarkFixed`. |
| FixBalance.PostInPlace | src/fix_balance.rs:62-66 | The in-place loop computes `PostAmounts`. |
| FixBalance.CheckDirective | src/fix_balance.rs:26-69 | One loop iteration performs one `Step`. |
| FixBalance.FixBalance | src/fix_balance.rs:13-83 | The reported failures are those of replaying the sorted, flattened directives from the empty state. |
| Format.Quote | src/format.rs:10-13 | The text between two `"`, with no escaping. |
| Format.RenderAmount | src/format.rs:158-165 | The text is as long as the number, one space and the currency name together. `RenderAmountFields` states each field. |
| Format.RenderAmountFields | src/format.rs:158-165 | An amount renders as the number, one space, then the currency name. |
| Format.RenderValue | src/format.rs:133-144 | A string value renders quoted, and a currency value as its name. |
| Format.MetadataLine | src/format.rs:91-93 | A metadata line starts with the indent and the key, and ends with a newline. |
| Format.MetadataLines | src/format.rs:91-93 | No metadata renders as nothing. Otherwise the text is whole lines. |
| Format.MarkedItems | src/format.rs:81-86 | No tags (or links) render as nothing. Otherwise the text starts with a space. Content and order are stated by `MarkedItemsInOrder`. |
| Format.MarkedItemsInOrder | src/format.rs:81-86 | For any strictly ascending listing of exactly the items, the rendering is ` <mark><item>` for each item in that listing's order: every tag (link) once, in ascending order. |
| Format.MarkedItemsAddGreatest | src/format.rs:81-86 | An item greater than all the others is written last, after the text of the others. |
| Format.MarkedItemsPair | src/format.rs:81-86 | Two items x < y render as ` <mark>x <mark>y`. |
| Format.MarkedItemsExample | src/format.rs:81-83 | Tags `b` and `a` render as ` #a #b`. |
| Format.NamesText | src/format.rs:75-80 | Empty iff there is neither payee nor narration. What the missing escaping implies is stated by `QuotedPairAmbiguous` and `SameNamesSameRendering`. |
| Format.DatePrefix | src/format.rs:32-36 | The prefix starts with the year, then `-`, and ends with a space. |
| Format.HeaderLine | src/format.rs:37-90 | The header of every renderable kind is non-empty and ends with a newline. An account, payee or narration holding a newline makes it several lines, in the source as well. |
| Format.PriceText | src/format.rs:112-116 | No price renders as nothing. A unit price renders as ` @ ` then the amount, and a total price as ` @@ ` then the amount. |
| Format.CostText | src/format.rs:117-124 | Empty iff there is no cost amount. Otherwise ` {`, the amount, then `}`. |
| Format.RenderPosting | src/format.rs:107-130 | A posting starts with two spaces and its account, and is whole lines. |
| Format.RenderPostings | src/format.rs:94-98 | No postings render as nothing. Otherwise the text is whole lines. |
| Format.RenderDirective | src/format.rs:31-100 | The text is longer than the date prefix. `RenderDirectiveLines` states that it starts with the prefix and ends with a newline. |
| Format.RenderDirectiveLines | src/format.rs:31-100 | A directive's text is longer than its date prefix, starts with it and ends with a newline. |
| Format.DirectiveLines | src/format.rs:31-100 | The date prefix, a header line, metadata lines and posting lines together start with the prefix and end with a newline. |
| Format.DirectiveTextsAt | src/format.rs:20-22 | The k-th text is the rendering of the k-th directive. |
| Format.DirectiveTextsLines | src/format.rs:20-22 | Every directive's text is whole lines, and the first one is not empty. |
| Format.RenderFile | src/format.rs:19-24 | No directives render as nothing. Otherwise the text is whole lines. |
| Format.RenderBeancountFile | src/format.rs:15-25 | A file renders as its directive list, and as nothing iff it has no directives. |
| Format.QuotedPairAmbiguous | src/format.rs:10-13 | ` "x" "y"` equals the single quoted text `x" "y`. |
| Format.SameNamesSameRendering | src/format.rs:63-88 | Two transactions that agree on everything rendered, and whose payee and narration render alike, render identically. |
| Format.DirectiveTextsAppend | src/format.rs:20-22 | The renderings of a concatenation are the renderings of its parts, in order. |
| Format.LinesFor | src/format.rs:91-93 | Defines the metadata text for a given key order: one `indent key: value` line per key, in that order. |
| Format.MetadataLinesInKeyOrder | src/format.rs:91-93 | For any strictly ascending listing of exactly the metadata keys, the rendered metadata is one line per key in that listing's order. So the lines come in ascending key order, and the listing is unique. |
| Format.SortedKeysAddGreatest | src/format.rs:91 | Adding a key greater than all others appends it to the sorted key list. |
| Format.LinesForExtend | src/format.rs:91-93 | Extending the key list by a new greatest key appends its line. |
| Format.LinesAddGreatest | src/format.rs:91-93 | A new greatest key's line comes after all the others. |
| Format.MetadataLinesAddGreatest | src/format.rs:91-93 | Metadata rendering appends the line of a new greatest key at the end. |
| Format.FlagText | src/format.rs:64-74 | `!` for Incomplete, `*` for Completed or no flag. |
| Format.DatePrefixFields | src/format.rs:32-36 | The prefix is the year as is, `-`, month in two digits, `-`, day in two digits, then a space. The two-digit fields read back as month and day. |
| Format.OpenHeader | src/format.rs:47-55 | An Open lists each currency name once, strictly ascending, joined by `,`. |
| Format.CurrencyNamesCount | src/format.rs:48-53 | Distinct currencies have distinct names, so no name is lost or duplicated. |
| Format.CostWithoutAmountOmitted | src/format.rs:117-124 | A cost without an amount renders as no cost at all. |
| Format.PriceBeforeCost | src/format.rs:107-125 | A posting renders as the account, the amount, ` @ unit`, then ` {cost}`, then a newline and its metadata: the price comes before the cost. |
| Format.NoFlagRendersCompleted | src/format.rs:64-74 | An unflagged transaction renders exactly like a completed one. |
| Format.QuoteAmbiguous | src/format.rs:10-13 | Without escaping, two different transactions (a payee containing `" "` vs. payee + narration) render identically. |
| Format.DirectiveTexts | src/format.rs:20-22 | One rendering per directive. |
| Format.RenderFileAppend | src/format.rs:19-24 | A file renders as the concatenation of its parts' renderings, in order. |
| Text.ZeroPadValue | src/exp/mod.rs:574-584 | Zero padding keeps the decimal value. |
| Text.ZeroPadWidth | src/exp/mod.rs:574-584 | A number below 10^w pads to exactly w digits. |
| Text.ZeroPadInjective | src/closing.rs:38 | Different numbers pad to different strings. |
| Text.ZeroPadOfDigits | src/exp/mod.rs:248-276 | Padding the value of a w-digit string gives back that string. |
| Text.SortedSet | src/format.rs:4-8 | The set's elements, each once, strictly ascending. |
| Text.StrLtTransitive | src/format.rs:6 | String order is transitive. |
| Text.StrLtTotal | src/format.rs:6 | String order is total. |
| Text.AscendingUnique | src/format.rs:4-8 | A set has only one strictly ascending listing. |
| ExpScan.SplitAtNewline | src/exp/mod.rs:304-309 | The two parts concatenate to the input. The first ends at the first `\n` inclusive, or is all of the input. |
| ExpScan.ReadWhile | src/exp/mod.rs:210-218 | The maximal prefix of matching characters, then the rest. |
| ExpScan.MaximalSplitUnique | src/exp/mod.rs:210-218 | The maximal split is unique. |
| ExpScan.ReadWs | src/exp/mod.rs:220-228 | The maximal space/tab prefix, then the rest. |
| ExpScan.ReadWs1 | src/exp/mod.rs:232-246 | None iff the input is empty or does not start with space/tab. Otherwise a non-empty maximal blank prefix. |
| ExpScan.ReadNumber | src/exp/mod.rs:288-302 | None iff the input is empty or starts with a non-digit. Otherwise the non-empty maximal digit prefix. |
| ExpScan.ReadChar | src/exp/mod.rs:278-286 | None iff the input is empty. Otherwise the first character and the rest. |
| ExpScan.ReadAccount | src/exp/mod.rs:201-208 | Always Some: the maximal prefix of account characters, then the rest. |
| ExpScan.IndexOf | src/exp/mod.rs:176-181 | The first position of a character, or None iff it does not occur. |
| ExpScan.ReadToken | src/exp/mod.rs:152-187 | The text and the rest concatenate to the input. Blanks are maximal, and Whitespace/WhitespaceAndEnd depends on the end of the line. `;` starts a comment to the end of the line. A closed `"…"` string is read to its closing quote; an unclosed one is Invalid up to the end of the line. |
| ExpScan.ReadOptInlineComment | src/exp/mod.rs:189-199 | Some iff the line after its blanks is empty, ends, or starts a `;` comment. It returns the blanks (or the whole line), the comment, and the following lines. |
| ExpScan.InlineCommentConcat | src/exp/mod.rs:189-199 | The three parts concatenate to the input. |
| ExpScan.SepChar | src/exp/mod.rs:531-537 | `-` or `/`, and reading it back gives the same separator. |
| ExpScan.SepFromChar | src/exp/mod.rs:538-546 | Some exactly for `-` and `/`. |
| ExpScan.DaysInMonth | src/exp/mod.rs:558-568 | Months have 28 to 31 days, 29 exactly for February of a leap year. |
| ExpScan.YearText | src/exp/mod.rs:574-584 | The year is written with at least four characters, starting with `-` iff it is negative. |
| ExpScan.DateToString | src/exp/mod.rs:574-584 | A date is written with at least ten characters, and the separator follows the year. |
| ExpScan.FromYmd | src/exp/mod.rs:558-568 | Some iff the year, month and day form a valid calendar date, with those fields and the separator. |
| ExpScan.ReadDate | src/exp/mod.rs:248-276 | An accepted date is valid, has a year in 0..9999, and renders back to exactly the consumed prefix. |
| ExpScan.ReadMonthDay | src/exp/mod.rs:255-276 | After the year and separator, the same as `ReadDate`. |
| ExpScan.ReadDay | src/exp/mod.rs:259-276 | After the month and the second separator, the same as `ReadDate`. |
| ExpScan.DateFieldsRender | src/exp/mod.rs:574-584 | A date built from 4/2/2 digit fields renders back to those fields joined by its separator. |
| ExpScan.ReadNumberAt | src/exp/mod.rs:288-302 | A digit run ending before a non-digit is what `read_number` returns. |
| ExpScan.ReadDateAccepts | src/exp/mod.rs:248-276 | Accepted iff the input is 4/2/2 digits joined by one repeated separator, not followed by a digit, forming a valid date. The rest is everything after the 10 characters. |
| ExpScan.ShapedDateReads | src/exp/mod.rs:248-276 | A date-shaped input is accepted with ten characters consumed. |
| ExpScan.ReadDateShaped | src/exp/mod.rs:248-276 | An accepted input is date-shaped, and ten characters are consumed. |
| ExpScan.DateTextFields | src/exp/mod.rs:574-584 | A date renders as 10 characters: year in 4 digits, separator, month in 2, separator, day in 2. |
| ExpScan.DateTextInjective | src/exp/mod.rs:574-584 | Different dates render differently. |
| ExpScan.DateRoundTrip | src/exp/mod.rs:248-276 | Reading back a rendered valid date followed by a non-digit gives the same date and rest. |
| Exp.EntryTexts | src/exp/mod.rs:328-332 | Defines the texts of a list of entries: one text per entry, in order. |
| Exp.ParseOpen | src/exp/mod.rs:96-118 | An accepted `open` line writes back to the pre-comments and the consumed text, with the read date and comments. |
| Exp.OpenTextConcat | src/exp/mod.rs:497-511 | An Open writes back as its comments, date, blanks, `open`, account, blanks and comment, in order. |
| Exp.TransactionTextConcat | src/exp/mod.rs:462-474 | A transaction writes back as its comments, date, blanks, type, blanks and comment, in order. |
| Exp.ParseDirectiveOpt | src/exp/mod.rs:92-139 | An accepted directive is an Open or a `txn`/`*` transaction with the read date and comments. It consumes at least the 10-character date and writes back exactly the comments and the consumed text. |
| Exp.ParseTxn | src/exp/mod.rs:119-135 | An accepted `txn`/`*` line is a transaction with the read date, type and comments, no narration, and it writes back the consumed text. |
| Exp.ParseDirective | src/exp/mod.rs:82-90 | A line that is not a well-formed directive becomes one InvalidLine holding the whole line. The entry text and the rest concatenate to the input, and the input shrinks. |
| Exp.ParseComments | src/exp/mod.rs:59-80 | The loop computes `CommentsSpec`: it reads `;` lines until a non-comment. If a directive follows and parses, it absorbs them as pre-comments; otherwise they form a CommentBlock of comment lines, and the rest neither starts with `;` nor with a directive that parses. The text written back is exactly the consumed input. |
| Exp.ParseEntry | src/exp/mod.rs:24-56 | Equals `EntrySpec`. Blank/ignored starts give an IgnoredLine of the first line and the rest; `;` a comment block or directive; a digit exactly `parse_directive`; anything else an InvalidLine of the first line and the rest. The input always shrinks, and the text written back is exactly what was consumed. |
| Exp.ParseRoot | src/exp/mod.rs:12-21 | The loop computes `RootSpec`. The entries' texts concatenate to the input, and no entry is empty. |
| Exp.Parse | src/exp/mod.rs:311-332 | The file holds the given name and `RootSpec` of the input. Lossless round trip: the file written back equals the input, and it has no entries iff the input is empty. |
| Exp.CommentsSpec | src/exp/mod.rs:59-80 | The entry text and the rest concatenate to the comments read so far plus the input. A leading `;` line is always consumed. |
| Exp.EntrySpec | src/exp/mod.rs:24-56 | The entry text and the rest concatenate to the input, and the input shrinks. |
| Exp.RootSpec | src/exp/mod.rs:12-21 | The entries' texts concatenate to the input. |
| Exp.RootSpecStep | src/exp/mod.rs:15-19 | One loop iteration appends the next `EntrySpec` entry and continues from its rest; the entry written back is never empty. |
| Exp.TransactionText | src/exp/mod.rs:462-474 | A transaction writes back starting with its comments and date, and ending with its inline comment. |
| Exp.OpenText | src/exp/mod.rs:497-511 | An Open writes back starting with its comments, date, blanks and `open`, and ending with its inline comment. |
| Exp.DirectiveText | src/exp/mod.rs:407-415 | A transaction or Open writes back starting with its pre-comments. |
| Exp.EntryText | src/exp/mod.rs:372-382 | A comment block writes back starting with its first comment, and an Open directive with its pre-comments. |
| Exp.FileText | src/exp/mod.rs:328-332 | A file with no entries writes back as nothing; otherwise it starts with its first entry's text. |
| Exp.NarrationNotWritten | src/exp/mod.rs:462-474 | The narration is not part of the text written back. |
| Exp.EntrySpecComment | src/exp/mod.rs:48 | An entry starting with `;` is read by `parse_comments` with no comments yet. |
| Exp.EntrySpecInvalid | src/exp/mod.rs:49-54 | A line that is not ignored, not a comment, and not a directive that parses becomes an InvalidLine of the first line, with the rest left. |
| Exp.OpenHead | src/exp/mod.rs:92-100 | A date, blanks and `open` make `parse_directive_opt` the Open parser, over exactly that text. |
| Exp.OpenTrailingRejected | src/exp/mod.rs:100-104 | An Open whose account is followed by something other than blanks, a comment or the end is rejected. |
| Exp.OpenWithTrailingWordRejected | tests/exp.rs:50-59 | `2023-01-02 open Assets:Test invalid` is not a directive. |
| Exp.ParsesOpenWithInvalidLastTerm | tests/exp.rs:50-59 | The test input parses to exactly one InvalidLine holding the whole input. |
| Exp.InvalidLineThen | src/exp/mod.rs:12-56 | An invalid first line becomes one InvalidLine entry, and parsing continues with the rest. |
| Exp.ParsesTwoUnknownLines | tests/exp.rs:24-32 | `line1\nline2` parses to two InvalidLines, `line1\n` and `line2`. |
| Exp.TwoInvalidLines | src/exp/mod.rs:12-21 | Two lines that are no comment and cannot start a directive, the first ended by a newline, parse to two InvalidLines. |
| Exp.ParsesComments | tests/exp.rs:119-127 | `;comment1\n;comment2\n` parses to one CommentBlock of both lines. |
| ExpTransaction.Lexer.ReadToken | src/exp/transaction.rs:73 | Returns the next token (an empty end of line once exhausted) and consumes it. |
| ExpTransaction.Initial | src/exp/transaction.rs:62-72 | The header starts with the given comments, date and type, and empty everything else. |
| ExpTransaction.ToString | src/exp/transaction.rs:31-53 | Builds comments, date, type, payee, narration, each tag/link with its whitespace, trailing whitespace, comment, end of line — in that order. |
| ExpTransaction.AppendTags | src/exp/transaction.rs:43-46 | Appends each tag or link after its leading whitespace, in order: the result is the start followed by `TagsText`. |
| ExpTransaction.ParseTransactionComment | src/exp/transaction.rs:214-225 | The comment must be followed by an end of line, else None. |
| ExpTransaction.ParseTransactionTagsAndLinks | src/exp/transaction.rs:180-212 | The loop computes the tags state, consuming exactly its tokens. |
| ExpTransaction.ParseTransaction | src/exp/transaction.rs:56-81 | The parser computes the header state machine from the empty header, consuming exactly its tokens. |
| ExpTransaction.ParseAfterFirstWs | src/exp/transaction.rs:82-118 | The states after the first whitespace. |
| ExpTransaction.ParseAfterSecondWs | src/exp/transaction.rs:119-179 | The states after the second whitespace. |
| ExpTransaction.TransactionText | src/exp/transaction.rs:31-53 | The header writes back starting with its comments and ending with its end of line. |
| ExpTransaction.HeaderSpec | src/exp/transaction.rs:56-81 | Leaves at most as many tokens as it was given (that they are a suffix is stated by `HeaderProps`). An accepted header keeps the comments, date and type, and tags and links are only appended. |
| ExpTransaction.AfterFirstWs | src/exp/transaction.rs:82-105 | The same for the state after the first whitespace. |
| ExpTransaction.AfterFirstString | src/exp/transaction.rs:106-118 | The same for the state after the first string. |
| ExpTransaction.AfterSecondWs | src/exp/transaction.rs:119-147 | The same for the state after the second whitespace. |
| ExpTransaction.AfterPayeeNarration | src/exp/transaction.rs:146-156 | The same for the state after payee and narration. |
| ExpTransaction.AfterThirdWs | src/exp/transaction.rs:157-178 | The same for the state after the third whitespace. |
| ExpTransaction.TagsSpec | src/exp/transaction.rs:180-212 | The same for the tags and links loop. |
| ExpTransaction.CommentSpec | src/exp/transaction.rs:214-225 | The same, and an accepted header stores exactly the comment and no further tags. |
| ExpTransaction.CommentSpecProps | src/exp/transaction.rs:214-225 | Some iff an end of line follows the comment. The comment and end of line are written after the header. |
| ExpTransaction.TagsSpecPairs | src/exp/transaction.rs:180-212 | The tags and links appended are exactly the whitespace+item pairs read, in order, and a suffix of the tokens is left. |
| ExpTransaction.TagsSpecRoundTrip | src/exp/transaction.rs:180-212 | With the whitespace before a trailing comment kept, the header written back is the header so far plus exactly the consumed tokens' text. |
| ExpTransaction.TagsPairsWsEnd | src/exp/transaction.rs:194-210 | When whitespace is followed by no tag or link, the tags loop leaves a suffix of the tokens, and the tags and links kept plus the pairs in what is left are the earlier ones plus the pairs of the input. |
| ExpTransaction.TagsRoundTripAfterWs | src/exp/transaction.rs:194-210 | The same for a whitespace-then-item step. |
| ExpTransaction.BodyAddItem | src/exp/transaction.rs:43-46 | A new tag or link is written after the earlier ones, with its whitespace. |
| ExpTransaction.WsEolStep | src/exp/transaction.rs:85-89 | An end of line after whitespace stores that whitespace as the trailing whitespace. |
| ExpTransaction.WsCommentStep | src/exp/transaction.rs:90-93 | A comment after whitespace keeps that whitespace as the trailing whitespace. |
| ExpTransaction.WsItemStep | src/exp/transaction.rs:94-103 | A tag or link after whitespace is stored with that whitespace and starts the tags loop. |
| ExpTransaction.AfterThirdWsProps | src/exp/transaction.rs:157-178 | After payee+narration and whitespace: the tags are the pairs read, and the text round-trips (with the kept whitespace). |
| ExpTransaction.AfterPayeeNarrationProps | src/exp/transaction.rs:146-156 | After payee and narration, the same. |
| ExpTransaction.AfterSecondWsProps | src/exp/transaction.rs:119-147 | A suffix of the tokens is left. The tags and links are exactly the whitespace+item pairs read, in order, and with the kept whitespace the header writes back to the text so far plus the consumed tokens. |
| ExpTransaction.AfterFirstStringProps | src/exp/transaction.rs:106-118 | A suffix of the tokens is left. The tags and links are exactly the pairs read, and with the kept whitespace the header writes back to the text so far plus the consumed tokens. |
| ExpTransaction.AfterFirstWsProps | src/exp/transaction.rs:83-105 | After the first whitespace, the same. |
| ExpTransaction.AfterSecondWsNames | src/exp/transaction.rs:119-147 | After ` s1 ws2`: if another string follows, s1 (with its whitespace) is the payee and that string the narration; otherwise there is no payee and s1 is the narration. This holds whatever tags, links or comment follow. |
| ExpTransaction.AfterFirstStringNames | src/exp/transaction.rs:106-118 | After a first string, payee and narration are `HeaderNames` of the tokens read from the first whitespace on. |
| ExpTransaction.AfterFirstWsNames | src/exp/transaction.rs:82-105 | After the first whitespace, payee and narration are `HeaderNames` of the tokens from there on. |
| ExpTransaction.HeaderNamesProps | src/exp/transaction.rs:56-212 | From the empty header, an accepted header's payee and narration are `HeaderNames` of the tokens: the first of two leading strings is the payee and the second the narration, and a single string is the narration. Tags, links and a trailing comment make no difference. |
| ExpTransaction.PayeeNarrationKept | src/exp/transaction.rs:146-212 | Once payee and narration are read, the later states never change them. |
| ExpTransaction.CommentKeepsNames | src/exp/transaction.rs:214-225 | Reading the comment never changes payee or narration. |
| ExpTransaction.UnexpectedRejected | src/exp/transaction.rs:80-225 | In every state, a token the state does not handle gives None. |
| ExpTransaction.TagsRejectAfterWs | src/exp/transaction.rs:194-211 | In the tags loop, whitespace followed by anything but an end of line, comment, tag or link gives None. |
| ExpTransaction.HeaderProps | src/exp/transaction.rs:56-212 | From the empty header: a prefix of the tokens is consumed, and the tags and links are exactly its whitespace+item pairs, in order. With the whitespace before a trailing comment kept, the header writes back to comments + date + type + the consumed tokens' text. |
| ExpTransaction.HeaderBare | src/exp/transaction.rs:73-77 | An end of line right after the type gives no payee, narration or tags, and sets the end of line. |
| ExpTransaction.HeaderNarration | src/exp/transaction.rs:106-112 | ` "n"` then end of line: narration n with its whitespace, no payee. |
| ExpTransaction.HeaderPayeeNarration | src/exp/transaction.rs:119-153 | ` "p" "n"` then end of line: payee p and narration n, each with its whitespace. |
| ExpTransaction.HeaderRejects | src/exp/transaction.rs:80 | Any token other than whitespace, comment or end of line after the type gives None. |
| ExpTransaction.DroppedWhitespace | src/exp/transaction.rs:208 | As written, ` #a ;c` after the type writes back without the space before `;c`. |
| ExpTransaction.TagsKeepAgree | src/exp/transaction.rs:184-211 | The tags loop as written and with the whitespace kept differ at most in `ws_last`: same tokens left, same acceptance, same header otherwise. They are equal when no whitespace token is directly followed by a comment. |
| ExpTransaction.AfterThirdWsKeepAgree | src/exp/transaction.rs:157-178 | The same after payee, narration and whitespace. They are also equal when the header gets no tags or links. |
| ExpTransaction.AfterPayeeNarrationKeepAgree | src/exp/transaction.rs:146-156 | The same after payee and narration. |
| ExpTransaction.AfterSecondWsKeepAgree | src/exp/transaction.rs:119-147 | The same after a string and whitespace. |
| ExpTransaction.AfterFirstStringKeepAgree | src/exp/transaction.rs:106-118 | The same after the first string. |
| ExpTransaction.AfterFirstWsKeepAgree | src/exp/transaction.rs:83-105 | The same after the first whitespace. |
| ExpTransaction.HeaderKeepAgree | src/exp/transaction.rs:56-212 | `parse_transaction` as written and corrected differ at most in `ws_last`. They agree exactly when no whitespace token is directly followed by a comment, and whenever the header gets no tags or links. |
| ExpTransaction.AsWrittenRoundTrip | src/exp/transaction.rs:56-212 | As written, with no whitespace token directly before a comment: writing back an accepted header gives comments + date + type + the consumed tokens' text. |
| ExpTransaction.AsWrittenRoundTripNoTags | src/exp/transaction.rs:56-212 | As written, an accepted header without tags or links writes back to comments + date + type + the consumed tokens' text, whatever comment follows. |

## Left out

- Transaction booking and posting-weight resolution are not in the modelled files. Nothing computes `balanced`; it is carried as a field.
- `src/parse.rs` (conversion from an external Beancount parser), `src/importers/revolut.rs` (CSV, hashing, decimal parsing), `src/check.rs`, `src/main.rs` and `src/lib.rs` are not part of this model.
- Console output is not modelled. The closing matcher returns its matches, and the balance checker returns its failure list, instead of printing them.
- `rust_decimal` precision and rounding are not modelled: amounts are exact reals. Stock split therefore requires `ratio != 0` where the source would panic on division by zero.
- The `Display` of the number type `D` is a parameter `num: real -> string` of the serialiser.
- Format.RenderDirective: requires a directive that is not an Event, because the source panics there (`unimplemented!`).
- The chrono calendar is replaced by a Gregorian valid-date predicate with leap years. Years are bounded by chrono's range, and `read_date` reads only four-digit years.
- Character classes are ASCII: `is_numeric` is `0`–`9`, and `is_alphanumeric` is ASCII letters and digits. UTF-8 byte offsets are indices into `seq<char>`.
- ExpScan.ReadToken: requires its input to start with a blank, `;`, `"`, or nothing, because the source reaches `todo!()` on any other first character.
- `Lexer`, `Token`, `WithWS` and `TagOrLink` are not part of this model's sources. The lexer is modelled as a token sequence, and each token carries the text it was read from.
- ExpTransaction.ParseTransaction: returns the header itself, not a `Directive` wrapping it.
- `parse_transaction` is split into three methods (`ParseTransaction`, `ParseAfterFirstWs`, `ParseAfterSecondWs`), one per stretch of the source function. They run the same branches in the same order.
- `File::parse` always succeeds, so Exp.Parse returns the file rather than a `Result`.
- `parse_directive_opt` never produces a `Close`, and the mod.rs transaction never gets a narration. Both stay as in the source.
- `Pragma` has no values and is not modelled.
- Quoting does not escape `"`; the model keeps that and shows the resulting ambiguity (Format.QuoteAmbiguous).
- The closing matcher's unit test uses clearing postings without amounts. The source skips those, so the contract is stated for explicit amounts.

## Findings

| source | as written | input that shows it | evidently intended | confidence | as-written member | corrected member |
|---|---|---|---|---|---|---|
| src/exp/transaction.rs:208 | After a tag or link, a whitespace token followed by a comment goes to `parse_transaction_comment` without storing the whitespace in `ws_last`. | ` #a ;c` then end of line, after the type | Store the whitespace in `ws_last`, as every other state does (lines 90-92, 127-130, 163-166), so the header writes back unchanged | not executed | ExpTransaction.DroppedWhitespace | ExpTransaction.HeaderProps |
