/**
 * The ledger data model: a file is a list of dated directives; a transaction
 * holds postings; amounts are exact `real` values tagged with a currency.
 */
module Types {
  import opened Wrappers

  datatype Currency = Currency(name: string)

  datatype Account = Account(name: string)

  /** A calendar date as the parser hands it over (year, month, day). */
  datatype Date = Date(year: int, month: nat, day: nat)

  datatype Flag = Completed | Incomplete

  datatype Amount = Amount(value: real, currency: Currency)

  /** The acquisition cost of a lot, `{...}` on a posting. */
  datatype Cost = Cost(amount: Option<Amount>, date: Option<Date>)

  /** `@ unit` or `@@ total` conversion price on a posting. */
  datatype PostingPrice = Unit(amount: Amount) | Total(amount: Amount)

  datatype MetadataValue = Str(text: string) | Number(number: real) | CurrencyValue(currency: Currency)

  type Metadata = map<string, MetadataValue>

  datatype Posting = Posting(
    flag: Option<Flag>,
    account: Account,
    amount: Option<Amount>,
    cost: Option<Cost>,
    price: Option<PostingPrice>,
    metadata: Metadata,
    autocomputed: bool)

  datatype Transaction = Transaction(
    flag: Option<Flag>,
    payee: Option<string>,
    narration: Option<string>,
    tags: set<string>,
    links: set<string>,
    postings: seq<Posting>,
    balanced: bool)

  datatype DirectiveContent =
    | Balance(account: Account, amount: Amount)
    | Close(account: Account)
    | Commodity(currency: Currency)
    | Event(name: string, value: string)
    | Open(account: Account, currencies: set<Currency>)
    | Pad(account: Account, sourceAccount: Account)
    | Price(currency: Currency, amount: Amount)
    | Txn(transaction: Transaction)

  datatype Directive = Directive(date: Date, content: DirectiveContent, metadata: Metadata)

  /** A parsed file; its directive list is updated in place by the transforms. */
  class BeancountFile {
    var directives: seq<Directive>

    constructor (ds: seq<Directive>)
      ensures directives == ds
    {
      directives := ds;
    }
  }

  /** The flattened include tree: (path, file) pairs in include order. */
  datatype Ledger = Ledger(files: seq<(string, BeancountFile)>)
}
