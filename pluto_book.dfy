/** A book of accounts: accounts that hold transactions, found by id, a
    default account, and sent invoices numbered by a running indexer. A
    collection the book has not been given is null, and the operations
    throw on it as the book does. */
module PlutoBooks {
  import opened Wrappers
  import opened Text

  datatype TransactionType = Debit | Credit

  datatype AccountType = Asset | Liability | Equity | Payable | Receiveable | Income | Expense | Cash | Bank

  /** A transaction: the six fields EditTransaction copies. The decimal
      amount and the date are whole numbers here. */
  datatype Transaction = Transaction(id: string, amount: int, date: int, details: string, tag: string, kind: TransactionType)

  /** An account; its transaction collection is null until one is given. */
  datatype Account = Account(id: string, name: string, kind: AccountType, transactions: Option<seq<Transaction>>)

  /** An invoice: its index and the details copied from a source invoice. */
  datatype Invoice = Invoice(index: int, details: string)

  function AccountIds(accounts: seq<Account>): (r: seq<string>)
    ensures |r| == |accounts| && forall i :: 0 <= i < |accounts| ==> r[i] == accounts[i].id
  {
    seq(|accounts|, i requires 0 <= i < |accounts| => accounts[i].id)
  }

  function TransactionIds(transactions: seq<Transaction>): (r: seq<string>)
    ensures |r| == |transactions| && forall i :: 0 <= i < |transactions| ==> r[i] == transactions[i].id
  {
    seq(|transactions|, i requires 0 <= i < |transactions| => transactions[i].id)
  }

  /** Accounts?.FirstOrDefault(x => x.Id == id), as a position: the first
      account with the id, or -1 when there is none or no collection. */
  function FindAccount(accounts: Option<seq<Account>>, id: string): (r: int)
    ensures accounts.None? ==> r == -1
    ensures accounts.Some? ==> -1 <= r < |accounts.value|
    ensures r == -1 <==> accounts.None? || forall i :: 0 <= i < |accounts.value| ==> accounts.value[i].id != id
    ensures r >= 0 ==> accounts.value[r].id == id && forall i :: 0 <= i < r ==> accounts.value[i].id != id
  {
    if accounts.None? then -1
    else
      var ids := AccountIds(accounts.value);
      var r := IndexOf(ids, id);
      assert forall i :: 0 <= i < r ==> ids[i] == ids[..r][i];
      r
  }

  /** The first transaction with the id, or -1. */
  function FindTransaction(transactions: seq<Transaction>, id: string): (r: int)
    ensures -1 <= r < |transactions|
    ensures r == -1 <==> forall i :: 0 <= i < |transactions| ==> transactions[i].id != id
    ensures r >= 0 ==> transactions[r].id == id && forall i :: 0 <= i < r ==> transactions[i].id != id
  {
    var ids := TransactionIds(transactions);
    var r := IndexOf(ids, id);
    assert forall i :: 0 <= i < r ==> ids[i] == ids[..r][i];
    r
  }

  /** No two accounts share an id. */
  predicate UniqueIds(accounts: seq<Account>)
  {
    forall i, j :: 0 <= i < j < |accounts| ==> accounts[i].id != accounts[j].id
  }

  /** The account CreateAccount adds: no tag and no transaction collection. */
  function NewAccount(name: string, id: string, kind: AccountType): Account
  {
    Account(id, name, kind, None)
  }

  /** CreateAccount(name, id, type): refused on a missing collection or a
      taken id; otherwise one account is appended. */
  function Created(accounts: Option<seq<Account>>, name: string, id: string, kind: AccountType): (r: Result<seq<Account>>)
    ensures accounts.None? ==> r == Failure(InvalidOperation("Accounts was null"))
    ensures accounts.Some? && FindAccount(accounts, id) >= 0 ==> r == Failure(InvalidOperation("An account with that Id already exists"))
    ensures r.Success? <==> accounts.Some? && FindAccount(accounts, id) == -1
    ensures r.Success? ==> |r.value| == |accounts.value| + 1 && r.value[..|accounts.value|] == accounts.value
  {
    if accounts.None? then Failure(InvalidOperation("Accounts was null"))
    else if FindAccount(accounts, id) >= 0 then Failure(InvalidOperation("An account with that Id already exists"))
    else
      var r := accounts.value + [NewAccount(name, id, kind)];
      assert r[..|accounts.value|] == accounts.value;
      Success(r)
  }

  /** After CreateAccount(name, id, type) the account is found by its id,
      and ids stay unique. */
  lemma CreatedFound(accounts: Option<seq<Account>>, name: string, id: string, kind: AccountType)
    requires Created(accounts, name, id, kind).Success?
    ensures var a := Created(accounts, name, id, kind).value;
      FindAccount(Some(a), id) == |accounts.value| && a[|accounts.value|] == NewAccount(name, id, kind)
    ensures UniqueIds(accounts.value) ==> UniqueIds(Created(accounts, name, id, kind).value)
  {
    var a := Created(accounts, name, id, kind).value;
    assert FindAccount(accounts, id) == -1;
    assert forall i :: 0 <= i < |accounts.value| ==> a[i] == accounts.value[i] && a[i].id != id;
    assert a[|accounts.value|].id == id;
  }

  /** The book's accounts after adding t to account k. */
  function WithTransaction(accounts: seq<Account>, k: int, t: Transaction): (r: seq<Account>)
    requires 0 <= k < |accounts| && accounts[k].transactions.Some?
    ensures |r| == |accounts| && AccountIds(r) == AccountIds(accounts)
    ensures r[k].transactions == Some(accounts[k].transactions.value + [t])
    ensures forall i :: 0 <= i < |accounts| && i != k ==> r[i] == accounts[i]
  {
    var r := accounts[k := accounts[k].(transactions := Some(accounts[k].transactions.value + [t]))];
    assert AccountIds(r) == AccountIds(accounts);
    r
  }

  /** EditTransaction's copy: the transaction takes every field of the
      source, the id included. */
  function Edited(transactions: seq<Transaction>, k: int, source: Transaction): (r: seq<Transaction>)
    requires 0 <= k < |transactions|
    ensures |r| == |transactions| && r[k] == source
    ensures forall i :: 0 <= i < |transactions| && i != k ==> r[i] == transactions[i]
  {
    transactions[k := Transaction(source.id, source.amount, source.date, source.details, source.tag, source.kind)]
  }

  /** Editing the first transaction with the source's id keeps the ids. */
  lemma EditedKeepsIds(transactions: seq<Transaction>, source: Transaction)
    requires FindTransaction(transactions, source.id) >= 0
    ensures var k := FindTransaction(transactions, source.id);
      TransactionIds(Edited(transactions, k, source)) == TransactionIds(transactions)
  {
  }

  /** Collection<T>.Remove of the first transaction with the id. */
  function Deleted(transactions: seq<Transaction>, k: int): (r: seq<Transaction>)
    requires 0 <= k < |transactions|
    ensures |r| == |transactions| - 1
    ensures multiset(r) + multiset{transactions[k]} == multiset(transactions)
  {
    assert transactions == transactions[..k] + [transactions[k]] + transactions[k + 1..];
    transactions[..k] + transactions[k + 1..]
  }

  /** Deleting by the id of a transaction just added, whose id was new to
      the account, gives the transactions back. */
  lemma AddThenDelete(transactions: seq<Transaction>, t: Transaction)
    requires FindTransaction(transactions, t.id) == -1
    ensures FindTransaction(transactions + [t], t.id) == |transactions|
    ensures Deleted(transactions + [t], |transactions|) == transactions
  {
    var s := transactions + [t];
    assert forall i :: 0 <= i < |transactions| ==> s[i] == transactions[i] && s[i].id != t.id;
    assert s[|transactions|].id == t.id;
    assert s[..|transactions|] == transactions;
  }

  /** Every sent invoice has a distinct index no greater than the indexer. */
  predicate IndexedBelow(invoices: seq<Invoice>, indexer: int)
  {
    (forall i :: 0 <= i < |invoices| ==> invoices[i].index <= indexer) &&
    (forall i, j :: 0 <= i < j < |invoices| ==> invoices[i].index != invoices[j].index)
  }

  /** CreateSentInvoice keeps the indices distinct: the indexer moves one
      past every index given so far, and the new invoice takes it. */
  lemma IndexedFresh(invoices: seq<Invoice>, indexer: int, details: string)
    requires IndexedBelow(invoices, indexer)
    ensures IndexedBelow(invoices + [Invoice(indexer + 1, details)], indexer + 1)
    ensures forall i :: 0 <= i < |invoices| ==> invoices[i].index != indexer + 1
  {
  }

  /** A book of accounts. */
  class PlutoBook {
    var name: Option<string>
    var defaultAccountId: Option<string>
    var accounts: Option<seq<Account>>
    var sentInvoices: Option<seq<Invoice>>
    var receivedInvoices: Option<seq<Invoice>>
    var invoiceIndexer: int

    /** PlutoBook(): every reference null and the indexer 0. */
    constructor()
      ensures name.None? && defaultAccountId.None? && accounts.None?
      ensures sentInvoices.None? && receivedInvoices.None? && invoiceIndexer == 0
    {
      name := None;
      defaultAccountId := None;
      accounts := None;
      sentInvoices := None;
      receivedInvoices := None;
      invoiceIndexer := 0;
    }

    /** GetAccount(accountId): the first account with the id, or null. */
    function GetAccount(accountId: string): (r: Option<Account>)
      reads this
      ensures r.Some? <==> FindAccount(accounts, accountId) >= 0
      ensures r.Some? ==> r.value == accounts.value[FindAccount(accounts, accountId)] && r.value.id == accountId
    {
      var k := FindAccount(accounts, accountId);
      if k < 0 then None else Some(accounts.value[k])
    }

    /** DefaultAccount: the account of DefaultAccountId, or null. */
    function DefaultAccount(): (r: Option<Account>)
      reads this
      ensures defaultAccountId.None? ==> r.None?
      ensures r.Some? ==> defaultAccountId.Some? && accounts.Some? && r.value.id == defaultAccountId.value && r.value in accounts.value
    {
      if defaultAccountId.None? then None else GetAccount(defaultAccountId.value)
    }

    /** CreateAccount(name, type): the id is the one Horus.GenerateId()
        produced, passed in; it is not checked against the accounts. */
    method CreateAccount(name: string, kind: AccountType, generatedId: string) returns (r: Result<Account>)
      modifies this
      ensures old(accounts).None? ==> r == Failure(InvalidOperation("Accounts was null")) && accounts.None?
      ensures old(accounts).Some? ==>
        r == Success(NewAccount(name, generatedId, kind)) && accounts == Some(old(accounts).value + [r.value])
      ensures defaultAccountId == old(defaultAccountId) && sentInvoices == old(sentInvoices)
      ensures receivedInvoices == old(receivedInvoices) && invoiceIndexer == old(invoiceIndexer)
    {
      if accounts.None? {
        return Failure(InvalidOperation("Accounts was null"));
      }
      var account := NewAccount(name, generatedId, kind);
      accounts := Some(accounts.value + [account]);
      r := Success(account);
    }

    /** CreateAccount(name, id, type). */
    method CreateAccountWithId(name: string, id: string, kind: AccountType) returns (r: Result<Account>)
      modifies this
      ensures var c := Created(old(accounts), name, id, kind);
        (c.Failure? ==> r == Failure(c.error) && accounts == old(accounts)) &&
        (c.Success? ==> r == Success(NewAccount(name, id, kind)) && accounts == Some(c.value))
      ensures r.Success? ==> GetAccount(id) == Some(r.value)
      ensures old(accounts).Some? && UniqueIds(old(accounts).value) ==> UniqueIds(accounts.value)
      ensures defaultAccountId == old(defaultAccountId) && sentInvoices == old(sentInvoices)
      ensures receivedInvoices == old(receivedInvoices) && invoiceIndexer == old(invoiceIndexer)
    {
      if accounts.None? {
        return Failure(InvalidOperation("Accounts was null"));
      }
      var existing := GetAccount(id);
      if existing.Some? {
        return Failure(InvalidOperation("An account with that Id already exists"));
      }
      CreatedFound(accounts, name, id, kind);
      var account := NewAccount(name, id, kind);
      accounts := Some(accounts.value + [account]);
      r := Success(account);
    }

    /** ChangeDefaultAccount(newId): nothing for the current id; an unknown
        id throws AccountNotFoundException. */
    method ChangeDefaultAccount(newId: string) returns (err: Option<Exception>)
      modifies this
      ensures old(defaultAccountId) == Some(newId) ==> err.None? && defaultAccountId == old(defaultAccountId)
      ensures old(defaultAccountId) != Some(newId) && FindAccount(accounts, newId) == -1 ==>
        err == Some(AccountNotFound) && defaultAccountId == old(defaultAccountId)
      ensures old(defaultAccountId) != Some(newId) && FindAccount(accounts, newId) >= 0 ==>
        err.None? && defaultAccountId == Some(newId)
      ensures accounts == old(accounts) && sentInvoices == old(sentInvoices)
      ensures receivedInvoices == old(receivedInvoices) && invoiceIndexer == old(invoiceIndexer)
    {
      if defaultAccountId == Some(newId) {
        return None;
      }
      var acc := GetAccount(newId);
      if acc.None? {
        return Some(AccountNotFound);
      }
      defaultAccountId := Some(acc.value.id);
      err := None;
    }

    /** AddTransaction(accountId, transaction): an unknown account throws
        AccountNotFoundException, an account without a transaction
        collection NullReferenceException. */
    method AddTransaction(accountId: string, t: Transaction) returns (err: Option<Exception>)
      modifies this
      ensures var k := FindAccount(old(accounts), accountId);
        (k == -1 ==> err == Some(AccountNotFound) && accounts == old(accounts)) &&
        (k >= 0 && old(accounts).value[k].transactions.None? ==> err == Some(NullReference) && accounts == old(accounts)) &&
        (k >= 0 && old(accounts).value[k].transactions.Some? ==>
          err.None? && accounts == Some(WithTransaction(old(accounts).value, k, t)))
      ensures defaultAccountId == old(defaultAccountId) && sentInvoices == old(sentInvoices)
      ensures receivedInvoices == old(receivedInvoices) && invoiceIndexer == old(invoiceIndexer)
    {
      var k := FindAccount(accounts, accountId);
      if k == -1 {
        return Some(AccountNotFound);
      }
      var acc := accounts.value[k];
      if acc.transactions.None? {
        return Some(NullReference);
      }
      accounts := Some(WithTransaction(accounts.value, k, t));
      err := None;
    }

    /** EditTransaction(accountId, source): the first transaction with the
        source's id takes the source's fields. A missing account or
        transaction throws; an account without a transaction collection
        makes FirstOrDefault throw ArgumentNullException. */
    method EditTransaction(accountId: string, source: Transaction) returns (err: Option<Exception>)
      modifies this
      ensures var k := FindAccount(old(accounts), accountId);
        (k == -1 ==> err == Some(AccountNotFound) && accounts == old(accounts)) &&
        (k >= 0 ==> var acc := old(accounts).value[k];
          (acc.transactions.None? ==> err == Some(ArgumentNull) && accounts == old(accounts)) &&
          (acc.transactions.Some? ==> var j := FindTransaction(acc.transactions.value, source.id);
            (j == -1 ==> err == Some(TransactionNotFound) && accounts == old(accounts)) &&
            (j >= 0 ==> (err.None? &&
              accounts == Some(old(accounts).value[k := acc.(transactions := Some(Edited(acc.transactions.value, j, source)))])))))
      ensures defaultAccountId == old(defaultAccountId) && sentInvoices == old(sentInvoices)
      ensures receivedInvoices == old(receivedInvoices) && invoiceIndexer == old(invoiceIndexer)
    {
      var k := FindAccount(accounts, accountId);
      if k == -1 {
        return Some(AccountNotFound);
      }
      var acc := accounts.value[k];
      if acc.transactions.None? {
        return Some(ArgumentNull);
      }
      var j := FindTransaction(acc.transactions.value, source.id);
      if j == -1 {
        return Some(TransactionNotFound);
      }
      accounts := Some(accounts.value[k := acc.(transactions := Some(Edited(acc.transactions.value, j, source)))]);
      err := None;
    }

    /** DeleteTransaction(accountId, transactionId): the first transaction
        with the id is removed and true returned; the failures are those of
        EditTransaction. */
    method DeleteTransaction(accountId: string, transactionId: string) returns (r: Result<bool>)
      modifies this
      ensures var k := FindAccount(old(accounts), accountId);
        (k == -1 ==> r == Failure(AccountNotFound) && accounts == old(accounts)) &&
        (k >= 0 ==> var acc := old(accounts).value[k];
          (acc.transactions.None? ==> r == Failure(ArgumentNull) && accounts == old(accounts)) &&
          (acc.transactions.Some? ==> var j := FindTransaction(acc.transactions.value, transactionId);
            (j == -1 ==> r == Failure(TransactionNotFound) && accounts == old(accounts)) &&
            (j >= 0 ==> (r == Success(true) &&
              accounts == Some(old(accounts).value[k := acc.(transactions := Some(Deleted(acc.transactions.value, j)))])))))
      ensures defaultAccountId == old(defaultAccountId) && sentInvoices == old(sentInvoices)
      ensures receivedInvoices == old(receivedInvoices) && invoiceIndexer == old(invoiceIndexer)
    {
      var k := FindAccount(accounts, accountId);
      if k == -1 {
        return Failure(AccountNotFound);
      }
      var acc := accounts.value[k];
      if acc.transactions.None? {
        return Failure(ArgumentNull);
      }
      var j := FindTransaction(acc.transactions.value, transactionId);
      if j == -1 {
        return Failure(TransactionNotFound);
      }
      accounts := Some(accounts.value[k := acc.(transactions := Some(Deleted(acc.transactions.value, j)))]);
      r := Success(true);
    }

    /** CreateSentInvoice(): the indexer moves on by one and a blank invoice
        with the new index is appended. Without a sent-invoice collection
        the indexer has already moved when NullReferenceException is thrown. */
    method CreateSentInvoice() returns (r: Result<Invoice>)
      modifies this
      ensures invoiceIndexer == old(invoiceIndexer) + 1
      ensures old(sentInvoices).None? ==> r == Failure(NullReference) && sentInvoices.None?
      ensures old(sentInvoices).Some? ==>
        r == Success(Invoice(invoiceIndexer, "")) && sentInvoices == Some(old(sentInvoices).value + [r.value])
      ensures old(sentInvoices).Some? && IndexedBelow(old(sentInvoices).value, old(invoiceIndexer)) ==>
        IndexedBelow(sentInvoices.value, invoiceIndexer)
      ensures accounts == old(accounts) && defaultAccountId == old(defaultAccountId)
      ensures receivedInvoices == old(receivedInvoices)
    {
      invoiceIndexer := invoiceIndexer + 1;
      var invoice := Invoice(invoiceIndexer, "");
      if sentInvoices.None? {
        return Failure(NullReference);
      }
      sentInvoices := Some(sentInvoices.value + [invoice]);
      r := Success(invoice);
    }

    /** CreateSentInvoice(source): a copy of the source, indexed as above. */
    method CreateSentInvoiceFrom(source: Invoice) returns (r: Result<Invoice>)
      modifies this
      ensures invoiceIndexer == old(invoiceIndexer) + 1
      ensures old(sentInvoices).None? ==> r == Failure(NullReference) && sentInvoices.None?
      ensures old(sentInvoices).Some? ==>
        r == Success(Invoice(invoiceIndexer, source.details)) && sentInvoices == Some(old(sentInvoices).value + [r.value])
      ensures old(sentInvoices).Some? && IndexedBelow(old(sentInvoices).value, old(invoiceIndexer)) ==>
        IndexedBelow(sentInvoices.value, invoiceIndexer)
      ensures accounts == old(accounts) && defaultAccountId == old(defaultAccountId)
      ensures receivedInvoices == old(receivedInvoices)
    {
      var invoice := source;
      invoiceIndexer := invoiceIndexer + 1;
      invoice := invoice.(index := invoiceIndexer);
      if sentInvoices.None? {
        return Failure(NullReference);
      }
      sentInvoices := Some(sentInvoices.value + [invoice]);
      r := Success(invoice);
    }

    /** AddReceivedInvoice(invoice): appended as it is. */
    method AddReceivedInvoice(invoice: Invoice) returns (err: Option<Exception>)
      modifies this
      ensures old(receivedInvoices).None? ==> err == Some(NullReference) && receivedInvoices.None?
      ensures old(receivedInvoices).Some? ==> err.None? && receivedInvoices == Some(old(receivedInvoices).value + [invoice])
      ensures accounts == old(accounts) && defaultAccountId == old(defaultAccountId)
      ensures sentInvoices == old(sentInvoices) && invoiceIndexer == old(invoiceIndexer)
    {
      if receivedInvoices.None? {
        return Some(NullReference);
      }
      receivedInvoices := Some(receivedInvoices.value + [invoice]);
      err := None;
    }
  }
}
