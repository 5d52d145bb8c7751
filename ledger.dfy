/**
 * Destroying a transaction (app/models/transackshun.rb, `has_many
 * :journal_entries, dependent: :destroy`): every journal entry the
 * transaction owns is destroyed, and each destruction runs the entry's
 * `unassign_associated_entries`, which repairs the chain of the entry's
 * account.
 */
module Ledger {
  import opened Wrappers
  import opened EntryChain
  import Transactions

  /** A journal entry owned by the transaction, with the account whose chain holds it. */
  datatype Owned = Owned(account: Transactions.AccountId, entry: EntryId)

  /** No id occurs twice. */
  ghost predicate NoRepeats(p: seq<EntryId>)
    decreases |p|
  {
    p == [] || (p[0] !in p[1..] && NoRepeats(p[1..]))
  }

  /** The ids of p that are not in gone, in the order p lists them. */
  function Without(p: seq<EntryId>, gone: set<EntryId>): (q: seq<EntryId>)
    ensures |q| <= |p|
    ensures forall x :: x in q <==> x in p && x !in gone
    decreases |p|
  {
    if p == [] then []
    else if p[0] in gone then Without(p[1..], gone)
    else [p[0]] + Without(p[1..], gone)
  }

  /** The entries of the account a among those a transaction owns. */
  ghost function Gone(owned: seq<Owned>, a: Transactions.AccountId): set<EntryId> {
    set o | o in owned && o.account == a :: o.entry
  }

  /** A chain lists each entry once. */
  lemma {:induction false} PathNoRepeats(rows: map<EntryId, Row>, p: seq<EntryId>)
    requires IsPath(rows, p)
    ensures NoRepeats(p)
    decreases |p|
  {
    if p != [] {
      InElems(p[1..], p[0]);
      PathNoRepeats(rows, p[1..]);
    }
  }

  /** Dropping nothing keeps the sequence. */
  lemma {:induction false} WithoutNothing(p: seq<EntryId>)
    ensures Without(p, {}) == p
    decreases |p|
  {
    if p != [] {
      WithoutNothing(p[1..]);
      assert p == [p[0]] + p[1..];
    }
  }

  /** Dropping an id the sequence does not hold changes nothing. */
  lemma {:induction false} WithoutAbsent(p: seq<EntryId>, gone: set<EntryId>, id: EntryId)
    requires id !in p
    ensures Without(p, gone + {id}) == Without(p, gone)
    decreases |p|
  {
    if p != [] {
      WithoutAbsent(p[1..], gone, id);
    }
  }

  /**
   * Removing from Without(p, gone) the one place holding id (what a chain
   * removal does) is dropping id as well.
   */
  lemma {:induction false} WithoutStep(p: seq<EntryId>, gone: set<EntryId>, id: EntryId, k: nat)
    requires NoRepeats(p)
    requires k < |Without(p, gone)| && Without(p, gone)[k] == id
    ensures Without(p, gone + {id}) == Without(p, gone)[..k] + Without(p, gone)[k + 1..]
    decreases |p|
  {
    var c := Without(p, gone);
    var x, r := p[0], p[1..];
    if x in gone {
      WithoutStep(r, gone, id, k);
    } else if x == id {
      assert id !in Without(r, gone);
      WithoutAbsent(r, gone, id);
      assert c[1..] == Without(r, gone);
    } else {
      assert k > 0;
      var w := Without(r, gone);
      assert c == [x] + w;
      WithoutStep(r, gone, id, k - 1);
      assert c[..k] == [x] + w[..k - 1] && c[k + 1..] == w[k..];
    }
  }

  /** The owned entries up to one more: one more id gone from its own account and none from the others. */
  lemma GoneStep(owned: seq<Owned>, i: nat, a: Transactions.AccountId)
    requires i < |owned|
    ensures Gone(owned[..i + 1], a) ==
              if owned[i].account == a then Gone(owned[..i], a) + {owned[i].entry} else Gone(owned[..i], a)
  {
  }

  /** An owned entry not destroyed yet is not among the entries already gone from its account. */
  lemma NotGoneYet(owned: seq<Owned>, i: nat)
    requires i < |owned|
    requires forall a, b :: 0 <= a < b < |owned| ==> owned[a] != owned[b]
    ensures owned[i].entry !in Gone(owned[..i], owned[i].account)
  {
  }

  /**
   * The state of one account's chain part-way through a destroy: still a
   * valid chain, listing its former entries minus the ones gone so far, each
   * remaining row with the posted_date and order it had.
   */
  ghost predicate RemovedSoFar(book: AccountChain, chain0: seq<EntryId>, rows0: map<EntryId, Row>, gone: set<EntryId>)
    reads book
  {
    && book.Valid()
    && NoRepeats(chain0)
    && book.chain == Without(chain0, gone)
    && book.rows.Keys == rows0.Keys - gone
    && forall y :: y in book.rows ==> y in rows0 && StampOf(book.rows[y]) == StampOf(rows0[y])
  }

  /** One step of the destroy: removing one more entry from a chain part-way through. */
  method RemoveOne(book: AccountChain, id: EntryId, ghost chain0: seq<EntryId>, ghost rows0: map<EntryId, Row>,
                   ghost gone: set<EntryId>)
    requires RemovedSoFar(book, chain0, rows0, gone) && id in rows0 && id !in gone
    modifies book
    ensures RemovedSoFar(book, chain0, rows0, gone + {id})
  {
    ghost var k := IndexOf(book.chain, id);
    book.Remove(id);
    WithoutStep(chain0, gone, id, k);
  }

  /**
   * `destroy` on a transaction: each owned entry is removed from its
   * account's chain in turn. Afterwards every chain is still valid and lists
   * exactly its former entries minus the transaction's, in the same order,
   * and every remaining entry keeps its posted_date and order.
   */
  method DestroyTransaction(books: map<Transactions.AccountId, AccountChain>, owned: seq<Owned>)
    requires forall a :: a in books ==> books[a].Valid()
    requires forall a, b :: a in books && b in books && a != b ==> books[a] != books[b]
    requires forall i :: 0 <= i < |owned| ==>
               owned[i].account in books && owned[i].entry in books[owned[i].account].rows
    requires forall i, j :: 0 <= i < j < |owned| ==> owned[i] != owned[j]
    modifies set a | a in books :: books[a]
    ensures forall a :: a in books ==>
              && books[a].Valid()
              && books[a].chain == Without(old(books[a].chain), Gone(owned, a))
              && books[a].rows.Keys == old(books[a].rows.Keys) - Gone(owned, a)
              && forall y :: y in books[a].rows ==> StampOf(books[a].rows[y]) == StampOf(old(books[a].rows)[y])
  {
    ghost var chains0 := map a | a in books :: books[a].chain;
    ghost var rows0 := map a | a in books :: books[a].rows;
    forall a | a in books
      ensures RemovedSoFar(books[a], chains0[a], rows0[a], Gone(owned[..0], a))
    {
      PathNoRepeats(books[a].rows, books[a].chain);
      WithoutNothing(books[a].chain);
      assert Gone(owned[..0], a) == {};
    }
    var i := 0;
    while i < |owned|
      invariant 0 <= i <= |owned|
      invariant forall a :: a in books ==> RemovedSoFar(books[a], chains0[a], rows0[a], Gone(owned[..i], a))
    {
      var o := owned[i];
      var book := books[o.account];
      NotGoneYet(owned, i);
      label before:
      RemoveOne(book, o.entry, chains0[o.account], rows0[o.account], Gone(owned[..i], o.account));
      GoneStep(owned, i, o.account);
      forall a | a in books && a != o.account
        ensures RemovedSoFar(books[a], chains0[a], rows0[a], Gone(owned[..i + 1], a))
      {
        assert books[a] != book;
        assert old@before(RemovedSoFar(books[a], chains0[a], rows0[a], Gone(owned[..i], a)));
        GoneStep(owned, i, a);
      }
      i := i + 1;
    }
    assert owned[..i] == owned;
  }
}
