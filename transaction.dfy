/**
 * Transaction validation (app/models/transackshun.rb): a transaction owns
 * its journal entries, and `validate_entry_integrity` checks that their
 * signed amounts balance and that no account appears twice. Amounts are
 * integer cents at exchange rate 1, so the balance check is exact.
 */
module Transactions {
  import JournalEntries

  type AccountId = nat

  /** The part of a journal entry the transaction checks look at. */
  datatype Posting = Posting(account: AccountId, kind: JournalEntries.TransactionType, amountInCents: int)

  /** The two errors `validate_entry_integrity` adds on journal_entries. */
  datatype TransactionError = NotBalanced | DuplicateAccounts

  function Message(e: TransactionError): string {
    match e
    case NotBalanced => "are not balanced"
    case DuplicateAccounts => "must have unique accounts"
  }

  function Signed(p: Posting): int {
    JournalEntries.SignedCents(p.amountInCents, p.kind)
  }

  /** The sum of the entries' signed amounts, taken left to right. */
  function Total(ps: seq<Posting>): int {
    if ps == [] then 0 else Signed(ps[0]) + Total(ps[1..])
  }

  /** `journal_entries.map { |je| je.account.id }` */
  function AccountIds(ps: seq<Posting>): (ids: seq<AccountId>)
    ensures |ids| == |ps| && forall i :: 0 <= i < |ps| ==> ids[i] == ps[i].account
  {
    seq(|ps|, i requires 0 <= i < |ps| => ps[i].account)
  }

  /** Ruby's `uniq`: drops every element that already occurred, keeping first occurrences in order. */
  function Uniq(xs: seq<AccountId>): seq<AccountId>
    decreases |xs|
  {
    if xs == [] then []
    else
      var init := xs[..|xs| - 1];
      var x := xs[|xs| - 1];
      if x in init then Uniq(init) else Uniq(init) + [x]
  }

  /** Positions i and j (i before j) hold different accounts. */
  ghost predicate AccountsDifferAt(ps: seq<Posting>, i: nat, j: nat)
    requires i < j < |ps|
  {
    ps[i].account != ps[j].account
  }

  /** No account appears on two entries. */
  ghost predicate UniqueAccounts(ps: seq<Posting>) {
    forall i, j :: 0 <= i < j < |ps| ==> AccountsDifferAt(ps, i, j)
  }

  /** No value appears twice. */
  ghost predicate Distinct(xs: seq<AccountId>) {
    forall i, j :: 0 <= i < j < |xs| ==> xs[i] != xs[j]
  }

  /**
   * `uniq` keeps exactly the values of its input, each once; it shortens the
   * sequence exactly when some value repeats.
   */
  lemma {:induction false} UniqLength(xs: seq<AccountId>)
    ensures forall v :: v in Uniq(xs) <==> v in xs
    ensures Distinct(Uniq(xs))
    ensures |Uniq(xs)| <= |xs|
    ensures |Uniq(xs)| == |xs| <==> Distinct(xs)
    decreases |xs|
  {
    if xs != [] {
      var init := xs[..|xs| - 1];
      var x := xs[|xs| - 1];
      assert xs == init + [x];
      UniqLength(init);
      if x in init {
        var j :| 0 <= j < |init| && init[j] == x;
        assert xs[j] == xs[|xs| - 1];
      } else {
        var u := Uniq(init);
        assert Uniq(xs) == u + [x];
        forall i, j | 0 <= i < j < |u| + 1
          ensures (u + [x])[i] != (u + [x])[j]
        {
          if j == |u| {
            assert (u + [x])[i] == u[i];
          } else {
            assert (u + [x])[i] == u[i] && (u + [x])[j] == u[j];
          }
        }
        if Distinct(init) {
          forall i, j | 0 <= i < j < |xs|
            ensures xs[i] != xs[j]
          {
            assert xs[i] == init[i];
            if j < |init| {
              assert xs[j] == init[j];
            }
          }
        } else {
          var i, j :| 0 <= i < j < |init| && init[i] == init[j];
          assert xs[i] == xs[j];
        }
      }
    }
  }

  /** The unique-account check of `validate_entry_integrity`, as `length != uniq.length`. */
  function HasDuplicateAccounts(ps: seq<Posting>): (dup: bool)
    ensures dup <==> !UniqueAccounts(ps)
  {
    var ids := AccountIds(ps);
    UniqLength(ids);
    assert Distinct(ids) <==> UniqueAccounts(ps) by {
      if Distinct(ids) {
        forall i, j | 0 <= i < j < |ps|
          ensures AccountsDifferAt(ps, i, j)
        {
          assert ids[i] != ids[j];
        }
      }
      if UniqueAccounts(ps) {
        forall i, j | 0 <= i < j < |ids|
          ensures ids[i] != ids[j]
        {
          assert AccountsDifferAt(ps, i, j);
        }
      }
    }
    |ids| != |Uniq(ids)|
  }

  /**
   * `validate_entry_integrity`: both checks always run, each adds its own
   * error, and nothing else is ever added.
   */
  function ValidateEntryIntegrity(ps: seq<Posting>): (errs: set<TransactionError>)
    ensures NotBalanced in errs <==> Total(ps) != 0
    ensures DuplicateAccounts in errs <==> !UniqueAccounts(ps)
    ensures errs == {} <==> Total(ps) == 0 && UniqueAccounts(ps)
  {
    (if Total(ps) != 0 then {NotBalanced} else {}) +
    (if HasDuplicateAccounts(ps) then {DuplicateAccounts} else {})
  }

  /** Taking out the entry at position i takes its signed amount out of the total. */
  lemma {:induction false} TotalWithout(ps: seq<Posting>, i: nat)
    requires i < |ps|
    ensures Total(ps) == Signed(ps[i]) + Total(ps[..i] + ps[i + 1..])
    decreases |ps|
  {
    if i > 0 {
      var rest := ps[1..];
      var q := ps[..i] + ps[i + 1..];
      TotalWithout(rest, i - 1);
      assert rest[i - 1] == ps[i];
      assert q[0] == ps[0] && q[1..] == rest[..i - 1] + rest[i..];
      assert Total(q) == Signed(ps[0]) + Total(q[1..]);
    } else {
      assert ps[..0] + ps[1..] == ps[1..];
    }
  }

  /** Taking out position i keeps the accounts unique exactly when ps[i]'s account occurs nowhere else. */
  lemma UniqueWithout(ps: seq<Posting>, i: nat)
    requires i < |ps|
    ensures var rest := ps[..i] + ps[i + 1..];
            UniqueAccounts(ps) <==>
              UniqueAccounts(rest) && forall p :: p in rest ==> p.account != ps[i].account
  {
    var rest := ps[..i] + ps[i + 1..];
    if UniqueAccounts(ps) {
      UniqueRest(ps, i);
    }
    if UniqueAccounts(rest) && forall p :: p in rest ==> p.account != ps[i].account {
      UniqueFromRest(ps, i);
    }
  }

  lemma UniqueRest(ps: seq<Posting>, i: nat)
    requires i < |ps| && UniqueAccounts(ps)
    ensures var rest := ps[..i] + ps[i + 1..];
            UniqueAccounts(rest) && forall p :: p in rest ==> p.account != ps[i].account
  {
    var rest := ps[..i] + ps[i + 1..];
    forall a, b | 0 <= a < b < |rest|
      ensures AccountsDifferAt(rest, a, b)
    {
      var a', b' := if a < i then a else a + 1, if b < i then b else b + 1;
      assert rest[a] == ps[a'] && rest[b] == ps[b'];
      assert AccountsDifferAt(ps, a', b');
    }
    forall p | p in rest
      ensures p.account != ps[i].account
    {
      var k :| 0 <= k < |rest| && rest[k] == p;
      if k < i {
        assert rest[k] == ps[k];
        assert AccountsDifferAt(ps, k, i);
      } else {
        assert rest[k] == ps[k + 1];
        assert AccountsDifferAt(ps, i, k + 1);
      }
    }
  }

  lemma UniqueFromRest(ps: seq<Posting>, i: nat)
    requires i < |ps|
    requires var rest := ps[..i] + ps[i + 1..];
             UniqueAccounts(rest) && forall p :: p in rest ==> p.account != ps[i].account
    ensures UniqueAccounts(ps)
  {
    var rest := ps[..i] + ps[i + 1..];
    forall a, b | 0 <= a < b < |ps|
      ensures AccountsDifferAt(ps, a, b)
    {
      if a == i {
        assert rest[b - 1] == ps[b];
      } else if b == i {
        assert rest[a] == ps[a];
      } else {
        var a', b' := if a < i then a else a - 1, if b < i then b else b - 1;
        assert rest[a'] == ps[a] && rest[b'] == ps[b];
        assert AccountsDifferAt(rest, a', b');
      }
    }
  }

  /** A rearrangement qs of a non-empty ps holds ps[0] somewhere; without it, the rest is a rearrangement of ps[1..]. */
  lemma MatchFirst(ps: seq<Posting>, qs: seq<Posting>) returns (i: nat)
    requires ps != [] && multiset(ps) == multiset(qs)
    ensures i < |qs| && qs[i] == ps[0]
    ensures multiset(qs[..i] + qs[i + 1..]) == multiset(ps[1..])
  {
    var x := ps[0];
    assert x in multiset(qs);
    i :| 0 <= i < |qs| && qs[i] == x;
    var rq := qs[..i] + qs[i + 1..];
    assert qs == qs[..i] + [x] + qs[i + 1..];
    assert ps == [x] + ps[1..];
    assert multiset(qs) == multiset(qs[..i]) + multiset([x]) + multiset(qs[i + 1..]);
    assert multiset(rq) == multiset(qs) - multiset{x};
    assert multiset(ps) == multiset([x]) + multiset(ps[1..]);
    assert multiset(ps[1..]) == multiset(ps) - multiset{x};
  }

  /** The balance check does not depend on the order of the entries. */
  lemma {:induction false} TotalIgnoresOrder(ps: seq<Posting>, qs: seq<Posting>)
    requires multiset(ps) == multiset(qs)
    ensures Total(ps) == Total(qs)
    decreases |ps|
  {
    if ps == [] {
      assert |qs| == |multiset(qs)| == 0;
    } else {
      var i := MatchFirst(ps, qs);
      TotalIgnoresOrder(ps[1..], qs[..i] + qs[i + 1..]);
      TotalWithout(qs, i);
    }
  }

  /** Neither does the unique-account check. */
  lemma {:induction false} UniqueIgnoresOrder(ps: seq<Posting>, qs: seq<Posting>)
    requires multiset(ps) == multiset(qs)
    ensures UniqueAccounts(ps) <==> UniqueAccounts(qs)
    decreases |ps|
  {
    if ps == [] {
      assert |qs| == |multiset(qs)| == 0;
    } else {
      var i := MatchFirst(ps, qs);
      var rq := qs[..i] + qs[i + 1..];
      UniqueIgnoresOrder(ps[1..], rq);
      UniqueWithout(qs, i);
      UniqueWithout(ps, 0);
      assert ps[..0] + ps[1..] == ps[1..];
      forall p
        ensures p in rq <==> p in ps[1..]
      {
        assert p in rq <==> p in multiset(rq);
        assert p in ps[1..] <==> p in multiset(ps[1..]);
      }
    }
  }

  /** So the validation errors do not depend on the order of the entries either. */
  lemma ValidationIgnoresOrder(ps: seq<Posting>, qs: seq<Posting>)
    requires multiset(ps) == multiset(qs)
    ensures ValidateEntryIntegrity(ps) == ValidateEntryIntegrity(qs)
  {
    TotalIgnoresOrder(ps, qs);
    UniqueIgnoresOrder(ps, qs);
  }

  /** Changing one entry's amount by d cents changes the total by d in that entry's direction. */
  lemma {:induction false} TotalAfterChange(ps: seq<Posting>, i: nat, c: int)
    requires i < |ps|
    ensures Total(ps[i := ps[i].(amountInCents := c)]) ==
              Total(ps) + JournalEntries.Multiplier(ps[i].kind) * (c - ps[i].amountInCents)
    decreases |ps|
  {
    var qs := ps[i := ps[i].(amountInCents := c)];
    if i == 0 {
      assert qs[1..] == ps[1..];
    } else {
      TotalAfterChange(ps[1..], i - 1, c);
      assert qs[1..] == ps[1..][i - 1 := ps[i].(amountInCents := c)];
    }
  }

  /**
   * A balanced transaction with unique accounts in which one entry is then
   * off by one cent reports exactly one error: not balanced.
   */
  lemma OneCentOff(ps: seq<Posting>, i: nat)
    requires i < |ps| && ValidateEntryIntegrity(ps) == {}
    ensures ValidateEntryIntegrity(ps[i := ps[i].(amountInCents := ps[i].amountInCents + 1)]) == {NotBalanced}
  {
    var qs := ps[i := ps[i].(amountInCents := ps[i].amountInCents + 1)];
    TotalAfterChange(ps, i, ps[i].amountInCents + 1);
    forall a, b | 0 <= a < b < |qs|
      ensures AccountsDifferAt(qs, a, b)
    {
      assert AccountsDifferAt(ps, a, b);
    }
  }

  /** A credit and a debit of the same cents on two different accounts is valid. */
  lemma BalancedPair(a: AccountId, b: AccountId, cents: int)
    requires a != b
    ensures ValidateEntryIntegrity([Posting(a, JournalEntries.Credit, cents), Posting(b, JournalEntries.Debit, cents)]) == {}
  {
    var ps := [Posting(a, JournalEntries.Credit, cents), Posting(b, JournalEntries.Debit, cents)];
    assert Total(ps) == cents + Total(ps[1..]);
    assert AccountsDifferAt(ps, 0, 1);
  }

  /**
   * Two credits of 50 on one account against a debit of 100 balance, and
   * still fail on the repeated account alone.
   */
  lemma RepeatedAccount(a: AccountId, b: AccountId)
    ensures ValidateEntryIntegrity([Posting(a, JournalEntries.Credit, 50), Posting(a, JournalEntries.Credit, 50),
                                    Posting(b, JournalEntries.Debit, 100)]) == {DuplicateAccounts}
  {
    var ps := [Posting(a, JournalEntries.Credit, 50), Posting(a, JournalEntries.Credit, 50),
               Posting(b, JournalEntries.Debit, 100)];
    assert Total(ps) == 50 + Total(ps[1..]);
    assert Total(ps[1..]) == 50 + Total(ps[2..]);
    assert Total(ps[2..]) == -100 + Total(ps[3..]);
    assert !AccountsDifferAt(ps, 0, 1);
  }
}
