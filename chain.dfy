/**
 * The per-account chain of journal entries (app/models/journal_entry.rb).
 *
 * Each entry row stores its posted date, its same-day `order` number and a
 * `next_entry` link; `previous_entry` is the inverse of that link (the row
 * whose `next_entry` is this one). The first half of the module states what
 * a well-kept chain is, on the sequence of (date, order) stamps read from head
 * to tail; the second half is the AccountChain class, whose methods do what
 * the model's callbacks do to the rows.
 */
module EntryChain {
  import opened Wrappers
  import opened JournalEntries

  type EntryId = nat

  /** One stored journal entry of the account, as far as the chain sees it. */
  datatype Row = Row(postedDate: Date, order: int, nextEntry: Option<EntryId>)

  /** The (posted_date, order) pair the unique index covers within an account. */
  datatype Stamp = Stamp(date: Date, order: int)

  function StampOf(r: Row): Stamp {
    Stamp(r.postedDate, r.order)
  }

  /**
   * The number `assign_order_number` gives an entry: one more than its
   * predecessor's when the predecessor is on the same day, otherwise 1.
   */
  function OrderAfter(previous: Option<Stamp>, date: Date): int {
    if previous.Some? && previous.value.date == date then previous.value.order + 1 else 1
  }

  // ---------------------------------------------------------------------
  // The chain read from head to tail, as a sequence of stamps
  // ---------------------------------------------------------------------

  /** Positions i and j (i before j) are in date order. */
  ghost predicate InOrderAt(s: seq<Stamp>, i: nat, j: nat)
    requires i < j < |s|
  {
    s[i].date <= s[j].date
  }

  /** Non-decreasing by posted date. */
  ghost predicate Sorted(s: seq<Stamp>) {
    forall i, j :: 0 <= i < j < |s| ==> InOrderAt(s, i, j)
  }

  /** Position i carries the order `assign_order_number` gives it. */
  ghost predicate NumberedAt(s: seq<Stamp>, i: nat)
    requires i < |s|
  {
    s[i].order == OrderAfter(if i == 0 then None else Some(s[i - 1]), s[i].date)
  }

  /** From position k on, every order is the one `assign_order_number` gives. */
  ghost predicate NumberedFrom(s: seq<Stamp>, k: nat) {
    forall i :: k <= i < |s| ==> NumberedAt(s, i)
  }

  /** Position i does not go back in order against a same-day predecessor. */
  ghost predicate IncreasingAt(s: seq<Stamp>, i: nat)
    requires 0 < i < |s|
  {
    s[i - 1].date == s[i].date ==> s[i - 1].order < s[i].order
  }

  /** Same-day neighbours have increasing orders (gaps allowed). */
  ghost predicate SameDayIncreasing(s: seq<Stamp>) {
    forall i :: 0 < i < |s| ==> IncreasingAt(s, i)
  }

  /** Positions i and j carry different (posted_date, order) stamps. */
  ghost predicate DistinctAt(s: seq<Stamp>, i: nat, j: nat)
    requires i < j < |s|
  {
    s[i] != s[j]
  }

  /** No two entries share (posted_date, order): the account's unique index. */
  ghost predicate UniqueDayOrder(s: seq<Stamp>) {
    forall i, j :: 0 <= i < j < |s| ==> DistinctAt(s, i, j)
  }

  /** Position of the first entry dated later than d (|s| when there is none). */
  function FirstLaterIndex(s: seq<Stamp>, d: Date): (k: nat)
    ensures k <= |s|
    ensures forall i :: 0 <= i < k ==> s[i].date <= d
    ensures k < |s| ==> s[k].date > d
  {
    if s == [] then 0
    else if s[0].date > d then 0
    else 1 + FirstLaterIndex(s[1..], d)
  }

  /** Position of the last entry dated on or before d (-1 when there is none). */
  function LastAtOrBeforeIndex(s: seq<Stamp>, d: Date): (k: int)
    ensures -1 <= k < |s|
    ensures k >= 0 ==> s[k].date <= d
    ensures forall i :: k < i < |s| ==> s[i].date > d
  {
    if s == [] then -1
    else if s[|s| - 1].date <= d then |s| - 1
    else LastAtOrBeforeIndex(s[..|s| - 1], d)
  }

  /** Within one day of a sorted chain, orders increase from head to tail. */
  lemma {:induction false} SameDayOrdersIncrease(s: seq<Stamp>, i: nat, j: nat)
    requires Sorted(s) && SameDayIncreasing(s)
    requires i < j < |s| && s[i].date == s[j].date
    ensures s[i].order < s[j].order
  {
    if i + 1 < j {
      assert InOrderAt(s, i, j - 1) && InOrderAt(s, j - 1, j);
      SameDayOrdersIncrease(s, i, j - 1);
    }
    assert IncreasingAt(s, j);
  }

  /** A sorted chain whose same-day orders increase satisfies the unique index. */
  lemma OrderedIsUnique(s: seq<Stamp>)
    requires Sorted(s) && SameDayIncreasing(s)
    ensures UniqueDayOrder(s)
  {
    forall i, j | 0 <= i < j < |s|
      ensures DistinctAt(s, i, j)
    {
      if s[i].date == s[j].date {
        SameDayOrdersIncrease(s, i, j);
      }
    }
  }

  /** The adjacent checks of `validate_posted_date` pass everywhere exactly when the chain is sorted. */
  lemma {:induction false} NeighbourChecksIffSorted(s: seq<Stamp>)
    ensures Sorted(s) <==>
      forall i :: 0 <= i < |s| ==>
        PostedDateErrors(s[i].date,
                         if i + 1 < |s| then Some(s[i + 1].date) else None,
                         if i > 0 then Some(s[i - 1].date) else None) == {}
  {
    if Sorted(s) {
      forall i | 0 <= i < |s|
        ensures PostedDateErrors(s[i].date,
                                 if i + 1 < |s| then Some(s[i + 1].date) else None,
                                 if i > 0 then Some(s[i - 1].date) else None) == {}
      {
        if i + 1 < |s| {
          assert InOrderAt(s, i, i + 1);
        }
        if i > 0 {
          assert InOrderAt(s, i - 1, i);
        }
      }
    }
    if forall i :: 0 <= i < |s| ==>
         PostedDateErrors(s[i].date,
                          if i + 1 < |s| then Some(s[i + 1].date) else None,
                          if i > 0 then Some(s[i - 1].date) else None) == {}
    {
      forall i, j | 0 <= i < j < |s|
        ensures InOrderAt(s, i, j)
      {
        AdjacentStepsReach(s, i, j);
      }
    }
  }

  lemma {:induction false} AdjacentStepsReach(s: seq<Stamp>, i: nat, j: nat)
    requires i <= j < |s|
    requires forall k :: 0 <= k < |s| ==>
        PostedDateErrors(s[k].date,
                         if k + 1 < |s| then Some(s[k + 1].date) else None,
                         if k > 0 then Some(s[k - 1].date) else None) == {}
    ensures s[i].date <= s[j].date
    decreases j - i
  {
    if i < j {
      assert AfterNextEntry !in PostedDateErrors(s[i].date, Some(s[i + 1].date),
                                                 if i > 0 then Some(s[i - 1].date) else None);
      AdjacentStepsReach(s, i + 1, j);
    }
  }

  /**
   * In a sorted chain the predecessor the lookup falls back to (the last entry
   * on or before d) is the entry just before the insertion point whenever the
   * successor is missing or is the head.
   */
  lemma {:induction false} FallbackIsBeforeInsertionPoint(s: seq<Stamp>, d: Date)
    requires Sorted(s)
    ensures var k := FirstLaterIndex(s, d);
            (k == 0 || k == |s|) ==> LastAtOrBeforeIndex(s, d) == k - 1
  {
    var k := FirstLaterIndex(s, d);
    if k == |s| && |s| > 0 {
      assert s[|s| - 1].date <= d;
    }
    if k == 0 && |s| > 0 {
      forall i | 0 < i < |s|
        ensures s[i].date > d
      {
        assert InOrderAt(s, 0, i);
      }
    }
  }

  /**
   * Inserting at the insertion point and numbering from there keeps the chain
   * sorted, with increasing same-day orders.
   */
  lemma InsertKeepsOrdered(s: seq<Stamp>, t: seq<Stamp>, k: nat, d: Date)
    requires Sorted(s) && SameDayIncreasing(s)
    requires k <= |s| && (forall i :: 0 <= i < k ==> s[i].date <= d) && (k < |s| ==> d <= s[k].date)
    requires |t| == |s| + 1 && t[..k] == s[..k] && t[k].date == d
    requires forall i :: k <= i < |s| ==> t[i + 1].date == s[i].date
    requires NumberedFrom(t, k)
    ensures Sorted(t) && SameDayIncreasing(t) && UniqueDayOrder(t)
  {
    forall i, j | 0 <= i < j < |t|
      ensures InOrderAt(t, i, j)
    {
      if j < k {
        assert t[i] == t[..k][i] == s[i];
        assert t[j] == t[..k][j] == s[j];
        assert InOrderAt(s, i, j);
      } else if j == k {
        assert t[i] == t[..k][i] == s[i];
      } else if i < k {
        assert t[i] == t[..k][i] == s[i];
        assert InOrderAt(s, i, j - 1);
      } else if i == k {
        assert k < j - 1 ==> InOrderAt(s, k, j - 1);
      } else {
        assert InOrderAt(s, i - 1, j - 1);
      }
    }
    forall i | 0 < i < |t|
      ensures IncreasingAt(t, i)
    {
      if i < k {
        assert t[i - 1] == t[..k][i - 1] == s[i - 1];
        assert t[i] == t[..k][i] == s[i];
        assert IncreasingAt(s, i);
      } else {
        assert NumberedAt(t, i);
      }
    }
    OrderedIsUnique(t);
  }

  /**
   * The cascade as the source writes it runs to the tail, but on a densely
   * numbered chain it only bumps the same-day run after the new entry: an
   * old entry on the new entry's day goes up by one, every other keeps its order.
   */
  lemma {:induction false} CascadeBumpsSameDayOnly(s: seq<Stamp>, t: seq<Stamp>, k: nat, d: Date, i: nat)
    requires NumberedFrom(s, 0) && Sorted(t)
    requires k <= i < |s|
    requires |t| == |s| + 1 && t[..k] == s[..k] && t[k].date == d
    requires forall j :: k <= j < |s| ==> t[j + 1].date == s[j].date
    requires NumberedFrom(t, k)
    ensures t[i + 1].order == s[i].order + (if s[i].date == d then 1 else 0)
  {
    assert NumberedAt(t, i + 1);
    assert NumberedAt(s, i);
    if i == k {
      assert NumberedAt(t, k);
      if k > 0 {
        assert t[k - 1] == t[..k][k - 1] == s[k - 1];
        assert InOrderAt(t, k - 1, k) && InOrderAt(t, k, k + 1);
      }
    } else {
      CascadeBumpsSameDayOnly(s, t, k, d, i - 1);
      assert t[i].date == s[i - 1].date;
      assert InOrderAt(t, k, i) && InOrderAt(t, i, i + 1);
    }
  }

  /** Removing any one entry keeps the chain sorted with increasing same-day orders. */
  lemma RemoveKeepsOrdered(s: seq<Stamp>, k: nat)
    requires Sorted(s) && SameDayIncreasing(s) && k < |s|
    ensures var t := s[..k] + s[k + 1..];
            Sorted(t) && SameDayIncreasing(t) && UniqueDayOrder(t)
  {
    var t := s[..k] + s[k + 1..];
    assert forall i :: 0 <= i < |t| ==> t[i] == if i < k then s[i] else s[i + 1];
    forall i, j | 0 <= i < j < |t|
      ensures InOrderAt(t, i, j)
    {
      if j < k {
        assert InOrderAt(s, i, j);
      } else if i < k {
        assert InOrderAt(s, i, j + 1);
      } else {
        assert InOrderAt(s, i + 1, j + 1);
      }
    }
    forall i | 0 < i < |t|
      ensures IncreasingAt(t, i)
    {
      if i < k {
        assert IncreasingAt(s, i);
      } else if i == k {
        assert IncreasingAt(s, k) && IncreasingAt(s, k + 1);
        assert InOrderAt(s, k - 1, k) && InOrderAt(s, k, k + 1);
      } else {
        assert IncreasingAt(s, i + 1);
      }
    }
    OrderedIsUnique(t);
  }

  // ---------------------------------------------------------------------
  // Rows and links
  // ---------------------------------------------------------------------

  /**
   * p is a path of rows: distinct stored entries, each linked by next_entry to
   * the following one, the last with no next_entry.
   */
  ghost predicate LinkedAt(rows: map<EntryId, Row>, p: seq<EntryId>, i: nat)
    requires i + 1 < |p| && p[i] in rows
  {
    rows[p[i]].nextEntry == Some(p[i + 1])
  }

  /** The same, position by position. */
  ghost predicate IndexedPath(rows: map<EntryId, Row>, p: seq<EntryId>) {
    && (forall i :: 0 <= i < |p| ==> p[i] in rows)
    && (forall i, j :: 0 <= i < j < |p| ==> p[i] != p[j])
    && (forall i :: 0 <= i < |p| - 1 ==> LinkedAt(rows, p, i))
    && (|p| > 0 ==> rows[p[|p| - 1]].nextEntry == None)
  }

  /** The ids a sequence lists. */
  ghost function Elems(p: seq<EntryId>): set<EntryId> {
    if p == [] then {} else {p[0]} + Elems(p[1..])
  }

  lemma {:induction false} InElems(p: seq<EntryId>, x: EntryId)
    ensures x in Elems(p) <==> x in p
  {
    if p != [] {
      InElems(p[1..], x);
      assert x in p <==> x == p[0] || x in p[1..];
    }
  }

  lemma {:induction false} ElemsConcat(a: seq<EntryId>, b: seq<EntryId>)
    ensures Elems(a + b) == Elems(a) + Elems(b)
  {
    if a == [] {
      assert a + b == b;
    } else {
      ElemsConcat(a[1..], b);
      assert (a + b)[0] == a[0];
      assert (a + b)[1..] == a[1..] + b;
    }
  }

  ghost predicate IsPath(rows: map<EntryId, Row>, p: seq<EntryId>)
    decreases |p|
  {
    || p == []
    || (&& p[0] in rows
        && p[0] !in Elems(p[1..])
        && rows[p[0]].nextEntry == (if |p| == 1 then None else Some(p[1]))
        && IsPath(rows, p[1..]))
  }

  lemma {:induction false} PathIndexed(rows: map<EntryId, Row>, p: seq<EntryId>)
    ensures IsPath(rows, p) <==> IndexedPath(rows, p)
    decreases |p|
  {
    if p != [] {
      var t := p[1..];
      PathIndexed(rows, t);
      assert forall i :: 0 <= i < |t| ==> t[i] == p[i + 1];
      InElems(t, p[0]);
      if IsPath(rows, p) {
        forall i | 0 <= i < |p|
          ensures p[i] in rows
        {
          if i > 0 {
            assert p[i] == t[i - 1];
          }
        }
        forall i, j | 0 <= i < j < |p|
          ensures p[i] != p[j]
        {
          if i == 0 {
            assert p[j] == t[j - 1];
          } else {
            assert p[i] == t[i - 1] && p[j] == t[j - 1];
          }
        }
        forall i | 0 <= i < |p| - 1
          ensures LinkedAt(rows, p, i)
        {
          if i > 0 {
            assert LinkedAt(rows, t, i - 1);
          }
        }
        if |t| > 0 {
          assert p[|p| - 1] == t[|t| - 1];
        }
      }
      if IndexedPath(rows, p) {
        forall i | 0 <= i < |t|
          ensures t[i] != p[0]
        {
          assert p[i + 1] != p[0];
        }
        forall i, j | 0 <= i < j < |t|
          ensures t[i] != t[j]
        {
          assert p[i + 1] != p[j + 1];
        }
        forall i | 0 <= i < |t| - 1
          ensures LinkedAt(rows, t, i)
        {
          assert LinkedAt(rows, p, i + 1);
        }
        if |t| > 0 {
          assert p[|p| - 1] == t[|t| - 1];
          assert LinkedAt(rows, p, 0);
        }
      }
    }
  }

  /** One step along a path: p[i] is stored and links to p[i + 1], or to nothing at the tail. */
  lemma PathStep(rows: map<EntryId, Row>, p: seq<EntryId>, i: nat)
    requires IsPath(rows, p) && i < |p|
    ensures p[i] in rows && rows[p[i]].nextEntry == if i + 1 < |p| then Some(p[i + 1]) else None
  {
    PathIndexed(rows, p);
    if i + 1 < |p| {
      assert LinkedAt(rows, p, i);
    }
  }

  lemma PathDistinct(rows: map<EntryId, Row>, p: seq<EntryId>, i: nat, j: nat)
    requires IsPath(rows, p) && i < j < |p|
    ensures p[i] != p[j]
  {
    PathIndexed(rows, p);
  }

  /** p lists every stored row and nothing else. */
  ghost predicate Covers(rows: map<EntryId, Row>, p: seq<EntryId>) {
    rows.Keys == Elems(p)
  }

  /** No single chain accounts for all the rows. */
  ghost predicate NoChainCovers(rows: map<EntryId, Row>) {
    forall p: seq<EntryId> :: !(IsPath(rows, p) && Covers(rows, p))
  }

  /** The stamps of the rows p lists, in that order (a missing row reads as a zero stamp). */
  ghost function Stamps(rows: map<EntryId, Row>, p: seq<EntryId>): (s: seq<Stamp>)
    ensures |s| == |p| && forall i :: 0 <= i < |p| && p[i] in rows ==> s[i] == StampOf(rows[p[i]])
  {
    seq(|p|, i requires 0 <= i < |p| => if p[i] in rows then StampOf(rows[p[i]]) else Stamp(0, 0))
  }

  ghost function IndexOf(p: seq<EntryId>, x: EntryId): (i: nat)
    requires x in Elems(p)
    ensures i < |p| && p[i] == x
  {
    if p[0] == x then 0 else 1 + IndexOf(p[1..], x)
  }

  function PreviousStamp(rows: map<EntryId, Row>, previous: Option<EntryId>): Option<Stamp>
    requires previous.Some? ==> previous.value in rows
  {
    if previous.Some? then Some(StampOf(rows[previous.value])) else None
  }

  /** On a chain, the only row whose next_entry is p[i] is p[i - 1]: previous_entry is well defined. */
  lemma OnlyPredecessorLinks(rows: map<EntryId, Row>, p: seq<EntryId>, i: nat, y: EntryId)
    requires IsPath(rows, p) && Covers(rows, p) && i < |p|
    requires y in rows && rows[y].nextEntry == Some(p[i])
    ensures i > 0 && y == p[i - 1]
  {
    PathIndexed(rows, p);
    var j := IndexOf(p, y);
    assert j < |p| - 1;
    assert LinkedAt(rows, p, j);
    assert p[j + 1] == p[i];
  }

  /** Two rows pointing at the same next_entry cannot both sit on one chain. */
  lemma SharedSuccessorBreaksChain(rows: map<EntryId, Row>, a: EntryId, b: EntryId, x: EntryId)
    requires a in rows && b in rows && a != b
    requires rows[a].nextEntry == Some(x) && rows[b].nextEntry == Some(x)
    ensures NoChainCovers(rows)
  {
    forall p: seq<EntryId> | IsPath(rows, p) && Covers(rows, p)
      ensures false
    {
      PathIndexed(rows, p);
      var ja := IndexOf(p, a);
      assert ja < |p| - 1;
      assert LinkedAt(rows, p, ja);
      OnlyPredecessorLinks(rows, p, ja + 1, a);
      OnlyPredecessorLinks(rows, p, ja + 1, b);
    }
  }

  /**
   * Linking id at position k of a chain (the predecessor p[k - 1] now points
   * at id, id points at p[k], no other link changes) gives a chain again.
   */
  lemma InsertedPath(rows: map<EntryId, Row>, rows': map<EntryId, Row>, p: seq<EntryId>, k: nat, id: EntryId)
    requires IsPath(rows, p) && Covers(rows, p) && k <= |p| && id !in rows
    requires rows'.Keys == rows.Keys + {id}
    requires rows'[id].nextEntry == (if k < |p| then Some(p[k]) else None)
    requires k > 0 ==> p[k - 1] in rows' && rows'[p[k - 1]].nextEntry == Some(id)
    requires forall y :: y in rows && (k == 0 || y != p[k - 1]) ==> rows'[y].nextEntry == rows[y].nextEntry
    ensures IsPath(rows', p[..k] + [id] + p[k..]) && Covers(rows', p[..k] + [id] + p[k..])
  {
    PathIndexed(rows, p);
    InElems(p, id);
    InsertedLinks(rows, rows', p, k, id);
    PathIndexed(rows', p[..k] + [id] + p[k..]);
    InsertedElems(p, k, id);
  }

  lemma InsertedLinks(rows: map<EntryId, Row>, rows': map<EntryId, Row>, p: seq<EntryId>, k: nat, id: EntryId)
    requires IndexedPath(rows, p) && k <= |p| && id !in p && rows.Keys <= rows'.Keys && id in rows'
    requires rows'[id].nextEntry == (if k < |p| then Some(p[k]) else None)
    requires k > 0 ==> p[k - 1] in rows' && rows'[p[k - 1]].nextEntry == Some(id)
    requires forall y :: y in rows && (k == 0 || y != p[k - 1]) ==> rows'[y].nextEntry == rows[y].nextEntry
    ensures IndexedPath(rows', p[..k] + [id] + p[k..])
  {
    var q := p[..k] + [id] + p[k..];
    assert forall i :: 0 <= i < |q| ==> q[i] == if i < k then p[i] else if i == k then id else p[i - 1];
    forall i, j | 0 <= i < j < |q|
      ensures q[i] != q[j]
    {
    }
    forall i | 0 <= i < |q| - 1
      ensures LinkedAt(rows', q, i)
    {
      if i < k - 1 {
        assert LinkedAt(rows, p, i) && p[i] != p[k - 1];
      } else if k < i {
        assert LinkedAt(rows, p, i - 1) && (k == 0 || p[i - 1] != p[k - 1]);
      }
    }
    if k < |p| {
      assert q[|q| - 1] == p[|p| - 1];
    }
  }

  lemma InsertedElems(p: seq<EntryId>, k: nat, id: EntryId)
    requires k <= |p|
    ensures Elems(p[..k] + [id] + p[k..]) == Elems(p) + {id}
  {
    ElemsConcat(p[..k] + [id], p[k..]);
    ElemsConcat(p[..k], [id]);
    ElemsConcat(p[..k], p[k..]);
    assert p[..k] + p[k..] == p;
    assert Elems([id]) == {id} by {
      assert [id][1..] == [];
    }
  }

  /**
   * Re-pointing p[k]'s predecessor at p[k]'s next_entry and deleting p[k]
   * gives the chain without p[k].
   */
  lemma UnlinkedPath(rows: map<EntryId, Row>, rows': map<EntryId, Row>, p: seq<EntryId>, k: nat)
    requires IsPath(rows, p) && Covers(rows, p) && k < |p|
    requires rows'.Keys == rows.Keys - {p[k]}
    requires k > 0 ==> p[k - 1] in rows' && p[k] in rows && rows'[p[k - 1]].nextEntry == rows[p[k]].nextEntry
    requires forall y :: y in rows' && (k == 0 || y != p[k - 1]) ==> rows'[y].nextEntry == rows[y].nextEntry
    ensures IsPath(rows', p[..k] + p[k + 1..]) && Covers(rows', p[..k] + p[k + 1..])
  {
    PathIndexed(rows, p);
    UnlinkedLinks(rows, rows', p, k);
    PathIndexed(rows', p[..k] + p[k + 1..]);
    UnlinkedElems(p, k);
  }

  lemma UnlinkedLinks(rows: map<EntryId, Row>, rows': map<EntryId, Row>, p: seq<EntryId>, k: nat)
    requires IndexedPath(rows, p) && k < |p|
    requires rows'.Keys == rows.Keys - {p[k]}
    requires k > 0 ==> p[k - 1] in rows' && p[k] in rows && rows'[p[k - 1]].nextEntry == rows[p[k]].nextEntry
    requires forall y :: y in rows' && (k == 0 || y != p[k - 1]) ==> rows'[y].nextEntry == rows[y].nextEntry
    ensures IndexedPath(rows', p[..k] + p[k + 1..])
  {
    var q := p[..k] + p[k + 1..];
    assert forall i :: 0 <= i < |q| ==> q[i] == if i < k then p[i] else p[i + 1];
    forall i | 0 <= i < |q|
      ensures q[i] in rows'
    {
    }
    forall i, j | 0 <= i < j < |q|
      ensures q[i] != q[j]
    {
    }
    forall i | 0 <= i < |q| - 1
      ensures LinkedAt(rows', q, i)
    {
      if i < k - 1 {
        assert LinkedAt(rows, p, i) && p[i] != p[k - 1];
      } else if i == k - 1 {
        assert LinkedAt(rows, p, k);
      } else {
        assert LinkedAt(rows, p, i + 1);
      }
    }
    if |q| > 0 {
      if k == |p| - 1 {
        assert q[|q| - 1] == p[k - 1];
      } else {
        assert q[|q| - 1] == p[|p| - 1];
      }
    }
  }

  /** Dropping the element at k of a repetition-free sequence drops exactly that id. */
  lemma UnlinkedElems(p: seq<EntryId>, k: nat)
    requires k < |p| && forall i :: 0 <= i < |p| && i != k ==> p[i] != p[k]
    ensures Elems(p[..k] + p[k + 1..]) == Elems(p) - {p[k]}
  {
    forall i | 0 <= i < k
      ensures p[..k][i] != p[k]
    {
      assert p[..k][i] == p[i];
    }
    var after := p[k + 1..];
    forall i | 0 <= i < |after|
      ensures after[i] != p[k]
    {
      assert after[i] == p[k + 1 + i];
    }
    assert p[k] !in p[..k] && p[k] !in p[k + 1..];
    InElems(p[..k], p[k]);
    InElems(p[k + 1..], p[k]);
    ElemsConcat(p[..k], p[k + 1..]);
    ElemsConcat(p[..k], [p[k]] + p[k + 1..]);
    ElemsConcat([p[k]], p[k + 1..]);
    assert p == p[..k] + ([p[k]] + p[k + 1..]);
    assert Elems([p[k]]) == {p[k]} by {
      assert [p[k]][1..] == [];
    }
  }

  /** In a repetition-free sequence no element recurs further on. */
  lemma SuffixAvoids(p: seq<EntryId>, i: nat, j: nat)
    requires i < j <= |p| && forall a, b :: 0 <= a < b < |p| ==> p[a] != p[b]
    ensures forall m :: 0 <= m < |p[j..]| ==> p[j..][m] != p[i]
  {
  }

  /** Deleting p[k] and leaving the other rows' dates and orders alone drops p[k]'s stamp. */
  lemma RemovedStamps(rows: map<EntryId, Row>, rows': map<EntryId, Row>, p: seq<EntryId>, k: nat)
    requires IsPath(rows, p) && k < |p| && rows'.Keys == rows.Keys - {p[k]}
    requires forall y :: y in rows' ==> StampOf(rows'[y]) == StampOf(rows[y])
    ensures var s := Stamps(rows, p); Stamps(rows', p[..k] + p[k + 1..]) == s[..k] + s[k + 1..]
  {
    var q := p[..k] + p[k + 1..];
    var s := Stamps(rows, p);
    var t := Stamps(rows', q);
    forall i | 0 <= i < |q|
      ensures t[i] == (s[..k] + s[k + 1..])[i]
    {
      var j := if i < k then i else i + 1;
      assert q[i] == p[j];
      assert (s[..k] + s[k + 1..])[i] == s[j];
      PathStep(rows, p, j);
      if j < k {
        PathDistinct(rows, p, j, k);
      } else {
        PathDistinct(rows, p, k, j);
      }
    }
  }

  lemma PrefixNotInSuffix(p: seq<EntryId>, i: nat, j: nat)
    requires i < j <= |p| && forall a, b :: 0 <= a < b < |p| ==> p[a] != p[b]
    ensures p[i] !in Elems(p[j..])
  {
    SuffixAvoids(p, i, j);
    InElems(p[j..], p[i]);
  }

  lemma PathPrefixNotInSuffix(rows: map<EntryId, Row>, p: seq<EntryId>, i: nat, j: nat)
    requires IsPath(rows, p) && i < j <= |p|
    ensures p[i] !in Elems(p[j..])
  {
    PathIndexed(rows, p);
    PrefixNotInSuffix(p, i, j);
  }

  /** Every suffix of a path is a path. */
  lemma {:induction false} SuffixIsPath(rows: map<EntryId, Row>, p: seq<EntryId>, k: nat)
    requires IsPath(rows, p) && k <= |p|
    ensures IsPath(rows, p[k..])
    decreases k
  {
    if k > 0 {
      SuffixIsPath(rows, p[1..], k - 1);
      assert p[1..][k - 1..] == p[k..];
    }
  }

  /** A path only extended with new rows, its links kept, is still a path. */
  lemma {:induction false} PathKept(r1: map<EntryId, Row>, r2: map<EntryId, Row>, p: seq<EntryId>)
    requires IsPath(r1, p)
    requires forall y :: y in r1 ==> y in r2 && r2[y].nextEntry == r1[y].nextEntry
    ensures IsPath(r2, p)
    decreases |p|
  {
    if p != [] {
      PathKept(r1, r2, p[1..]);
    }
  }

  /**
   * Every entry of the path carries the order `assign_order_number` gives it,
   * the first one counted from the given previous entry.
   */
  ghost predicate NumberedAlong(rows: map<EntryId, Row>, previous: Option<EntryId>, path: seq<EntryId>) {
    && (previous.Some? ==> previous.value in rows)
    && (forall i :: 0 <= i < |path| ==> path[i] in rows)
    && forall i :: 0 <= i < |path| ==> NumberedAlongAt(rows, previous, path, i)
  }

  /** Numbering [x] + t from previous numbers t from x. */
  lemma NumberedAlongTail(rows: map<EntryId, Row>, previous: Option<EntryId>, x: EntryId, t: seq<EntryId>)
    requires NumberedAlong(rows, previous, [x] + t)
    ensures NumberedAlong(rows, Some(x), t)
  {
    var path := [x] + t;
    assert forall i :: 0 <= i < |t| ==> t[i] == path[i + 1];
    assert path[0] == x;
    forall i | 0 <= i < |t|
      ensures NumberedAlongAt(rows, Some(x), t, i)
    {
      assert NumberedAlongAt(rows, previous, path, i + 1);
    }
  }

  /**
   * One step of the cascade: numbering path[i] from its predecessor keeps
   * every other row and extends the numbering from path[..i] to path[..i + 1].
   */
  lemma AssignStep(r0: map<EntryId, Row>, before: map<EntryId, Row>, after: map<EntryId, Row>,
                   previous: Option<EntryId>, prev: Option<EntryId>, path: seq<EntryId>, i: nat,
                   touched: set<EntryId>)
    requires IsPath(r0, path) && i < |path| && before.Keys == r0.Keys
    requires previous.Some? ==> previous.value in r0 && previous.value !in Elems(path)
    requires prev == if i == 0 then previous else Some(path[i - 1])
    requires forall y :: y in before ==>
               before[y].postedDate == r0[y].postedDate && before[y].nextEntry == r0[y].nextEntry
    requires touched == Elems(path[..i])
    requires forall y :: y in before && y !in touched ==> before[y] == r0[y]
    requires NumberedAlong(before, previous, path[..i])
    requires path[i] in before && (prev.Some? ==> prev.value in before)
    requires after == before[path[i] := before[path[i]].(order :=
               OrderAfter(PreviousStamp(before, prev), before[path[i]].postedDate))]
    ensures after.Keys == r0.Keys
    ensures forall y :: y in after ==>
              after[y].postedDate == r0[y].postedDate && after[y].nextEntry == r0[y].nextEntry
    ensures touched + {path[i]} == Elems(path[..i + 1])
    ensures forall y :: y in after && y !in touched + {path[i]} ==> after[y] == r0[y]
    ensures NumberedAlong(after, previous, path[..i + 1])
  {
    var c := path[i];
    ElemsConcat(path[..i], [c]);
    assert path[..i + 1] == path[..i] + [c];
    assert Elems([c]) == {c} by {
      assert [c][1..] == [];
    }
    NumberedAlongStep(r0, before, after, previous, prev, path, i);
  }

  lemma NumberedAlongStep(r0: map<EntryId, Row>, before: map<EntryId, Row>, after: map<EntryId, Row>,
                          previous: Option<EntryId>, prev: Option<EntryId>, path: seq<EntryId>, i: nat)
    requires IsPath(r0, path) && i < |path| && before.Keys == r0.Keys
    requires previous.Some? ==> previous.value in before && previous.value !in Elems(path)
    requires prev == if i == 0 then previous else Some(path[i - 1])
    requires NumberedAlong(before, previous, path[..i])
    requires path[i] in before && (prev.Some? ==> prev.value in before)
    requires after == before[path[i] := before[path[i]].(order :=
               OrderAfter(PreviousStamp(before, prev), before[path[i]].postedDate))]
    ensures NumberedAlong(after, previous, path[..i + 1])
  {
    var pre, pre1 := path[..i], path[..i + 1];
    if previous.Some? {
      InElems(path, previous.value);
      assert after[previous.value] == before[previous.value];
    }
    if i > 0 {
      PathDistinct(r0, path, i - 1, i);
      assert after[path[i - 1]] == before[path[i - 1]];
    }
    forall j | 0 <= j <= i
      ensures pre1[j] in after
    {
      assert pre1[j] == path[j];
      PathStep(r0, path, j);
    }
    forall j | 0 <= j <= i
      ensures NumberedAlongAt(after, previous, pre1, j)
    {
      assert pre1[j] == path[j];
      if j < i {
        assert NumberedAlongAt(before, previous, pre, j);
        assert pre[j] == path[j];
        PathDistinct(r0, path, j, i);
        assert after[path[j]] == before[path[j]];
        if j > 0 {
          assert pre[j - 1] == path[j - 1];
          assert pre1[j - 1] == path[j - 1];
          PathDistinct(r0, path, j - 1, i);
          assert after[path[j - 1]] == before[path[j - 1]];
        }
      } else if j > 0 {
        assert pre1[j - 1] == path[j - 1];
      }
    }
  }

  ghost predicate NumberedAlongAt(rows: map<EntryId, Row>, previous: Option<EntryId>, path: seq<EntryId>, i: nat)
    requires i < |path| && (forall j :: 0 <= j < |path| ==> path[j] in rows)
    requires previous.Some? ==> previous.value in rows
  {
    rows[path[i]].order ==
      OrderAfter(if i == 0 then PreviousStamp(rows, previous) else Some(StampOf(rows[path[i - 1]])),
                 rows[path[i]].postedDate)
  }

  /**
   * What the chain reads as after an insertion at position k and the cascade
   * from there: the prefix is untouched, the dates shift by one place, and
   * from position k on the orders follow `assign_order_number`.
   */
  lemma InsertedStamps(rows: map<EntryId, Row>, final: map<EntryId, Row>, p: seq<EntryId>, k: nat,
                       id: EntryId, d: Date, previous: Option<EntryId>)
    requires IsPath(rows, p) && k <= |p| && id !in rows
    requires final.Keys == rows.Keys + {id} && final[id].postedDate == d
    requires forall y :: y in rows ==> final[y].postedDate == rows[y].postedDate
    requires forall y :: y in rows && y !in Elems([id] + p[k..]) ==> final[y].order == rows[y].order
    requires previous == (if k > 0 then Some(p[k - 1]) else None)
    requires NumberedAlong(final, previous, [id] + p[k..])
    ensures var s, t := Stamps(rows, p), Stamps(final, p[..k] + [id] + p[k..]);
            && t[..k] == s[..k] && t[k].date == d
            && (forall i :: k <= i < |s| ==> t[i + 1].date == s[i].date)
            && NumberedFrom(t, k)
  {
    InsertedPrefix(rows, final, p, k, id);
    InsertedDates(rows, final, p, k, id, d);
    InsertedNumbered(rows, final, p, k, id, previous);
  }

  /** Entries before the insertion point keep their stamps. */
  lemma InsertedPrefix(rows: map<EntryId, Row>, final: map<EntryId, Row>, p: seq<EntryId>, k: nat, id: EntryId)
    requires IsPath(rows, p) && k <= |p| && id !in rows && rows.Keys <= final.Keys
    requires forall y :: y in rows ==> final[y].postedDate == rows[y].postedDate
    requires forall y :: y in rows && y !in Elems([id] + p[k..]) ==> final[y].order == rows[y].order
    ensures Stamps(final, p[..k] + [id] + p[k..])[..k] == Stamps(rows, p)[..k]
  {
    var q := p[..k] + [id] + p[k..];
    var s, t := Stamps(rows, p), Stamps(final, q);
    assert ([id] + p[k..])[1..] == p[k..];
    forall i | 0 <= i < k
      ensures t[i] == s[i]
    {
      assert q[i] == p[i];
      PathStep(rows, p, i);
      PathPrefixNotInSuffix(rows, p, i, k);
    }
  }

  /** The new entry sits at position k with its date; later entries move one place on with theirs. */
  lemma InsertedDates(rows: map<EntryId, Row>, final: map<EntryId, Row>, p: seq<EntryId>, k: nat,
                      id: EntryId, d: Date)
    requires IsPath(rows, p) && k <= |p| && id !in rows
    requires final.Keys == rows.Keys + {id} && final[id].postedDate == d
    requires forall y :: y in rows ==> final[y].postedDate == rows[y].postedDate
    ensures var s, t := Stamps(rows, p), Stamps(final, p[..k] + [id] + p[k..]);
            && t[k].date == d && forall i :: k <= i < |s| ==> t[i + 1].date == s[i].date
  {
    var q := p[..k] + [id] + p[k..];
    var s, t := Stamps(rows, p), Stamps(final, q);
    assert q[k] == id;
    forall i | k <= i < |s|
      ensures t[i + 1].date == s[i].date
    {
      assert q[i + 1] == p[i];
      PathStep(rows, p, i);
    }
  }

  /** From the insertion point on, the stamps carry the orders the cascade assigned. */
  lemma InsertedNumbered(rows: map<EntryId, Row>, final: map<EntryId, Row>, p: seq<EntryId>, k: nat,
                         id: EntryId, previous: Option<EntryId>)
    requires k <= |p| && (k > 0 ==> p[k - 1] in final)
    requires previous == (if k > 0 then Some(p[k - 1]) else None)
    requires NumberedAlong(final, previous, [id] + p[k..])
    ensures NumberedFrom(Stamps(final, p[..k] + [id] + p[k..]), k)
  {
    var q := p[..k] + [id] + p[k..];
    var path := [id] + p[k..];
    var t := Stamps(final, q);
    forall i | k <= i < |t|
      ensures NumberedAt(t, i)
    {
      assert path[i - k] == q[i];
      assert NumberedAlongAt(final, previous, path, i - k);
      if i > k {
        assert path[i - k - 1] == q[i - 1];
      } else if k > 0 {
        assert q[k - 1] == p[k - 1];
      }
    }
  }

  /** The rows after a new entry is linked in between pred and succ, before any order is assigned. */
  ghost function Spliced(rows: map<EntryId, Row>, id: EntryId, d: Date,
                         succ: Option<EntryId>, pred: Option<EntryId>): map<EntryId, Row>
    requires pred.Some? ==> pred.value in rows
  {
    var r := rows[id := Row(d, 0, succ)];
    if pred.Some? then r[pred.value := r[pred.value].(nextEntry := Some(id))] else r
  }

  /** The successor of position k - 1 on a chain p: p[k], or nothing past the tail. */
  ghost function At(p: seq<EntryId>, k: nat): Option<EntryId> {
    if k < |p| then Some(p[k]) else None
  }

  /**
   * Linking a new entry in at position k of a chain yields the chain with it
   * spliced in, and the run from the new entry is a path the predecessor is not on.
   */
  lemma SplicedPath(rows: map<EntryId, Row>, p: seq<EntryId>, k: nat, id: EntryId, d: Date, pred: Option<EntryId>)
    requires IsPath(rows, p) && Covers(rows, p) && id !in rows && k <= |p|
    requires pred == (if k > 0 then Some(p[k - 1]) else None)
    ensures pred.Some? ==> pred.value in rows
    ensures var linked := Spliced(rows, id, d, At(p, k), pred);
            && IsPath(linked, p[..k] + [id] + p[k..]) && Covers(linked, p[..k] + [id] + p[k..])
            && IsPath(linked, [id] + p[k..])
            && (pred.Some? ==> pred.value in linked && pred.value !in Elems([id] + p[k..]))
  {
    if k > 0 {
      PathStep(rows, p, k - 1);
    }
    var linked := Spliced(rows, id, d, At(p, k), pred);
    var q := p[..k] + [id] + p[k..];
    InsertedPath(rows, linked, p, k, id);
    SuffixIsPath(linked, q, k);
    assert q[k..] == [id] + p[k..];
    if k > 0 {
      PathPrefixNotInSuffix(linked, q, k - 1, k);
    }
  }

  /**
   * After linking and running `assign_order_number` from the new entry, the
   * chain is again sorted with orders increasing within a day, untouched
   * before position k and numbered from there on.
   */
  lemma InsertFinished(rows: map<EntryId, Row>, linked: map<EntryId, Row>, final: map<EntryId, Row>,
                       p: seq<EntryId>, k: nat, id: EntryId, d: Date, pred: Option<EntryId>)
    requires IsPath(rows, p) && Covers(rows, p) && id !in rows
    requires Sorted(Stamps(rows, p)) && SameDayIncreasing(Stamps(rows, p))
    requires k == FirstLaterIndex(Stamps(rows, p), d)
    requires pred == (if k > 0 then Some(p[k - 1]) else None)
    requires pred.Some? ==> pred.value in rows
    requires linked == Spliced(rows, id, d, At(p, k), pred)
    requires final.Keys == linked.Keys
    requires forall y :: y in final ==>
               final[y].postedDate == linked[y].postedDate && final[y].nextEntry == linked[y].nextEntry
    requires forall y :: y in final && y !in Elems([id] + p[k..]) ==> final[y] == linked[y]
    requires NumberedAlong(final, pred, [id] + p[k..])
    ensures final.Keys == rows.Keys + {id} && final[id].postedDate == d
    ensures forall y :: y in rows ==> final[y].postedDate == rows[y].postedDate
    ensures var q := p[..k] + [id] + p[k..];
            && IsPath(final, q) && Covers(final, q)
            && var s, t := Stamps(rows, p), Stamps(final, q);
            && Sorted(t) && SameDayIncreasing(t) && UniqueDayOrder(t)
            && t[..k] == s[..k] && NumberedFrom(t, k)
  {
    if k > 0 {
      PathStep(rows, p, k - 1);
    }
    InsertedChain(rows, final, p, k, id, d, pred);
  }

  /**
   * Creating an entry with a preset next_entry that is the account's first
   * entry: the new entry becomes the head and, once numbered, the chain is
   * sorted with orders increasing within a day.
   */
  lemma PrependFinished(rows: map<EntryId, Row>, final: map<EntryId, Row>, p: seq<EntryId>, id: EntryId, d: Date)
    requires IsPath(rows, p) && Covers(rows, p) && id !in rows && |p| > 0
    requires Sorted(Stamps(rows, p)) && SameDayIncreasing(Stamps(rows, p))
    requires d <= rows[p[0]].postedDate
    requires final.Keys == rows.Keys + {id} && final[id].postedDate == d && final[id].nextEntry == Some(p[0])
    requires forall y :: y in rows ==>
               final[y].postedDate == rows[y].postedDate && final[y].nextEntry == rows[y].nextEntry
    requires forall y :: y in rows && y !in Elems([id] + p) ==> final[y].order == rows[y].order
    requires NumberedAlong(final, None, [id] + p)
    ensures IsPath(final, [id] + p) && Covers(final, [id] + p)
    ensures var t := Stamps(final, [id] + p);
            Sorted(t) && SameDayIncreasing(t) && UniqueDayOrder(t) && NumberedFrom(t, 0)
  {
    PathStep(rows, p, 0);
    assert p[..0] + [id] + p[0..] == [id] + p;
    InsertedChain(rows, final, p, 0, id, d, None);
  }

  /**
   * A new row pointing at the chain entry p[j] starts a path over the new row
   * and the rest of the chain from p[j]; every other row keeps its link.
   */
  lemma PrependedPath(rows: map<EntryId, Row>, p: seq<EntryId>, j: nat, id: EntryId, d: Date)
    requires IsPath(rows, p) && Covers(rows, p) && id !in rows && j < |p|
    ensures IsPath(rows[id := Row(d, 0, Some(p[j]))], [id] + p[j..])
    ensures Elems(p[j..]) <= rows.Keys
  {
    var r := rows[id := Row(d, 0, Some(p[j]))];
    SuffixIsPath(rows, p, j);
    PathKept(rows, r, p[j..]);
    ElemsConcat(p[..j], p[j..]);
    assert p[..j] + p[j..] == p;
    InElems(p, id);
    PathStep(rows, p, j);
    assert ([id] + p[j..])[1..] == p[j..];
  }

  /**
   * A new row pointing at an entry that already has a predecessor: two rows
   * share a next_entry, so no chain covers the rows any more.
   */
  lemma SharedSuccessorAfterInsert(rows: map<EntryId, Row>, final: map<EntryId, Row>, p: seq<EntryId>,
                                   j: nat, id: EntryId)
    requires IsPath(rows, p) && 0 < j < |p| && id !in rows
    requires final.Keys == rows.Keys + {id} && final[id].nextEntry == Some(p[j])
    requires forall y :: y in rows ==> final[y].nextEntry == rows[y].nextEntry
    ensures NoChainCovers(final)
  {
    PathStep(rows, p, j - 1);
    SharedSuccessorBreaksChain(final, id, p[j - 1], p[j]);
  }

  /**
   * The whole insertion on values: linking id at the insertion point k and
   * numbering from there turns a valid chain into a valid chain with id at
   * position k, the stamps before k unchanged and the cascade's orders from k on.
   */
  lemma InsertedChain(rows: map<EntryId, Row>, final: map<EntryId, Row>, p: seq<EntryId>, k: nat,
                      id: EntryId, d: Date, previous: Option<EntryId>)
    requires IsPath(rows, p) && Covers(rows, p) && id !in rows
    requires Sorted(Stamps(rows, p)) && SameDayIncreasing(Stamps(rows, p))
    requires k <= |p| && var s := Stamps(rows, p);
             (forall i :: 0 <= i < k ==> s[i].date <= d) && (k < |p| ==> d <= s[k].date)
    requires final.Keys == rows.Keys + {id} && final[id].postedDate == d
    requires final[id].nextEntry == (if k < |p| then Some(p[k]) else None)
    requires k > 0 ==> p[k - 1] in final && final[p[k - 1]].nextEntry == Some(id)
    requires forall y :: y in rows && (k == 0 || y != p[k - 1]) ==> final[y].nextEntry == rows[y].nextEntry
    requires forall y :: y in rows ==> final[y].postedDate == rows[y].postedDate
    requires forall y :: y in rows && y !in Elems([id] + p[k..]) ==> final[y].order == rows[y].order
    requires previous == (if k > 0 then Some(p[k - 1]) else None)
    requires NumberedAlong(final, previous, [id] + p[k..])
    ensures var q := p[..k] + [id] + p[k..];
            && IsPath(final, q) && Covers(final, q)
            && var s, t := Stamps(rows, p), Stamps(final, q);
            && Sorted(t) && SameDayIncreasing(t) && UniqueDayOrder(t)
            && t[..k] == s[..k] && NumberedFrom(t, k)
  {
    InsertedPath(rows, final, p, k, id);
    PathIndexed(rows, p);
    InsertedStamps(rows, final, p, k, id, d, previous);
    var s, t := Stamps(rows, p), Stamps(final, p[..k] + [id] + p[k..]);
    assert |t| == |s| + 1 && t[..k] == s[..k] && t[k].date == d;
    InsertKeepsOrdered(s, t, k, d);
  }

  // ---------------------------------------------------------------------
  // The lookups as the database answers them
  // ---------------------------------------------------------------------

  /** On a chain over the rows, every row but the tail has a next_entry. */
  lemma OnlyTailUnlinked(rows: map<EntryId, Row>, p: seq<EntryId>, x: EntryId)
    requires IsPath(rows, p) && Covers(rows, p) && x in rows
    ensures x == p[|p| - 1] || rows[x].nextEntry.Some?
  {
    PathIndexed(rows, p);
    var j := IndexOf(p, x);
    if j < |p| - 1 {
      assert LinkedAt(rows, p, j);
    }
  }

  /** Two rows without a next_entry cannot both sit on one chain. */
  lemma TwoTailsBreakChain(rows: map<EntryId, Row>, a: EntryId, b: EntryId)
    requires a in rows && b in rows && a != b
    requires rows[a].nextEntry == None && rows[b].nextEntry == None
    ensures NoChainCovers(rows)
  {
    forall p: seq<EntryId> | IsPath(rows, p) && Covers(rows, p)
      ensures false
    {
      OnlyTailUnlinked(rows, p, a);
      OnlyTailUnlinked(rows, p, b);
    }
  }

  /**
   * i is a row `where('posted_date <= ?', d).last` may return: the default
   * scope orders an account's entries by the order column alone, so `.last`
   * is a row of greatest order among those dated on or before d (any of them
   * when several share that order).
   */
  ghost predicate OrderColumnLast(s: seq<Stamp>, d: Date, i: int) {
    && 0 <= i < |s| && s[i].date <= d
    && forall j :: 0 <= j < |s| && s[j].date <= d ==> s[j].order <= s[i].order
  }

  /** Likewise `where('posted_date > ?', d).first`: a row of least order among those dated after d. */
  ghost predicate OrderColumnFirst(s: seq<Stamp>, d: Date, i: int) {
    && 0 <= i < |s| && s[i].date > d
    && forall j :: 0 <= j < |s| && s[j].date > d ==> s[i].order <= s[j].order
  }

  /**
   * Two entries on day 1 and one on day 2, and a new entry on day 3. No
   * entry is later, so the predecessor comes from `.last`; by the order
   * column that is the second day-1 entry, not the tail of the chain.
   */
  lemma OrderColumnLastMissesTail()
    ensures var s := [Stamp(1, 1), Stamp(1, 2), Stamp(2, 1)];
            && Sorted(s) && SameDayIncreasing(s)
            && FirstLaterIndex(s, 3) == |s|
            && LastAtOrBeforeIndex(s, 3) == 2
            && forall i :: OrderColumnLast(s, 3, i) <==> i == 1
  {
  }

  /**
   * The same account as rows 0 -> 1 -> 2. Linking the new entry 3 after row
   * 1, as `.last` chose (row 1 now points at it, it points nowhere), leaves
   * two rows without a next_entry: no chain holds all four rows, and row 2
   * has lost its previous_entry.
   */
  lemma OrderColumnLastBreaksChain()
    ensures var rows := map[0 := Row(1, 1, Some(1)), 1 := Row(1, 2, Some(2)), 2 := Row(2, 1, None)];
            && IsPath(rows, [0, 1, 2]) && Covers(rows, [0, 1, 2])
            && Stamps(rows, [0, 1, 2]) == [Stamp(1, 1), Stamp(1, 2), Stamp(2, 1)]
            && NoChainCovers(rows[3 := Row(3, 1, None)][1 := Row(1, 2, Some(3))])
  {
    var rows := map[0 := Row(1, 1, Some(1)), 1 := Row(1, 2, Some(2)), 2 := Row(2, 1, None)];
    var p: seq<EntryId> := [0, 1, 2];
    assert p[1..] == [1, 2] && p[2..] == [2] && p[3..] == [];
    assert Elems(p) == {0, 1, 2};
    TwoTailsBreakChain(rows[3 := Row(3, 1, None)][1 := Row(1, 2, Some(3))], 2, 3);
  }

  /**
   * Entries on days 5 and 6, each numbered 1, and a new entry on day 3. Both
   * tie for `.first` by the order column; when the database returns the
   * day-6 entry, its previous_entry (the day-5 entry) becomes the
   * predecessor and the new entry lands between the two, out of date order.
   */
  lemma OrderColumnFirstMayMisplace()
    ensures var s := [Stamp(5, 1), Stamp(6, 1)];
            && Sorted(s) && SameDayIncreasing(s)
            && FirstLaterIndex(s, 3) == 0
            && OrderColumnFirst(s, 3, 1)
            && !Sorted(s[..1] + [Stamp(3, OrderAfter(Some(s[0]), 3))] + s[1..])
  {
    var s := [Stamp(5, 1), Stamp(6, 1)];
    assert InOrderAt(s, 0, 1) && IncreasingAt(s, 1);
    var t := s[..1] + [Stamp(3, OrderAfter(Some(s[0]), 3))] + s[1..];
    assert !InOrderAt(t, 0, 1);
  }

  // ---------------------------------------------------------------------
  // One account's entries
  // ---------------------------------------------------------------------

  class AccountChain {
    /** The account's journal_entries rows, by id. */
    var rows: map<EntryId, Row>
    /** The entry no row points at; stands for the account's earliest entry. */
    var head: Option<EntryId>
    /** The rows in link order, head first. */
    ghost var chain: seq<EntryId>

    /** The links form one chain over exactly the stored rows. */
    ghost predicate Linked()
      reads this
    {
      && IsPath(rows, chain)
      && Covers(rows, chain)
      && head == (if chain == [] then None else Some(chain[0]))
    }

    ghost function View(): seq<Stamp>
      reads this
      requires Linked()
    {
      Stamps(rows, chain)
    }

    /** The chain invariant: linked, sorted by date, orders increasing within a day. */
    ghost predicate Valid()
      reads this
    {
      Linked() && Sorted(View()) && SameDayIncreasing(View())
    }

    constructor ()
      ensures Valid() && rows == map[] && chain == []
    {
      rows := map[];
      head := None;
      chain := [];
    }

    /** `where('posted_date > ?', d).first`, scanning the chain from its head. */
    method FirstEntryAfter(d: Date) returns (succ: Option<EntryId>)
      requires Linked()
      ensures var k := FirstLaterIndex(View(), d);
              succ == if k < |chain| then Some(chain[k]) else None
    {
      PathIndexed(rows, chain);
      succ := head;
      ghost var i := 0;
      while succ.Some? && rows[succ.value].postedDate <= d
        invariant 0 <= i <= |chain|
        invariant succ == if i < |chain| then Some(chain[i]) else None
        invariant forall j :: 0 <= j < i ==> View()[j].date <= d
        decreases |chain| - i
      {
        if i + 1 < |chain| {
          assert LinkedAt(rows, chain, i);
        }
        succ := rows[succ.value].nextEntry;
        i := i + 1;
      }
      assert FirstLaterIndex(View(), d) == i;
    }

    /** `where('posted_date <= ?', d).last`, scanning the whole chain in link order. */
    method LastEntryAtOrBefore(d: Date) returns (pred: Option<EntryId>)
      requires Linked()
      ensures var k := LastAtOrBeforeIndex(View(), d);
              pred == if k >= 0 then Some(chain[k]) else None
    {
      PathIndexed(rows, chain);
      pred := None;
      var cur := head;
      ghost var i := 0;
      while cur.Some?
        invariant 0 <= i <= |chain|
        invariant cur == if i < |chain| then Some(chain[i]) else None
        invariant var k := LastAtOrBeforeIndex(View()[..i], d);
                  pred == if k >= 0 then Some(chain[k]) else None
        decreases |chain| - i
      {
        assert View()[..i + 1][..i] == View()[..i];
        if rows[cur.value].postedDate <= d {
          pred := cur;
        }
        if i + 1 < |chain| {
          assert LinkedAt(rows, chain, i);
        }
        cur := rows[cur.value].nextEntry;
        i := i + 1;
      }
      assert View()[..i] == View();
    }

    /** `previous_entry`: the row whose next_entry is x, if any. */
    method PreviousEntry(x: EntryId) returns (pred: Option<EntryId>)
      requires Linked()
      ensures pred.Some? ==> pred.value in rows && rows[pred.value].nextEntry == Some(x)
      ensures pred.None? ==> forall y :: y in rows ==> rows[y].nextEntry != Some(x)
      ensures forall i {:trigger chain[i]} :: 0 <= i < |chain| && chain[i] == x ==>
                pred == if i > 0 then Some(chain[i - 1]) else None
    {
      PathIndexed(rows, chain);
      pred := head;
      ghost var i := 0;
      while pred.Some? && rows[pred.value].nextEntry != Some(x)
        invariant 0 <= i <= |chain|
        invariant pred == if i < |chain| then Some(chain[i]) else None
        invariant forall j :: 0 <= j < i ==> rows[chain[j]].nextEntry != Some(x)
        decreases |chain| - i
      {
        if i + 1 < |chain| {
          assert LinkedAt(rows, chain, i);
        }
        pred := rows[pred.value].nextEntry;
        i := i + 1;
      }
      if pred.None? {
        forall y | y in rows
          ensures rows[y].nextEntry != Some(x)
        {
          var j := IndexOf(chain, y);
        }
        forall k | 0 < k < |chain|
          ensures chain[k] != x
        {
          assert LinkedAt(rows, chain, k - 1);
        }
      }
      forall k | 0 <= k < |chain| && chain[k] == x && pred.Some?
        ensures k > 0 && pred == Some(chain[k - 1])
      {
        OnlyPredecessorLinks(rows, chain, k, pred.value);
      }
    }

    /**
     * `assign_order_number` with its cascade: numbers each entry of the path
     * from its predecessor (the given previous entry for the first one) and
     * walks on through next_entry to the tail. Only orders change.
     */
    method AssignOrderNumber(start: EntryId, previous: Option<EntryId>, ghost path: seq<EntryId>)
      requires IsPath(rows, path) && |path| > 0 && path[0] == start
      requires previous.Some? ==> previous.value in rows && previous.value !in Elems(path)
      modifies this
      ensures head == old(head) && chain == old(chain) && rows.Keys == old(rows).Keys
      ensures forall y :: y in rows ==>
                rows[y].postedDate == old(rows)[y].postedDate && rows[y].nextEntry == old(rows)[y].nextEntry
      ensures forall y :: y in rows && y !in Elems(path) ==> rows[y] == old(rows)[y]
      ensures NumberedAlong(rows, previous, path)
    {
      var cur := Some(start);
      var prev := previous;
      ghost var i := 0;
      ghost var touched: set<EntryId> := {};
      while cur.Some?
        invariant 0 <= i <= |path|
        invariant cur == if i < |path| then Some(path[i]) else None
        invariant prev == if i == 0 then previous else Some(path[i - 1])
        invariant head == old(head) && chain == old(chain) && rows.Keys == old(rows).Keys
        invariant forall y :: y in rows ==>
                    rows[y].postedDate == old(rows)[y].postedDate && rows[y].nextEntry == old(rows)[y].nextEntry
        invariant touched == Elems(path[..i])
        invariant forall y :: y in rows && y !in touched ==> rows[y] == old(rows)[y]
        invariant NumberedAlong(rows, previous, path[..i])
        decreases |path| - i
      {
        var c := cur.value;
        PathStep(old(rows), path, i);
        var row := rows[c];
        ghost var before := rows;
        var o := OrderAfter(PreviousStamp(rows, prev), row.postedDate);
        rows := rows[c := row.(order := o)];
        AssignStep(old(rows), before, rows, previous, prev, path, i, touched);
        prev := cur;
        cur := row.nextEntry;
        i := i + 1;
        touched := touched + {c};
      }
      assert path[..i] == path;
    }

    /**
     * The lookup of `assign_associated_entries`: the successor is the first
     * entry dated after d, the predecessor is the successor's previous_entry,
     * or, failing that, the last entry dated on or before d. On a valid chain
     * the two are the neighbours of the insertion point.
     */
    method Neighbours(d: Date) returns (succ: Option<EntryId>, pred: Option<EntryId>)
      requires Valid()
      ensures var k := FirstLaterIndex(View(), d);
              && succ == At(chain, k)
              && pred == (if k > 0 then Some(chain[k - 1]) else None)
    {
      succ := FirstEntryAfter(d);
      pred := None;
      if succ.Some? {
        pred := PreviousEntry(succ.value);
      }
      if pred.None? {
        pred := LastEntryAtOrBefore(d);
      }
      FallbackIsBeforeInsertionPoint(View(), d);
    }

    /**
     * Creating an entry without a preset next_entry: `assign_associated_entries`
     * finds the successor (first entry dated later) and the predecessor (the
     * successor's previous_entry, else the last entry on or before the date),
     * links the entry between them, then `assign_order_number` numbers it and
     * cascades to the tail.
     */
    method Insert(id: EntryId, d: Date)
      requires Valid() && id !in rows
      modifies this
      ensures Valid()
      ensures var k := FirstLaterIndex(old(View()), d);
              && chain == old(chain)[..k] + [id] + old(chain)[k..]
              && View()[..k] == old(View())[..k]
              && NumberedFrom(View(), k)
      ensures rows.Keys == old(rows).Keys + {id} && rows[id].postedDate == d
      ensures forall y :: y in old(rows) ==> rows[y].postedDate == old(rows)[y].postedDate
      ensures UniqueDayOrder(View())
    {
      ghost var oc := chain;
      ghost var oldRows := rows;
      ghost var k := FirstLaterIndex(View(), d);
      var succ, pred := Neighbours(d);
      SplicedPath(oldRows, oc, k, id, d, pred);

      rows := rows[id := Row(d, 0, succ)];
      if pred.Some? {
        rows := rows[pred.value := rows[pred.value].(nextEntry := Some(id))];
      } else {
        head := Some(id);
      }
      chain := oc[..k] + [id] + oc[k..];
      assert rows == Spliced(oldRows, id, d, succ, pred);
      ghost var linked := rows;
      AssignOrderNumber(id, pred, [id] + oc[k..]);
      InsertFinished(oldRows, linked, rows, oc, k, id, d, pred);
    }

    /**
     * Creating an entry whose next_entry is already set: the lookup is
     * skipped and no other link is written; the entry gets order 1 (a new
     * record has no previous_entry yet) and the cascade renumbers from the
     * preset next_entry to the tail. This keeps a single chain exactly when
     * the preset entry was the head; otherwise two rows point at it.
     */
    method InsertBefore(id: EntryId, d: Date, next: EntryId)
      requires Valid() && id !in rows && next in rows && d <= rows[next].postedDate
      modifies this
      ensures rows.Keys == old(rows).Keys + {id}
      ensures rows[id] == Row(d, 1, Some(next))
      ensures forall y :: y in old(rows) ==>
                rows[y].nextEntry == old(rows)[y].nextEntry && rows[y].postedDate == old(rows)[y].postedDate
      ensures var j := IndexOf(old(chain), next);
              && (forall y :: y in old(rows) && y !in Elems(old(chain)[j..]) ==> rows[y] == old(rows)[y])
              && NumberedAlong(rows, Some(id), old(chain)[j..])
      ensures old(head) == Some(next) ==>
                Valid() && chain == [id] + old(chain) && NumberedFrom(View(), 0) && UniqueDayOrder(View())
      ensures old(head) != Some(next) ==> NoChainCovers(rows) && head == old(head) && chain == old(chain)
    {
      ghost var j := IndexOf(chain, next);
      ghost var oc := chain;
      ghost var oldRows := rows;
      rows := rows[id := Row(d, 0, Some(next))];
      PrependedPath(oldRows, oc, j, id, d);
      if j > 0 {
        PathDistinct(oldRows, oc, 0, j);
      }
      if head == Some(next) {
        head := Some(id);
        chain := [id] + chain;
      }
      AssignOrderNumber(id, None, [id] + oc[j..]);
      NumberedAlongTail(rows, None, id, oc[j..]);
      assert NumberedAlongAt(rows, None, [id] + oc[j..], 0);
      if old(head) == Some(next) {
        assert j == 0 && oc[j..] == oc;
        PrependFinished(oldRows, rows, oc, id, d);
      } else {
        SharedSuccessorAfterInsert(oldRows, rows, oc, j, id);
      }
    }

    /**
     * Destroying an entry (`unassign_associated_entries`): its previous_entry,
     * if any, is re-pointed to the entry's next_entry, then the row goes.
     * Orders are not renumbered, so gaps may remain.
     */
    method Remove(id: EntryId)
      requires Valid() && id in rows
      modifies this
      ensures Valid()
      ensures var k := IndexOf(old(chain), id); chain == old(chain)[..k] + old(chain)[k + 1..]
      ensures rows.Keys == old(rows).Keys - {id}
      ensures forall y :: y in rows ==>
                && StampOf(rows[y]) == StampOf(old(rows)[y])
                && rows[y].nextEntry ==
                     if old(rows)[y].nextEntry == Some(id) then old(rows)[id].nextEntry else old(rows)[y].nextEntry
      ensures UniqueDayOrder(View())
    {
      ghost var k := IndexOf(chain, id);
      ghost var s := View();
      ghost var oc := chain;
      ghost var oldRows := rows;
      var pred := PreviousEntry(id);
      assert pred == if k > 0 then Some(oc[k - 1]) else None;
      if pred.Some? {
        rows := rows[pred.value := rows[pred.value].(nextEntry := rows[id].nextEntry)];
      } else {
        head := rows[id].nextEntry;
      }
      rows := rows - {id};
      PathStep(oldRows, oc, k);
      if k > 0 {
        PathStep(oldRows, oc, k - 1);
        PathDistinct(oldRows, oc, k - 1, k);
      }
      UnlinkedPath(oldRows, rows, oc, k);
      chain := oc[..k] + oc[k + 1..];
      RemovedStamps(oldRows, rows, oc, k);
      RemoveKeepsOrdered(s, k);
      forall y | y in rows && oldRows[y].nextEntry == Some(id)
        ensures pred == Some(y)
      {
        OnlyPredecessorLinks(oldRows, oc, k, y);
      }
    }
  }
}
