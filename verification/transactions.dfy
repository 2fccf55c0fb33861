/** The list logic of `HomeController.transactions`: the transactions the account initiated,
    plus the ones it received that are not withdraws (a withdraw has the account as both
    initiator and recipient, so it is already among the initiated ones), sorted by id from the
    newest to the oldest. The two `findBy` queries that produce the input lists are not part of
    this model; the lists are parameters. */
module TransactionList {
  /** A transaction as the list logic sees it: its id and the ids of its two accounts. */
  datatype TxRecord = TxRecord(id: int, initiatorId: int, recipientId: int)

  /** A withdraw: initiator and recipient are the same account. */
  predicate IsWithdraw(t: TxRecord) {
    t.initiatorId == t.recipientId
  }

  /** Reference definition: the transactions of `s` that are not withdraws, in order. */
  function NonWithdraws(s: seq<TxRecord>): seq<TxRecord> {
    if |s| == 0 then []
    else if IsWithdraw(s[0]) then NonWithdraws(s[1..])
    else [s[0]] + NonWithdraws(s[1..])
  }

  lemma {:induction false} NonWithdrawsMembers(s: seq<TxRecord>)
    ensures forall t :: t in NonWithdraws(s) <==> t in s && !IsWithdraw(t)
  {
    if |s| > 0 {
      NonWithdrawsMembers(s[1..]);
      assert s == [s[0]] + s[1..];
    }
  }

  /** The `forEach` that collects the received withdraws into `duplicated`, in order. */
  function Duplicated(received: seq<TxRecord>): (r: seq<TxRecord>)
    ensures |r| <= |received|
    ensures forall t :: t in r <==> t in received && IsWithdraw(t)
  {
    if |received| == 0 then []
    else
      var rest := Duplicated(received[1..]);
      assert forall t :: t in received <==> t == received[0] || t in received[1..] by {
        assert received == [received[0]] + received[1..];
      }
      if IsWithdraw(received[0]) then [received[0]] + rest else rest
  }

  /** `List.removeAll`: drops every element that occurs in `removed`, keeping the order of the
      rest. `Transaction` does not override `equals`, so the list compares references; two
      records with the same fields are either both withdraws or both not, so value equality
      removes the same elements here. */
  function RemoveAll(list: seq<TxRecord>, removed: seq<TxRecord>): (r: seq<TxRecord>)
    ensures |r| <= |list|
    ensures forall t :: t in r <==> t in list && t !in removed
  {
    if |list| == 0 then []
    else
      var rest := RemoveAll(list[1..], removed);
      assert forall t :: t in list <==> t == list[0] || t in list[1..] by {
        assert list == [list[0]] + list[1..];
      }
      if list[0] in removed then rest else [list[0]] + rest
  }

  /** Removing exactly the withdraws of a list leaves its non-withdraws, in order. */
  lemma {:induction false} RemoveAllWithdraws(list: seq<TxRecord>, removed: seq<TxRecord>)
    requires forall t :: t in list ==> (t in removed <==> IsWithdraw(t))
    ensures RemoveAll(list, removed) == NonWithdraws(list)
  {
    if |list| > 0 {
      assert list[0] in list;
      RemoveAllWithdraws(list[1..], removed);
    }
  }

  /** `recipientTransactions.removeAll(duplicated)` keeps the received transactions that are not
      withdraws, in their order. */
  lemma DropDuplicated(received: seq<TxRecord>)
    ensures RemoveAll(received, Duplicated(received)) == NonWithdraws(received)
  {
    RemoveAllWithdraws(received, Duplicated(received));
  }

  // ---------------------------------------------------------------------------------------------
  // The comparator

  /** Java's `int` subtraction: the exact difference wrapped into [-2^31, 2^31). */
  function Wrap32(v: int): (r: int)
    ensures -0x8000_0000 <= r < 0x8000_0000
    ensures -0x8000_0000 <= v < 0x8000_0000 ==> r == v
    ensures (r - v) % 0x1_0000_0000 == 0
  {
    (v + 0x8000_0000) % 0x1_0000_0000 - 0x8000_0000
  }

  /** The comparator as written: `elem2.getId() - elem1.getId()` in 32-bit arithmetic. A
      negative result puts `elem1` first. */
  function CompareAsWritten(elem1: TxRecord, elem2: TxRecord): int {
    Wrap32(elem2.id - elem1.id)
  }

  /** The comparator the sort evidently intends: the larger id first, with no overflow. */
  function Compare(elem1: TxRecord, elem2: TxRecord): (r: int)
    ensures r < 0 <==> elem1.id > elem2.id
    ensures r == 0 <==> elem1.id == elem2.id
    ensures -1 <= r <= 1
  {
    if elem1.id > elem2.id then -1 else if elem1.id == elem2.id then 0 else 1
  }

  /** Whenever the difference of the ids fits in an `int`, for instance whenever both ids are
      non-negative as auto-increment keys are, the written comparator orders as intended. */
  lemma CompareAsWrittenAgrees(elem1: TxRecord, elem2: TxRecord)
    requires -0x8000_0000 <= elem2.id - elem1.id < 0x8000_0000
    ensures CompareAsWritten(elem1, elem2) < 0 <==> Compare(elem1, elem2) < 0
    ensures CompareAsWritten(elem1, elem2) == 0 <==> Compare(elem1, elem2) == 0
    ensures CompareAsWritten(elem1, elem2) > 0 <==> Compare(elem1, elem2) > 0
  {
  }

  /** Java `int` ids are in [-2^31, 2^31); both non-negative means the difference fits. */
  lemma NonNegativeIdsFit(elem1: TxRecord, elem2: TxRecord)
    requires 0 <= elem1.id < 0x8000_0000 && 0 <= elem2.id < 0x8000_0000
    ensures CompareAsWritten(elem1, elem2) < 0 <==> Compare(elem1, elem2) < 0
  {
    CompareAsWrittenAgrees(elem1, elem2);
  }

  /** The subtraction overflows for ids of opposite sign far apart: with ids 2147483647 and -2
      the written comparator puts the smaller id first, so the list is no longer newest first. */
  lemma CompareAsWrittenOverflows()
    ensures var newer := TxRecord(0x7FFF_FFFF, 1, 2);
            var older := TxRecord(-2, 1, 2);
            && Compare(newer, older) < 0
            && CompareAsWritten(newer, older) > 0
  {
    var newer := TxRecord(0x7FFF_FFFF, 1, 2);
    var older := TxRecord(-2, 1, 2);
    assert older.id - newer.id == -0x8000_0001;
    assert Wrap32(-0x8000_0001) == 0x7FFF_FFFF;
  }

  // ---------------------------------------------------------------------------------------------
  // The sort

  /** Newest first: no transaction precedes one with a larger id. */
  predicate SortedNewestFirst(s: seq<TxRecord>) {
    forall i, j :: 0 <= i < j < |s| ==> s[i].id >= s[j].id
  }

  /** Inserts `t` before the first transaction it precedes, so after every one with an id at
      least its own: among equal ids the earlier stays first. */
  function Insert(t: TxRecord, s: seq<TxRecord>): (r: seq<TxRecord>)
    ensures multiset(r) == multiset(s) + multiset{t}
    ensures forall u :: u in r <==> u in s || u == t
  {
    if |s| == 0 then [t]
    else if Compare(t, s[0]) < 0 then [t] + s
    else
      assert s == [s[0]] + s[1..];
      [s[0]] + Insert(t, s[1..])
  }

  /** Inserting into a list sorted newest first keeps it sorted. */
  lemma {:induction false} InsertSorted(t: TxRecord, s: seq<TxRecord>)
    requires SortedNewestFirst(s)
    ensures SortedNewestFirst(Insert(t, s))
  {
    if |s| > 0 && Compare(t, s[0]) >= 0 {
      var rest := Insert(t, s[1..]);
      InsertSorted(t, s[1..]);
      forall k | 0 <= k < |rest| ensures rest[k].id <= s[0].id {
        if rest[k] != t {
          assert rest[k] in s[1..];
          var j :| 0 <= j < |s[1..]| && s[1..][j] == rest[k];
          assert s[j + 1] == rest[k];
        }
      }
      assert Insert(t, s) == [s[0]] + rest;
    }
  }

  /** `Collections.sort` with the intended comparator, as a stable insertion sort. */
  function Sort(s: seq<TxRecord>): (r: seq<TxRecord>)
    ensures SortedNewestFirst(r)
    ensures multiset(r) == multiset(s)
    ensures |r| == |s|
  {
    if |s| == 0 then []
    else
      var r := Insert(s[|s| - 1], Sort(s[..|s| - 1]));
      InsertSorted(s[|s| - 1], Sort(s[..|s| - 1]));
      assert s == s[..|s| - 1] + [s[|s| - 1]];
      assert |r| == |multiset(r)|;
      r
  }

  /** The list `transactions()` hands to the transactions view. */
  function Transactions(initiated: seq<TxRecord>, received: seq<TxRecord>): (r: seq<TxRecord>)
    ensures SortedNewestFirst(r)
    ensures multiset(r) == multiset(initiated) + multiset(NonWithdraws(received))
    ensures |r| == |initiated| + |NonWithdraws(received)|
  {
    DropDuplicated(received);
    Sort(initiated + RemoveAll(received, Duplicated(received)))
  }

  /** What the list holds: every initiated transaction, and every received one that is not a
      withdraw, and nothing else. */
  lemma TransactionsMembers(initiated: seq<TxRecord>, received: seq<TxRecord>)
    ensures forall t :: t in Transactions(initiated, received) <==>
      t in initiated || (t in received && !IsWithdraw(t))
  {
    var r := Transactions(initiated, received);
    NonWithdrawsMembers(received);
    forall t ensures t in r <==> t in multiset(initiated) + multiset(NonWithdraws(received)) {
      assert t in r <==> t in multiset(r);
    }
  }

  /** How many times a transaction occurs: its occurrences among the initiated, plus its
      occurrences among the received unless it is a withdraw. */
  lemma {:induction false} TransactionsCount(initiated: seq<TxRecord>, received: seq<TxRecord>, t: TxRecord)
    ensures multiset(Transactions(initiated, received))[t]
      == multiset(initiated)[t] + if IsWithdraw(t) then 0 else multiset(received)[t]
  {
    NonWithdrawsCount(received, t);
  }

  lemma {:induction false} NonWithdrawsCount(s: seq<TxRecord>, t: TxRecord)
    ensures multiset(NonWithdraws(s))[t] == if IsWithdraw(t) then 0 else multiset(s)[t]
  {
    if |s| > 0 {
      NonWithdrawsCount(s[1..], t);
      assert s == [s[0]] + s[1..];
    }
  }
}
