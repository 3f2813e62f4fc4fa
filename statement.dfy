/** The statement page: the list of transactions loaded from the remote
    table, deleting one of them, and the case-insensitive description
    search that selects the rows shown. */
module Statement {
  import opened Collections

  /** A transaction as the remote table returns it; `goal_id` is the
      optional link to a goal. */
  datatype Transaction = Transaction(
    id: int, description: string, category: string, value: real, date: string, goal_id: Option<int>)

  // ---------------------------------------------------------------------
  // Deleting a transaction

  /** The predicate kept by deletion: the transaction's id differs from `id`. */
  function IdIsNot(id: int): Transaction -> bool
  {
    (t: Transaction) => t.id != id
  }

  /** The local list after the transaction(s) with id `id` are deleted. */
  function WithoutTransaction(txs: seq<Transaction>, id: int): (r: seq<Transaction>)
    ensures |r| <= |txs|
    ensures forall t :: t in r ==> t in txs && t.id != id
  {
    Filter(txs, IdIsNot(id))
  }

  /** Deleting removes every transaction with that id, keeps every other one
      (each occurrence of it, its goal link included) in its original order,
      and changes nothing when no transaction has that id. */
  lemma WithoutTransactionSpec(txs: seq<Transaction>, id: int)
    ensures forall t :: t in WithoutTransaction(txs, id) ==> t.id != id
    ensures forall t: Transaction :: t.id != id ==>
              multiset(WithoutTransaction(txs, id))[t] == multiset(txs)[t]
    ensures IsSubsequence(WithoutTransaction(txs, id), txs)
    ensures (forall t :: t in txs ==> t.id != id) ==> WithoutTransaction(txs, id) == txs
  {
    forall t: Transaction | t.id != id
      ensures multiset(WithoutTransaction(txs, id))[t] == multiset(txs)[t]
    {
      FilterCounts(txs, IdIsNot(id), t);
    }
    FilterIsSubsequence(txs, IdIsNot(id));
    if forall t :: t in txs ==> t.id != id {
      FilterKeepsAll(txs, IdIsNot(id));
    }
  }

  // ---------------------------------------------------------------------
  // Lower-casing

  /** Lower-cases the upper-case letters of ASCII and of Latin-1
      (U+00C0 to U+00DE, without the multiplication sign U+00D7). */
  function LowerChar(c: char): (d: char)
    ensures 'A' <= c <= 'Z' ==> d == "abcdefghijklmnopqrstuvwxyz"[c as int - 'A' as int]
    ensures IsUpper(c) ==> d as int == c as int + 32
    ensures !IsUpper(c) ==> d == c
    ensures !IsUpper(d)
  {
    if IsUpper(c) then (c as int + 32) as char else c
  }

  /** The characters `LowerChar` changes. */
  predicate IsUpper(c: char)
  {
    ('A' <= c <= 'Z') || ('À' <= c <= 'Þ' && c != '×')
  }

  /** A string with every character lower-cased. */
  function ToLower(s: string): (r: string)
    ensures |r| == |s|
    ensures forall i :: 0 <= i < |s| ==> r[i] == LowerChar(s[i])
  {
    seq(|s|, i requires 0 <= i < |s| => LowerChar(s[i]))
  }

  /** Lower-casing twice is lower-casing once. */
  lemma ToLowerIdempotent(s: string)
    ensures ToLower(ToLower(s)) == ToLower(s)
  {
  }

  // ---------------------------------------------------------------------
  // Substring search

  /** `t` occurs in `s` starting at position `i`. */
  predicate OccursAt(t: string, s: string, i: int)
  {
    0 <= i && i + |t| <= |s| && s[i..i + |t|] == t
  }

  /** `t` occurs in `s` at some position. */
  ghost predicate OccursIn(t: string, s: string)
  {
    exists i :: OccursAt(t, s, i)
  }

  /** Whether `t` occurs in `s`, trying each starting position from the left. */
  function Includes(s: string, t: string): (b: bool)
    ensures t == [] ==> b
    ensures b ==> |t| <= |s|
    decreases |s|
  {
    if |t| > |s| then false
    else if s[..|t|] == t then true
    else Includes(s[1..], t)
  }

  /** The search finds `t` exactly when it occurs somewhere in `s`. */
  lemma {:induction false} IncludesIffOccurs(s: string, t: string)
    ensures Includes(s, t) <==> OccursIn(t, s)
  {
    if |t| > |s| {
    } else if s[..|t|] == t {
      assert OccursAt(t, s, 0);
    } else {
      IncludesIffOccurs(s[1..], t);
      if OccursIn(t, s) {
        var i :| OccursAt(t, s, i);
        assert i != 0;
        assert s[1..][i - 1..i - 1 + |t|] == s[i..i + |t|];
        assert OccursAt(t, s[1..], i - 1);
      }
      if OccursIn(t, s[1..]) {
        var i :| OccursAt(t, s[1..], i);
        assert s[i + 1..i + 1 + |t|] == s[1..][i..i + |t|];
        assert OccursAt(t, s, i + 1);
      }
    }
  }

  /** The empty string occurs in every string. */
  lemma IncludesEmpty(s: string)
    ensures Includes(s, "")
  {
  }

  // ---------------------------------------------------------------------
  // The description search

  /** A transaction is shown for `term` when its lower-cased description
      contains the lower-cased term. */
  predicate Matches(tx: Transaction, term: string)
  {
    Includes(ToLower(tx.description), ToLower(term))
  }

  /** `Matches` for a fixed term, as the predicate passed to the filter. */
  function MatchesTerm(term: string): Transaction -> bool
  {
    (t: Transaction) => Matches(t, term)
  }

  /** The rows shown for search term `term`. */
  function Search(txs: seq<Transaction>, term: string): (r: seq<Transaction>)
    ensures |r| <= |txs|
    ensures forall t :: t in r ==> t in txs && Matches(t, term)
  {
    Filter(txs, MatchesTerm(term))
  }

  /** The rows shown are a subsequence of the transactions holding exactly
      those (each occurrence of them) whose lower-cased description contains
      the lower-cased term. */
  lemma SearchSpec(txs: seq<Transaction>, term: string)
    ensures IsSubsequence(Search(txs, term), txs)
    ensures forall t :: t in Search(txs, term) <==>
              t in txs && OccursIn(ToLower(term), ToLower(t.description))
    ensures forall t: Transaction :: multiset(Search(txs, term))[t] ==
              if OccursIn(ToLower(term), ToLower(t.description)) then multiset(txs)[t] else 0
  {
    FilterIsSubsequence(txs, MatchesTerm(term));
    forall t: Transaction
      ensures multiset(Search(txs, term))[t] ==
              if OccursIn(ToLower(term), ToLower(t.description)) then multiset(txs)[t] else 0
    {
      FilterCounts(txs, MatchesTerm(term), t);
      IncludesIffOccurs(ToLower(t.description), ToLower(term));
    }
  }

  /** An empty search term shows every transaction. */
  lemma SearchEmptyTerm(txs: seq<Transaction>)
    ensures Search(txs, "") == txs
  {
    forall t | t in txs ensures MatchesTerm("")(t) {
      IncludesEmpty(ToLower(t.description));
    }
    FilterKeepsAll(txs, MatchesTerm(""));
  }

  /** The case of the search term does not change the rows shown. */
  lemma SearchIgnoresCase(txs: seq<Transaction>, term: string)
    ensures Search(txs, ToLower(term)) == Search(txs, term)
  {
    ToLowerIdempotent(term);
    FilterAgreeing(txs, MatchesTerm(ToLower(term)), MatchesTerm(term));
  }

  /** Deleting a transaction and then searching shows the rows the search
      showed before, less the deleted transaction. */
  lemma SearchAfterDelete(txs: seq<Transaction>, id: int, term: string)
    ensures Search(WithoutTransaction(txs, id), term) == WithoutTransaction(Search(txs, term), id)
  {
    FilterCommutes(txs, IdIsNot(id), MatchesTerm(term));
  }

  // ---------------------------------------------------------------------
  // The page state

  /** The statement page: the loaded transactions and the search box. */
  class StatementPage {
    var transactions: seq<Transaction>
    var searchTerm: string

    /** The page once the month's transactions have been loaded. */
    constructor (loaded: seq<Transaction>)
      ensures transactions == loaded && searchTerm == ""
    {
      transactions := loaded;
      searchTerm := "";
    }

    /** The rows the table shows. */
    function Rows(): (r: seq<Transaction>)
      reads this
      ensures forall t :: t in r ==> t in transactions && Matches(t, searchTerm)
    {
      Search(transactions, searchTerm)
    }

    /** Typing into the search box. */
    method SetSearchTerm(term: string)
      modifies this`searchTerm
      ensures searchTerm == term
    {
      searchTerm := term;
    }

    /** Deletes transaction `id`; `remoteOk` is whether the remote delete
        succeeded. Only the local list changes, and only on success. */
    method DeleteTransaction(id: int, remoteOk: bool)
      modifies this`transactions
      ensures transactions == if remoteOk then WithoutTransaction(old(transactions), id)
                              else old(transactions)
      ensures remoteOk ==> forall t :: t in transactions ==> t.id != id
      ensures forall t :: t in transactions ==> t in old(transactions)
    {
      if remoteOk {
        WithoutTransactionSpec(transactions, id);
        transactions := WithoutTransaction(transactions, id);
      }
    }
  }
}
