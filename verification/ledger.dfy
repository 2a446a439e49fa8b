/** The feed ledger: a flock's `alimentation_contour` is meant to equal the sum of the
    quantities of its feed movements. `Total` is that sum over the history table, defined
    independently of any operation so that the operations can be checked against it. */
module Ledger {
  import opened Tables
  import opened Records

  /** What one movement contributes to flock `b`'s total. */
  function Share(r: FeedRecord, b: int): real {
    if r.bandeId == b then r.quantite else 0.0
  }

  /** What the id `i` of `h` contributes to flock `b`'s total: nothing when no movement has it. */
  function ShareAt(h: map<int, FeedRecord>, i: int, b: int): real {
    if i in h then Share(h[i], b) else 0.0
  }

  /** The sum of flock `b`'s quantities over the ids `lo` to `hi - 1` of `h`. */
  function Sum(h: map<int, FeedRecord>, b: int, lo: int, hi: int): real
    decreases hi - lo
  {
    if lo >= hi then 0.0 else ShareAt(h, lo, b) + Sum(h, b, lo + 1, hi)
  }

  /** The sum of the quantities of flock `b`'s movements: every id AUTOINCREMENT handed out. */
  function Total(h: Table<FeedRecord>, b: int): real {
    Sum(h.rows, b, 1, h.next)
  }

  /** Two maps that agree on the ids `lo` to `hi - 1` have the same sum there. */
  lemma {:induction false} SumAgree(h: map<int, FeedRecord>, g: map<int, FeedRecord>, b: int, lo: int, hi: int)
    requires forall i :: lo <= i < hi ==> ShareAt(h, i, b) == ShareAt(g, i, b)
    ensures Sum(h, b, lo, hi) == Sum(g, b, lo, hi)
    decreases hi - lo
  {
    if lo < hi {
      SumAgree(h, g, b, lo + 1, hi);
    }
  }

  /** Changing the movement at one id inside the range swaps its share. */
  lemma {:induction false} SumChange(h: map<int, FeedRecord>, g: map<int, FeedRecord>, b: int, lo: int, hi: int, k: int)
    requires lo <= k < hi
    requires forall i :: lo <= i < hi && i != k ==> ShareAt(h, i, b) == ShareAt(g, i, b)
    ensures Sum(g, b, lo, hi) == Sum(h, b, lo, hi) - ShareAt(h, k, b) + ShareAt(g, k, b)
    decreases hi - lo
  {
    if lo == k {
      SumAgree(h, g, b, lo + 1, hi);
    } else {
      SumChange(h, g, b, lo + 1, hi, k);
    }
  }

  /** Extending the range by one id adds that id's share. */
  lemma {:induction false} SumExtend(h: map<int, FeedRecord>, b: int, lo: int, hi: int)
    requires lo <= hi
    ensures Sum(h, b, lo, hi + 1) == Sum(h, b, lo, hi) + ShareAt(h, hi, b)
    decreases hi - lo
  {
    if lo < hi {
      SumExtend(h, b, lo + 1, hi);
    }
  }

  /** A new movement adds its quantity to its own flock's total only. */
  lemma TotalInsert(t: Table<FeedRecord>, b: int, r: FeedRecord)
    requires t.Valid()
    ensures Total(t.Insert(r).0, b) == Total(t, b) + Share(r, b)
  {
    var t' := t.Insert(r).0;
    SumAgree(t.rows, t'.rows, b, 1, t.next);
    SumExtend(t'.rows, b, 1, t.next);
  }

  /** Rewriting a movement swaps its old share for the new one. */
  lemma TotalPut(t: Table<FeedRecord>, b: int, k: int, r: FeedRecord)
    requires t.Valid() && k in t.rows
    ensures Total(t.Put(k, r), b) == Total(t, b) - Share(t.rows[k], b) + Share(r, b)
  {
    SumChange(t.rows, t.Put(k, r).rows, b, 1, t.next, k);
  }

  /** Deleting a movement takes its share off. */
  lemma TotalRemove(t: Table<FeedRecord>, b: int, k: int)
    requires t.Valid() && k in t.rows
    ensures Total(t.Remove({k}), b) == Total(t, b) - Share(t.rows[k], b)
  {
    SumChange(t.rows, t.Remove({k}).rows, b, 1, t.next, k);
  }

  /** The movements of `h` that are not flock `gone`'s. */
  function Drop(h: map<int, FeedRecord>, gone: int): (r: map<int, FeedRecord>)
    ensures forall i :: i in r <==> i in h && h[i].bandeId != gone
    ensures forall i :: i in r ==> r[i] == h[i]
  {
    map i | i in h && h[i].bandeId != gone :: h[i]
  }

  /** Dropping the movements of one flock empties its total and keeps every other one. */
  lemma {:induction false} SumDrop(h: map<int, FeedRecord>, gone: int, b: int, lo: int, hi: int)
    ensures Sum(Drop(h, gone), b, lo, hi) == if b == gone then 0.0 else Sum(h, b, lo, hi)
    decreases hi - lo
  {
    if lo < hi {
      SumDrop(h, gone, b, lo + 1, hi);
    }
  }

  /** A flock with no movement has sum 0. */
  lemma {:induction false} SumAbsent(h: map<int, FeedRecord>, b: int, lo: int, hi: int)
    requires forall i :: i in h ==> h[i].bandeId != b
    ensures Sum(h, b, lo, hi) == 0.0
    decreases hi - lo
  {
    if lo < hi {
      SumAbsent(h, b, lo + 1, hi);
    }
  }

  /** Every movement names a flock id already handed out, so a flock created later starts
      with an empty history. */
  ghost predicate HistoryBelow(st: Store) {
    forall i :: i in st.history.rows ==> st.history.rows[i].bandeId < st.bandes.next
  }

  /** The ledger invariant: each existing flock's running total is the sum of its movements. */
  ghost predicate Balanced(st: Store) {
    && st.history.Valid() && st.bandes.Valid() && HistoryBelow(st)
    && forall b :: b in st.bandes.rows ==> st.bandes.rows[b].contour == Total(st.history, b)
  }
}
