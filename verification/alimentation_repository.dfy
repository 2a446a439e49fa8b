/** The feed history (`alimentation_history`) and the running total each flock keeps of it
    (`alimentation_contour`). Every write to the history adjusts the affected flocks' totals
    in the same step, so that a total stays the sum of its flock's movements. */
module AlimentationRepository {
  import opened Wrappers
  import opened Errors
  import opened Tables
  import opened Records
  import opened Ledger

  /** `UPDATE bandes SET alimentation_contour = alimentation_contour + delta WHERE id = b`:
      an absent flock matches no row and nothing changes. */
  function Adjust(bandes: Table<Bande>, b: int, delta: real): (r: Table<Bande>)
    ensures r.next == bandes.next && r.rows.Keys == bandes.rows.Keys
    ensures forall c :: c in r.rows ==>
      r.rows[c] == if c == b then bandes.rows[c].(contour := bandes.rows[c].contour + delta) else bandes.rows[c]
    ensures bandes.Valid() ==> r.Valid()
  {
    if b in bandes.rows then bandes.Put(b, bandes.rows[b].(contour := bandes.rows[b].contour + delta)) else bandes
  }

  /** Records a movement of `quantite` for flock `bandeId` and adds it to the flock's total. */
  function Create(st: Store, bandeId: int, quantite: real): (r: Result<Write<FeedRecord>, AppError>)
    ensures bandeId !in st.bandes.rows <==> r.Failure?
    ensures r.Failure? ==> r.error == ValidationError("bande_id", Missing)
    ensures r.Success? ==>
      && r.value.row == FeedRecord(bandeId, quantite)
      && r.value.store == st.(history := r.value.store.history, bandes := r.value.store.bandes)
      && r.value.store.history.rows == st.history.rows[r.value.id := r.value.row]
      && (st.history.Valid() ==> r.value.id !in st.history.rows && r.value.store.history.Valid())
      && r.value.store.bandes.rows.Keys == st.bandes.rows.Keys && r.value.store.bandes.next == st.bandes.next
      && r.value.store.bandes.rows[bandeId].contour == st.bandes.rows[bandeId].contour + quantite
      && forall c :: c in st.bandes.rows && c != bandeId ==> r.value.store.bandes.rows[c] == st.bandes.rows[c]
  {
    if bandeId !in st.bandes.rows then Failure(ValidationError("bande_id", Missing))
    else
      var row := FeedRecord(bandeId, quantite);
      var (history, id) := st.history.Insert(row);
      Success(Write(st.(history := history, bandes := Adjust(st.bandes, bandeId, quantite)), id, row))
  }

  /** Rewrites movement `id`. Moving it to another flock takes its old quantity off the old
      flock and puts the new one on the new flock; otherwise the flock's total changes by the
      difference. The target flock is checked first, then the movement's existence. */
  function Update(st: Store, id: int, bandeId: int, quantite: real): (r: Result<Store, AppError>)
    ensures bandeId !in st.bandes.rows ==> r == Failure(ValidationError("bande_id", Missing))
    ensures bandeId in st.bandes.rows && id !in st.history.rows ==> r == Failure(NotFound(AlimentationEntity, id))
    ensures r.Success? <==> bandeId in st.bandes.rows && id in st.history.rows
    ensures r.Success? ==>
      && r.value == st.(history := r.value.history, bandes := r.value.bandes)
      && r.value.history == st.history.Put(id, FeedRecord(bandeId, quantite))
      && r.value.bandes.rows.Keys == st.bandes.rows.Keys && r.value.bandes.next == st.bandes.next
      && var prev := st.history.rows[id];
         forall c :: c in st.bandes.rows ==>
           r.value.bandes.rows[c] == st.bandes.rows[c].(contour :=
             st.bandes.rows[c].contour - Share(prev, c) + Share(FeedRecord(bandeId, quantite), c))
  {
    if bandeId !in st.bandes.rows then Failure(ValidationError("bande_id", Missing))
    else if id !in st.history.rows then Failure(NotFound(AlimentationEntity, id))
    else
      var prev := st.history.rows[id];
      var history := st.history.Put(id, FeedRecord(bandeId, quantite));
      var bandes :=
        if prev.bandeId != bandeId then Adjust(Adjust(st.bandes, prev.bandeId, -prev.quantite), bandeId, quantite)
        else Adjust(st.bandes, bandeId, quantite - prev.quantite);
      Success(st.(history := history, bandes := bandes))
  }

  /** Removes movement `id` and takes its quantity off its flock's total. */
  function Delete(st: Store, id: int): (r: Result<Store, AppError>)
    ensures r.Failure? <==> id !in st.history.rows
    ensures r.Failure? ==> r.error == NotFound(AlimentationEntity, id)
    ensures r.Success? ==>
      && r.value == st.(history := r.value.history, bandes := r.value.bandes)
      && r.value.history == st.history.Remove({id})
      && r.value.bandes.rows.Keys == st.bandes.rows.Keys && r.value.bandes.next == st.bandes.next
      && forall c :: c in st.bandes.rows ==>
           r.value.bandes.rows[c] == st.bandes.rows[c].(contour := st.bandes.rows[c].contour - Share(st.history.rows[id], c))
  {
    if id !in st.history.rows then Failure(NotFound(AlimentationEntity, id))
    else
      var prev := st.history.rows[id];
      Success(st.(history := st.history.Remove({id}), bandes := Adjust(st.bandes, prev.bandeId, -prev.quantite)))
  }

  /** A flock's running total. */
  function GetContour(st: Store, bandeId: int): (r: Result<real, AppError>)
    ensures r.Failure? <==> bandeId !in st.bandes.rows
    ensures r.Failure? ==> r.error == NotFound(BandeEntity, bandeId)
    ensures r.Success? && Balanced(st) ==> r.value == Total(st.history, bandeId)
  {
    if bandeId in st.bandes.rows then Success(st.bandes.rows[bandeId].contour) else Failure(NotFound(BandeEntity, bandeId))
  }

  /** Removes every movement of flock `bandeId`, resets its total to 0 and answers how many
      movements went. An absent flock is not an error. */
  function DeleteByBande(st: Store, bandeId: int): (r: (Store, nat))
    ensures r.0 == st.(history := r.0.history, bandes := r.0.bandes)
    ensures r.0.history.next == st.history.next
    ensures forall i :: i in r.0.history.rows <==> i in st.history.rows && st.history.rows[i].bandeId != bandeId
    ensures forall i :: i in r.0.history.rows ==> r.0.history.rows[i] == st.history.rows[i]
    ensures r.1 == |st.history.rows.Keys - r.0.history.rows.Keys|
    ensures r.0.bandes.rows.Keys == st.bandes.rows.Keys && r.0.bandes.next == st.bandes.next
    ensures forall c :: c in st.bandes.rows ==>
      r.0.bandes.rows[c] == if c == bandeId then st.bandes.rows[c].(contour := 0.0) else st.bandes.rows[c]
  {
    var gone := set i | i in st.history.rows && st.history.rows[i].bandeId == bandeId;
    var history := st.history.Remove(gone);
    assert st.history.rows.Keys - history.rows.Keys == gone;
    var bandes := if bandeId in st.bandes.rows then st.bandes.Put(bandeId, st.bandes.rows[bandeId].(contour := 0.0)) else st.bandes;
    (st.(history := history, bandes := bandes), |gone|)
  }

  /** Creating a movement keeps every flock's total equal to the sum of its movements. */
  lemma CreateBalanced(st: Store, bandeId: int, quantite: real)
    requires Balanced(st)
    requires Create(st, bandeId, quantite).Success?
    ensures Balanced(Create(st, bandeId, quantite).value.store)
  {
    var w := Create(st, bandeId, quantite).value;
    forall c | c in w.store.bandes.rows
      ensures w.store.bandes.rows[c].contour == Total(w.store.history, c)
    {
      TotalInsert(st.history, c, w.row);
    }
  }

  /** Rewriting a movement, within its flock or across flocks, keeps the ledger. */
  lemma UpdateBalanced(st: Store, id: int, bandeId: int, quantite: real)
    requires Balanced(st)
    requires Update(st, id, bandeId, quantite).Success?
    ensures Balanced(Update(st, id, bandeId, quantite).value)
  {
    var st' := Update(st, id, bandeId, quantite).value;
    forall c | c in st'.bandes.rows
      ensures st'.bandes.rows[c].contour == Total(st'.history, c)
    {
      TotalPut(st.history, c, id, FeedRecord(bandeId, quantite));
    }
  }

  /** Deleting a movement keeps the ledger. */
  lemma DeleteBalanced(st: Store, id: int)
    requires Balanced(st)
    requires Delete(st, id).Success?
    ensures Balanced(Delete(st, id).value)
  {
    var st' := Delete(st, id).value;
    forall c | c in st'.bandes.rows
      ensures st'.bandes.rows[c].contour == Total(st'.history, c)
    {
      TotalRemove(st.history, c, id);
    }
  }

  /** Clearing a flock's history with its total keeps the ledger. */
  lemma DeleteByBandeBalanced(st: Store, bandeId: int)
    requires Balanced(st)
    ensures Balanced(DeleteByBande(st, bandeId).0)
  {
    var st' := DeleteByBande(st, bandeId).0;
    assert st'.history.rows == Drop(st.history.rows, bandeId);
    forall c | c in st'.bandes.rows
      ensures st'.bandes.rows[c].contour == Total(st'.history, c)
    {
      SumDrop(st.history.rows, bandeId, c, 1, st.history.next);
    }
  }
}
