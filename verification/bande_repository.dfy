/** The `bandes` repository: a flock belongs to a farm and to a member of staff, both checked
    before every write. Deleting a flock relies on the foreign keys' cascades. */
module BandeRepository {
  import opened Wrappers
  import opened MachineInts
  import opened Errors
  import opened Tables
  import opened Records
  import opened Ledger

  /** The columns a caller supplies (`CreateBande`, and `UpdateBande` without its id). */
  datatype Draft = Draft(
    dateEntree: string,
    quantite: i32,
    fermeId: int,
    numeroBatiment: string,
    typePoussin: string,
    personnelId: int,
    notes: Option<string>)

  /** What a read hands back: the flock and the names its joins bring in. */
  datatype Detail = Detail(bande: Bande, fermeNom: string, personnelNom: string)

  /** The row a write of `d` stores: absent notes become the empty text, and the feed total is
      whatever the row already had. */
  function Row(d: Draft, contour: real): (b: Bande)
    ensures b.notes == d.notes.GetOr("") && b.contour == contour
    ensures b.fermeId == d.fermeId && b.personnelId == d.personnelId && b.quantite == d.quantite
    ensures b.dateEntree == d.dateEntree && b.numeroBatiment == d.numeroBatiment && b.typePoussin == d.typePoussin
  {
    Bande(d.dateEntree, d.quantite, d.fermeId, d.numeroBatiment, d.typePoussin, d.personnelId, d.notes.GetOr(""), contour)
  }

  /** The checks both writes run, in order: the farm, then the member of staff. */
  function Parents(st: Store, d: Draft): (r: Option<AppError>)
    ensures r.None? <==> d.fermeId in st.fermes.rows && d.personnelId in st.personnel.rows
    ensures d.fermeId !in st.fermes.rows ==> r == Some(ValidationError("ferme_id", Missing))
    ensures d.fermeId in st.fermes.rows && d.personnelId !in st.personnel.rows ==>
      r == Some(ValidationError("personnel_id", Missing))
  {
    if d.fermeId !in st.fermes.rows then Some(ValidationError("ferme_id", Missing))
    else if d.personnelId !in st.personnel.rows then Some(ValidationError("personnel_id", Missing))
    else None
  }

  /** Inserts a flock; its feed total starts at the column default, 0. */
  function Create(st: Store, d: Draft): (r: Result<Write<Bande>, AppError>)
    ensures r.Failure? <==> Parents(st, d).Some?
    ensures r.Failure? ==> r.error == Parents(st, d).value
    ensures r.Success? ==>
      && r.value.row == Row(d, 0.0)
      && r.value.store == st.(bandes := r.value.store.bandes)
      && r.value.store.bandes.rows == st.bandes.rows[r.value.id := r.value.row]
      && r.value.id == st.bandes.next && r.value.store.bandes.next == st.bandes.next + 1
      && (st.bandes.Valid() ==> r.value.store.bandes.Valid() && r.value.id !in st.bandes.rows)
  {
    match Parents(st, d)
    case Some(e) => Failure(e)
    case None =>
      var (t, id) := st.bandes.Insert(Row(d, 0.0));
      Success(Write(st.(bandes := t), id, Row(d, 0.0)))
  }

  /** Reads a flock with its farm's and staff member's names. The query joins both tables, so a
      flock whose farm or staff member is gone is reported missing like an absent one. */
  function GetById(st: Store, id: int): (r: Result<Detail, AppError>)
    ensures r.Success? <==>
      id in st.bandes.rows && st.bandes.rows[id].fermeId in st.fermes.rows
      && st.bandes.rows[id].personnelId in st.personnel.rows
    ensures r.Failure? ==> r.error == NotFound(BandeEntity, id)
    ensures r.Success? ==>
      && r.value.bande == st.bandes.rows[id]
      && r.value.fermeNom == st.fermes.rows[r.value.bande.fermeId].nom
      && r.value.personnelNom == st.personnel.rows[r.value.bande.personnelId].nom
  {
    if id !in st.bandes.rows then Failure(NotFound(BandeEntity, id))
    else
      var b := st.bandes.rows[id];
      if b.fermeId !in st.fermes.rows || b.personnelId !in st.personnel.rows then Failure(NotFound(BandeEntity, id))
      else Success(Detail(b, st.fermes.rows[b.fermeId].nom, st.personnel.rows[b.personnelId].nom))
  }

  /** Rewrites flock `id` after the same checks as `Create`. The feed total is not in the
      statement's SET list and keeps its value. */
  function Update(st: Store, id: int, d: Draft): (r: Result<Write<Bande>, AppError>)
    ensures Parents(st, d).Some? ==> r == Failure(Parents(st, d).value)
    ensures Parents(st, d).None? && id !in st.bandes.rows ==> r == Failure(NotFound(BandeEntity, id))
    ensures r.Success? <==> Parents(st, d).None? && id in st.bandes.rows
    ensures r.Success? ==>
      && r.value.id == id
      && r.value.row == Row(d, st.bandes.rows[id].contour)
      && r.value.store == st.(bandes := st.bandes.Put(id, r.value.row))
  {
    match Parents(st, d)
    case Some(e) => Failure(e)
    case None =>
      if id !in st.bandes.rows then Failure(NotFound(BandeEntity, id))
      else
        var row := Row(d, st.bandes.rows[id].contour);
        Success(Write(st.(bandes := st.bandes.Put(id, row)), id, row))
  }

  /** The buildings of flock `b`. */
  function BuildingsOf(st: Store, b: int): (r: set<int>)
    ensures forall i :: i in r <==> i in st.batiments.rows && st.batiments.rows[i].bandeId == b
  {
    set i | i in st.batiments.rows && st.batiments.rows[i].bandeId == b
  }

  /** The weeks whose building is in `buildings`. */
  function WeeksOf(st: Store, buildings: set<int>): (r: set<int>)
    ensures forall w :: w in r <==> w in st.semaines.rows && st.semaines.rows[w].owner in buildings
  {
    set w | w in st.semaines.rows && st.semaines.rows[w].owner in buildings
  }

  /** The days whose week is in `weeks`. */
  function DaysOf(st: Store, weeks: set<int>): (r: set<int>)
    ensures forall d :: d in r <==> d in st.suivis.rows && st.suivis.rows[d].semaineId in weeks
  {
    set d | d in st.suivis.rows && st.suivis.rows[d].semaineId in weeks
  }

  /** The store without the buildings in `buildings` and everything that hangs off them: their
      weeks, those weeks' days and the buildings' disease links. */
  function Cut(st: Store, buildings: set<int>): (r: Store)
    ensures forall i :: i in r.batiments.rows <==> i in st.batiments.rows && i !in buildings
    ensures forall w :: w in r.semaines.rows <==> w in st.semaines.rows && st.semaines.rows[w].owner !in buildings
    ensures forall d :: d in r.suivis.rows <==>
      d in st.suivis.rows && st.suivis.rows[d].semaineId !in WeeksOf(st, buildings)
    ensures forall l :: l in r.links <==> l in st.links && l.batimentId !in buildings
    ensures forall i :: i in r.batiments.rows ==> r.batiments.rows[i] == st.batiments.rows[i]
    ensures forall w :: w in r.semaines.rows ==> r.semaines.rows[w] == st.semaines.rows[w]
    ensures forall d :: d in r.suivis.rows ==> r.suivis.rows[d] == st.suivis.rows[d]
    ensures r == st.(batiments := r.batiments, semaines := r.semaines, suivis := r.suivis, links := r.links)
    ensures TablesValid(st) ==> TablesValid(r)
  {
    var weeks := WeeksOf(st, buildings);
    st.(
      batiments := st.batiments.Remove(buildings),
      semaines := st.semaines.Remove(weeks),
      suivis := st.suivis.Remove(DaysOf(st, weeks)),
      links := set l | l in st.links && l.batimentId !in buildings)
  }

  /** Deletes flock `id`. The cascade reaches its buildings, their weeks and days and their
      disease links; the feed movements are not cascaded and stay behind. */
  function Delete(st: Store, id: int): (r: Result<Store, AppError>)
    ensures r.Failure? <==> id !in st.bandes.rows
    ensures r.Failure? ==> r.error == NotFound(BandeEntity, id)
    ensures r.Success? ==>
      && (forall b :: b in r.value.bandes.rows <==> b in st.bandes.rows && b != id)
      && (forall b :: b in r.value.bandes.rows ==> r.value.bandes.rows[b] == st.bandes.rows[b])
      && (forall i :: i in r.value.batiments.rows <==> i in st.batiments.rows && st.batiments.rows[i].bandeId != id)
      && r.value.history == st.history
      && r.value.fermes == st.fermes && r.value.personnel == st.personnel
  {
    if id !in st.bandes.rows then Failure(NotFound(BandeEntity, id))
    else Success(Cut(st, BuildingsOf(st, id)).(bandes := st.bandes.Remove({id})))
  }

  /** A new flock's total, 0, is the sum of its movements: the history only names flocks
      created earlier. */
  lemma CreateBalanced(st: Store, d: Draft)
    requires Balanced(st)
    requires Create(st, d).Success?
    ensures Balanced(Create(st, d).value.store)
  {
    var w := Create(st, d).value;
    SumAbsent(st.history.rows, w.id, 1, st.history.next);
  }

  lemma UpdateBalanced(st: Store, id: int, d: Draft)
    requires Balanced(st)
    requires Update(st, id, d).Success?
    ensures Balanced(Update(st, id, d).value.store)
  {
  }

  lemma DeleteBalanced(st: Store, id: int)
    requires Balanced(st)
    requires Delete(st, id).Success?
    ensures Balanced(Delete(st, id).value)
  {
  }

  /** The cascade leaves no week without its building and no day without its week. */
  lemma DeleteKeepsConsistent(st: Store, id: int)
    requires Consistent(st)
    requires Delete(st, id).Success?
    ensures Consistent(Delete(st, id).value)
  {
  }
}
