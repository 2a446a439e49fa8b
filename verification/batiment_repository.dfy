/** The `batiments` repository: a building belongs to a flock, holds one chick type and is run
    by one member of staff. Deleting a building removes everything that hangs off it, in
    dependency order, inside one transaction. */
module BatimentRepository {
  import opened Wrappers
  import opened MachineInts
  import opened NumParse
  import opened Errors
  import opened Tables
  import opened Records

  /** The columns a caller supplies (`CreateBatiment`, and `UpdateBatiment` without its id). */
  datatype Draft = Draft(bandeId: int, numero: string, poussinId: int, personnelId: int, quantite: i32)

  function Row(d: Draft): (b: Batiment)
    ensures b.bandeId == d.bandeId && b.numero == d.numero && b.poussinId == d.poussinId
    ensures b.personnelId == d.personnelId && b.quantite == d.quantite
  {
    Batiment(d.bandeId, d.numero, d.poussinId, d.personnelId, d.quantite)
  }

  /** The text the number check compares the stored numbers with: the input is parsed as an
      `i64`, non-numbers count as 0, and the integer meets the TEXT column as its decimal text. */
  function Probe(numero: string): (p: string)
    ensures ParseI64(numero).Some? ==> p == ShowInt(ParseI64(numero).value)
    ensures ParseI64(numero).None? ==> p == "0"
  {
    ShowInt(ParseI64(numero).GetOr(0))
  }

  /** Whether a building of flock `bandeId` already holds the number, as the check sees it. */
  predicate NumberTaken(st: Store, bandeId: int, numero: string) {
    exists i :: i in st.batiments.rows && st.batiments.rows[i].bandeId == bandeId
      && st.batiments.rows[i].numero == Probe(numero)
  }

  /** The checks of `create`, in order: flock, staff member, chick type, then the number. */
  function CreateCheck(st: Store, d: Draft): (r: Option<AppError>)
    ensures r.None? <==>
      d.bandeId in st.bandes.rows && d.personnelId in st.personnel.rows && d.poussinId in st.poussins.rows
      && !NumberTaken(st, d.bandeId, d.numero)
    ensures d.bandeId !in st.bandes.rows ==> r == Some(ValidationError("bande_id", Missing))
    ensures d.bandeId in st.bandes.rows && d.personnelId !in st.personnel.rows ==>
      r == Some(ValidationError("personnel_id", Missing))
    ensures d.bandeId in st.bandes.rows && d.personnelId in st.personnel.rows && d.poussinId !in st.poussins.rows ==>
      r == Some(ValidationError("poussin_id", Missing))
    ensures
      (d.bandeId in st.bandes.rows && d.personnelId in st.personnel.rows && d.poussinId in st.poussins.rows
       && NumberTaken(st, d.bandeId, d.numero)) ==> r == Some(ValidationError("numero_batiment", Duplicate))
  {
    if d.bandeId !in st.bandes.rows then Some(ValidationError("bande_id", Missing))
    else if d.personnelId !in st.personnel.rows then Some(ValidationError("personnel_id", Missing))
    else if d.poussinId !in st.poussins.rows then Some(ValidationError("poussin_id", Missing))
    else if NumberTaken(st, d.bandeId, d.numero) then Some(ValidationError("numero_batiment", Duplicate))
    else None
  }

  /** Inserts a building; the number is stored as given. */
  function Create(st: Store, d: Draft): (r: Result<Write<Batiment>, AppError>)
    ensures r.Failure? <==> CreateCheck(st, d).Some?
    ensures r.Failure? ==> r.error == CreateCheck(st, d).value
    ensures r.Success? ==>
      && r.value.row == Row(d)
      && r.value.store == st.(batiments := r.value.store.batiments)
      && r.value.store.batiments.rows == st.batiments.rows[r.value.id := r.value.row]
      && r.value.id == st.batiments.next && r.value.store.batiments.next == st.batiments.next + 1
      && (st.batiments.Valid() ==> r.value.store.batiments.Valid() && r.value.id !in st.batiments.rows)
  {
    match CreateCheck(st, d)
    case Some(e) => Failure(e)
    case None =>
      var (t, id) := st.batiments.Insert(Row(d));
      Success(Write(st.(batiments := t), id, Row(d)))
  }

  /** For a number written the canonical way, the check is exact: it refuses the number
      precisely when a building of the flock holds that very text. */
  lemma CanonicalNumberTaken(st: Store, bandeId: int, n: int)
    requires I64_MIN <= n <= I64_MAX
    ensures NumberTaken(st, bandeId, ShowInt(n)) <==>
      exists i :: i in st.batiments.rows && st.batiments.rows[i].bandeId == bandeId
        && st.batiments.rows[i].numero == ShowInt(n)
  {
    ParseShowRoundTrip(n, I64_MIN, I64_MAX);
  }

  /** A number that is not an integer is checked as "0": it only ever collides with a stored
      "0", never with itself. */
  lemma NonNumericNumberTaken(st: Store, bandeId: int, numero: string)
    requires ParseI64(numero).None?
    ensures NumberTaken(st, bandeId, numero) <==>
      exists i :: i in st.batiments.rows && st.batiments.rows[i].bandeId == bandeId
        && st.batiments.rows[i].numero == "0"
  {
  }

  /** The checks of `update`, in its own order: flock, chick type, then staff member. There is no
      number check. */
  function UpdateCheck(st: Store, d: Draft): (r: Option<AppError>)
    ensures r.None? <==>
      d.bandeId in st.bandes.rows && d.poussinId in st.poussins.rows && d.personnelId in st.personnel.rows
    ensures d.bandeId !in st.bandes.rows ==> r == Some(ValidationError("bande_id", Missing))
    ensures d.bandeId in st.bandes.rows && d.poussinId !in st.poussins.rows ==>
      r == Some(ValidationError("poussin_id", Missing))
    ensures d.bandeId in st.bandes.rows && d.poussinId in st.poussins.rows && d.personnelId !in st.personnel.rows ==>
      r == Some(ValidationError("personnel_id", Missing))
  {
    if d.bandeId !in st.bandes.rows then Some(ValidationError("bande_id", Missing))
    else if d.poussinId !in st.poussins.rows then Some(ValidationError("poussin_id", Missing))
    else if d.personnelId !in st.personnel.rows then Some(ValidationError("personnel_id", Missing))
    else None
  }

  /** Rewrites building `id`; an absent id changes no row and is NotFound. */
  function Update(st: Store, id: int, d: Draft): (r: Result<Store, AppError>)
    ensures UpdateCheck(st, d).Some? ==> r == Failure(UpdateCheck(st, d).value)
    ensures UpdateCheck(st, d).None? && id !in st.batiments.rows ==> r == Failure(NotFound(BatimentEntity, id))
    ensures r.Success? <==> UpdateCheck(st, d).None? && id in st.batiments.rows
    ensures r.Success? ==> r.value == st.(batiments := st.batiments.Put(id, Row(d)))
  {
    match UpdateCheck(st, d)
    case Some(e) => Failure(e)
    case None =>
      if id !in st.batiments.rows then Failure(NotFound(BatimentEntity, id))
      else Success(st.(batiments := st.batiments.Put(id, Row(d))))
  }

  /** Deletes building `id` with, in this order, the days of its weeks, its weeks and its
      disease links. When the building itself matches no row the transaction is not committed,
      so nothing at all is removed. */
  function Delete(st: Store, id: int): (r: Result<Store, AppError>)
    ensures r.Failure? <==> id !in st.batiments.rows
    ensures r.Failure? ==> r.error == NotFound(BatimentEntity, id)
    ensures r.Success? ==>
      && (forall i :: i in r.value.batiments.rows <==> i in st.batiments.rows && i != id)
      && (forall w :: w in r.value.semaines.rows <==> w in st.semaines.rows && st.semaines.rows[w].owner != id)
      && (forall d :: d in r.value.suivis.rows <==>
            (d in st.suivis.rows && !(st.suivis.rows[d].semaineId in st.semaines.rows
                                     && st.semaines.rows[st.suivis.rows[d].semaineId].owner == id)))
      && (forall l :: l in r.value.links <==> l in st.links && l.batimentId != id)
      && (forall i :: i in r.value.batiments.rows ==> r.value.batiments.rows[i] == st.batiments.rows[i])
      && (forall w :: w in r.value.semaines.rows ==> r.value.semaines.rows[w] == st.semaines.rows[w])
      && (forall d :: d in r.value.suivis.rows ==> r.value.suivis.rows[d] == st.suivis.rows[d])
      && r.value == st.(batiments := r.value.batiments, semaines := r.value.semaines,
                        suivis := r.value.suivis, links := r.value.links)
  {
    if id !in st.batiments.rows then Failure(NotFound(BatimentEntity, id))
    else
      var weeks := set w | w in st.semaines.rows && st.semaines.rows[w].owner == id;
      var days := set d | d in st.suivis.rows && st.suivis.rows[d].semaineId in weeks;
      var links := set l | l in st.links && l.batimentId != id;
      Success(st.(
        suivis := st.suivis.Remove(days),
        semaines := st.semaines.Remove(weeks),
        links := links,
        batiments := st.batiments.Remove({id})))
  }

  /** The cascade leaves no week without its building and no day without its week. */
  lemma DeleteKeepsConsistent(st: Store, id: int)
    requires Consistent(st)
    requires Delete(st, id).Success?
    ensures Consistent(Delete(st, id).value)
  {
  }

  /** The numbers a farm's buildings may take, "1" to "20": numbers are reused across flocks,
      so every one is offered. An unknown farm is a validation error. */
  function AvailableNumbers(st: Store, fermeId: int): (r: Result<seq<string>, AppError>)
    ensures r.Failure? <==> fermeId !in st.fermes.rows
    ensures r.Failure? ==> r.error == ValidationError("ferme_id", Missing)
    ensures r.Success? ==> |r.value| == 20 && forall k :: 0 <= k < 20 ==> r.value[k] == ShowInt(k + 1)
  {
    if fermeId !in st.fermes.rows then Failure(ValidationError("ferme_id", Missing))
    else Success(seq(20, k requires 0 <= k < 20 => ShowInt(k + 1)))
  }

  /** Each offered number reads back as its position: the list is "1".."20" in order, and the
      number check treats each of them exactly. */
  lemma AvailableNumbersParse(st: Store, fermeId: int, k: int)
    requires AvailableNumbers(st, fermeId).Success?
    requires 0 <= k < 20
    ensures ParseI64(AvailableNumbers(st, fermeId).value[k]) == Some(k + 1)
    ensures Probe(AvailableNumbers(st, fermeId).value[k]) == AvailableNumbers(st, fermeId).value[k]
  {
    ParseShowRoundTrip(k + 1, I64_MIN, I64_MAX);
  }

  /** Links disease `maladieId` to building `batimentId` (`INSERT OR IGNORE`): an existing link
      stays as it is. */
  function AddMaladie(st: Store, batimentId: int, maladieId: int): (r: Result<Store, AppError>)
    ensures batimentId !in st.batiments.rows ==> r == Failure(NotFound(BatimentEntity, batimentId))
    ensures batimentId in st.batiments.rows && maladieId !in st.maladies.rows ==>
      r == Failure(NotFound(MaladieEntity, maladieId))
    ensures r.Success? <==> batimentId in st.batiments.rows && maladieId in st.maladies.rows
    ensures r.Success? ==> r.value == st.(links := st.links + {Link(batimentId, maladieId)})
  {
    if batimentId !in st.batiments.rows then Failure(NotFound(BatimentEntity, batimentId))
    else if maladieId !in st.maladies.rows then Failure(NotFound(MaladieEntity, maladieId))
    else Success(st.(links := st.links + {Link(batimentId, maladieId)}))
  }

  /** Linking twice is linking once. */
  lemma AddMaladieIdempotent(st: Store, batimentId: int, maladieId: int)
    requires AddMaladie(st, batimentId, maladieId).Success?
    ensures AddMaladie(AddMaladie(st, batimentId, maladieId).value, batimentId, maladieId) == AddMaladie(st, batimentId, maladieId)
  {
  }

  /** Links disease `maladieId` to every building of flock `bandeId` and answers how many links
      were new. The flock is not checked: an unknown one has no building and adds nothing. */
  function AddMaladieToBande(st: Store, bandeId: int, maladieId: int): (r: Result<(Store, nat), AppError>)
    ensures r.Failure? <==> maladieId !in st.maladies.rows
    ensures r.Failure? ==> r.error == NotFound(MaladieEntity, maladieId)
    ensures r.Success? ==>
      && r.value.0 == st.(links := r.value.0.links)
      && st.links <= r.value.0.links
      && (forall l :: l in r.value.0.links - st.links ==>
            l.maladieId == maladieId && l.batimentId in st.batiments.rows && st.batiments.rows[l.batimentId].bandeId == bandeId)
      && (forall i :: i in st.batiments.rows && st.batiments.rows[i].bandeId == bandeId ==> Link(i, maladieId) in r.value.0.links)
      && r.value.1 == |r.value.0.links - st.links|
  {
    if maladieId !in st.maladies.rows then Failure(NotFound(MaladieEntity, maladieId))
    else
      var added := set i | i in st.batiments.rows && st.batiments.rows[i].bandeId == bandeId :: Link(i, maladieId);
      var links := st.links + added;
      Success((st.(links := links), |links - st.links|))
  }

  /** Repeating the flock-wide link adds nothing and reports 0. */
  lemma AddMaladieToBandeIdempotent(st: Store, bandeId: int, maladieId: int)
    requires AddMaladieToBande(st, bandeId, maladieId).Success?
    ensures var (st', _) := AddMaladieToBande(st, bandeId, maladieId).value;
      AddMaladieToBande(st', bandeId, maladieId) == Success((st', 0))
  {
    var (st', _) := AddMaladieToBande(st, bandeId, maladieId).value;
    var (st'', n) := AddMaladieToBande(st', bandeId, maladieId).value;
    assert st''.links == st'.links;
    assert st''.links - st'.links == {};
  }
}
