/** The `fermes` repository: farm names are non-blank and unique, furniture counts are not
    negative, and a farm that still has flocks cannot be deleted. Also the deaths total of a
    flock, summed over the days of its buildings' weeks. */
module FermeRepository {
  import opened Wrappers
  import opened MachineInts
  import opened Errors
  import opened Tables
  import opened Records
  import opened Text

  /** The field checks of both writes, in order: the name, then the furniture count. */
  function CheckFields(nom: string, nbrMeuble: int): (r: Option<AppError>)
    ensures r.None? <==> !IsBlank(nom) && nbrMeuble >= 0
    ensures IsBlank(nom) ==> r == Some(ValidationError("nom", Blank))
    ensures !IsBlank(nom) && nbrMeuble < 0 ==> r == Some(ValidationError("nbr_meuble", Negative))
  {
    if IsBlank(nom) then Some(ValidationError("nom", Blank))
    else if nbrMeuble < 0 then Some(ValidationError("nbr_meuble", Negative))
    else None
  }

  /** Whether a farm other than `self` is called exactly `nom`. */
  predicate NameTaken(t: Table<Ferme>, nom: string, self: Option<int>) {
    exists id :: id in t.rows && Some(id) != self && t.rows[id].nom == nom
  }

  /** No two farms share a name (`nom TEXT NOT NULL UNIQUE`). */
  ghost predicate NamesUnique(t: Table<Ferme>) {
    forall a, b :: a in t.rows && b in t.rows && a != b ==> t.rows[a].nom != t.rows[b].nom
  }

  function Create(st: Store, nom: string, nbrMeuble: int): (r: Result<Write<Ferme>, AppError>)
    ensures CheckFields(nom, nbrMeuble).Some? ==> r == Failure(CheckFields(nom, nbrMeuble).value)
    ensures CheckFields(nom, nbrMeuble).None? && NameTaken(st.fermes, nom, None) ==>
      r == Failure(ValidationError("nom", Duplicate))
    ensures r.Success? <==> CheckFields(nom, nbrMeuble).None? && !NameTaken(st.fermes, nom, None)
    ensures r.Success? ==>
      && r.value.row == Ferme(nom, nbrMeuble)
      && r.value.id == st.fermes.next
      && r.value.store == st.(fermes := Table(st.fermes.rows[r.value.id := r.value.row], st.fermes.next + 1))
  {
    match CheckFields(nom, nbrMeuble)
    case Some(e) => Failure(e)
    case None =>
      if NameTaken(st.fermes, nom, None) then Failure(ValidationError("nom", Duplicate))
      else
        var (t, id) := st.fermes.Insert(Ferme(nom, nbrMeuble));
        Success(Write(st.(fermes := t), id, Ferme(nom, nbrMeuble)))
  }

  function GetById(st: Store, id: int): (r: Result<Ferme, AppError>)
    ensures r.Success? <==> id in st.fermes.rows
    ensures r.Success? ==> r.value == st.fermes.rows[id]
    ensures r.Failure? ==> r.error == NotFound(FermeEntity, id)
  {
    if id in st.fermes.rows then Success(st.fermes.rows[id]) else Failure(NotFound(FermeEntity, id))
  }

  /** Renames farm `id`. Keeping its own name is allowed; a name held by another farm is not. */
  function Update(st: Store, id: int, nom: string, nbrMeuble: int): (r: Result<Write<Ferme>, AppError>)
    ensures CheckFields(nom, nbrMeuble).Some? ==> r == Failure(CheckFields(nom, nbrMeuble).value)
    ensures CheckFields(nom, nbrMeuble).None? && NameTaken(st.fermes, nom, Some(id)) ==>
      r == Failure(ValidationError("nom", Duplicate))
    ensures CheckFields(nom, nbrMeuble).None? && !NameTaken(st.fermes, nom, Some(id)) && id !in st.fermes.rows ==>
      r == Failure(NotFound(FermeEntity, id))
    ensures r.Success? <==>
      CheckFields(nom, nbrMeuble).None? && !NameTaken(st.fermes, nom, Some(id)) && id in st.fermes.rows
    ensures r.Success? ==>
      && r.value.id == id && r.value.row == Ferme(nom, nbrMeuble)
      && r.value.store == st.(fermes := Table(st.fermes.rows[id := r.value.row], st.fermes.next))
  {
    match CheckFields(nom, nbrMeuble)
    case Some(e) => Failure(e)
    case None =>
      if NameTaken(st.fermes, nom, Some(id)) then Failure(ValidationError("nom", Duplicate))
      else if id !in st.fermes.rows then Failure(NotFound(FermeEntity, id))
      else Success(Write(st.(fermes := st.fermes.Put(id, Ferme(nom, nbrMeuble))), id, Ferme(nom, nbrMeuble)))
  }

  /** Whether some flock belongs to farm `id`. */
  predicate HasBandes(st: Store, id: int) {
    exists b :: b in st.bandes.rows && st.bandes.rows[b].fermeId == id
  }

  /** Deletes farm `id`; the flock check comes first, so an absent farm with no flocks is the
      only NotFound. */
  function Delete(st: Store, id: int): (r: Result<Store, AppError>)
    ensures HasBandes(st, id) ==> r == Failure(ConstraintViolation(BandeEntity))
    ensures !HasBandes(st, id) && id !in st.fermes.rows ==> r == Failure(NotFound(FermeEntity, id))
    ensures r.Success? <==> !HasBandes(st, id) && id in st.fermes.rows
    ensures r.Success? ==> r.value == st.(fermes := st.fermes.Remove({id}))
  {
    if HasBandes(st, id) then Failure(ConstraintViolation(BandeEntity))
    else if id !in st.fermes.rows then Failure(NotFound(FermeEntity, id))
    else Success(st.(fermes := st.fermes.Remove({id})))
  }

  /** The writes keep farm names unique: the explicit check comes before the UNIQUE key. */
  lemma CreateKeepsNamesUnique(st: Store, nom: string, nbrMeuble: int)
    requires st.fermes.Valid() && NamesUnique(st.fermes)
    requires Create(st, nom, nbrMeuble).Success?
    ensures NamesUnique(Create(st, nom, nbrMeuble).value.store.fermes)
  {
    var w := Create(st, nom, nbrMeuble).value;
    var t := w.store.fermes;
    forall a, b | a in t.rows && b in t.rows && a != b
      ensures t.rows[a].nom != t.rows[b].nom
    {
      if a == w.id || b == w.id {
        assert !NameTaken(st.fermes, nom, None);
      }
    }
  }

  lemma UpdateKeepsNamesUnique(st: Store, id: int, nom: string, nbrMeuble: int)
    requires NamesUnique(st.fermes)
    requires Update(st, id, nom, nbrMeuble).Success?
    ensures NamesUnique(Update(st, id, nom, nbrMeuble).value.store.fermes)
  {
    var t := Update(st, id, nom, nbrMeuble).value.store.fermes;
    forall a, b | a in t.rows && b in t.rows && a != b
      ensures t.rows[a].nom != t.rows[b].nom
    {
      if a == id || b == id {
        assert !NameTaken(st.fermes, nom, Some(id));
      }
    }
  }

  /** Every flock's farm exists (`ON DELETE RESTRICT`). */
  ghost predicate BandesAnchored(st: Store) {
    forall b :: b in st.bandes.rows ==> st.bandes.rows[b].fermeId in st.fermes.rows
  }

  /** The flock check keeps every flock's farm in place. */
  lemma DeleteKeepsBandesAnchored(st: Store, id: int)
    requires BandesAnchored(st)
    requires Delete(st, id).Success?
    ensures BandesAnchored(Delete(st, id).value)
  {
    var st' := Delete(st, id).value;
    forall b | b in st'.bandes.rows
      ensures st'.bandes.rows[b].fermeId in st'.fermes.rows
    {
      assert !HasBandes(st, id);
      assert st.bandes.rows[b].fermeId != id;
    }
  }

  /** The deaths day `i` adds to flock `b`'s total: its deaths when the day's week belongs to
      one of the flock's buildings (the joins of the query), nothing for NULL or for any other
      day. */
  function DeathsAt(st: Store, i: int, b: int): int {
    if i !in st.suivis.rows then 0
    else
      var d := st.suivis.rows[i];
      if d.semaineId !in st.semaines.rows then 0
      else
        var owner := st.semaines.rows[d.semaineId].owner;
        if owner in st.batiments.rows && st.batiments.rows[owner].bandeId == b && d.decesParJour.Some?
        then d.decesParJour.value as int
        else 0
  }

  /** `SUM(deces_par_jour)` over the day ids `lo` to `hi - 1`. */
  function DeathsSum(st: Store, b: int, lo: int, hi: int): int
    decreases hi - lo
  {
    if lo >= hi then 0 else DeathsAt(st, lo, b) + DeathsSum(st, b, lo + 1, hi)
  }

  /** `COALESCE(SUM(sq.deces_par_jour), 0)` then `as i32`: SQLite refuses a sum beyond the
      64-bit range, and the cast keeps the low 32 bits. */
  function DeathsForBande(st: Store, b: int): (r: Result<i32, AppError>)
    ensures r.Failure? <==> !(I64_MIN <= DeathsSum(st, b, 1, st.suivis.next) <= I64_MAX)
    ensures r.Failure? ==> r.error == Database(IntegerOverflow)
    ensures r.Success? ==> (r.value - DeathsSum(st, b, 1, st.suivis.next)) % 0x1_0000_0000 == 0
    ensures I32_MIN <= DeathsSum(st, b, 1, st.suivis.next) <= I32_MAX ==> r == Success(DeathsSum(st, b, 1, st.suivis.next))
  {
    var total := DeathsSum(st, b, 1, st.suivis.next);
    if I64_MIN <= total <= I64_MAX then Success(WrapI32(total)) else Failure(Database(IntegerOverflow))
  }

  lemma {:induction false} DeathsSumAgree(st: Store, st': Store, b: int, lo: int, hi: int)
    requires forall i :: lo <= i < hi ==> DeathsAt(st, i, b) == DeathsAt(st', i, b)
    ensures DeathsSum(st, b, lo, hi) == DeathsSum(st', b, lo, hi)
    decreases hi - lo
  {
    if lo < hi {
      DeathsSumAgree(st, st', b, lo + 1, hi);
    }
  }

  lemma {:induction false} DeathsSumExtend(st: Store, b: int, lo: int, hi: int)
    requires lo <= hi
    ensures DeathsSum(st, b, lo, hi + 1) == DeathsSum(st, b, lo, hi) + DeathsAt(st, hi, b)
    decreases hi - lo
  {
    if lo < hi {
      DeathsSumExtend(st, b, lo + 1, hi);
    }
  }

  /** A flock without buildings has no deaths. */
  lemma {:induction false} DeathsSumNoBuildings(st: Store, b: int, lo: int, hi: int)
    requires forall i :: i in st.batiments.rows ==> st.batiments.rows[i].bandeId != b
    ensures DeathsSum(st, b, lo, hi) == 0
    decreases hi - lo
  {
    if lo < hi {
      DeathsSumNoBuildings(st, b, lo + 1, hi);
    }
  }

  /** Recording a day adds its deaths to the total of the flock its week belongs to, and
      changes no other flock's total. */
  lemma DeathsAfterInsert(st: Store, row: Suivi, b: int)
    requires st.suivis.Valid()
    ensures var st' := st.(suivis := st.suivis.Insert(row).0);
      DeathsSum(st', b, 1, st'.suivis.next) == DeathsSum(st, b, 1, st.suivis.next) + DeathsAt(st', st.suivis.next, b)
  {
    var st' := st.(suivis := st.suivis.Insert(row).0);
    DeathsSumAgree(st, st', b, 1, st.suivis.next);
    DeathsSumExtend(st', b, 1, st.suivis.next);
  }
}
