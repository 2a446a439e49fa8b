/** The `suivi_quotidien` repository. Create and update write the week, age, deaths per day,
    feed per day, treatment, treatment quantity, analyses and remarks; the two running-total
    columns are never written (a new row has them NULL, an update leaves them as stored). */
module SuiviRepository {
  import opened Wrappers
  import opened Errors
  import opened NumParse
  import opened Tables
  import opened Records

  /** Whether a day other than `self` already holds `(semaineId, age)`. */
  predicate KeyTaken(t: Table<Suivi>, semaineId: int, age: int, self: Option<int>) {
    exists id :: id in t.rows && Some(id) != self && t.rows[id].semaineId == semaineId && t.rows[id].age == age
  }

  /** The constraints SQLite checks when `row` is written: the CHECK on the age, the UNIQUE
      key, then the treatment's foreign key. */
  function Constraints(st: Store, row: Suivi, self: Option<int>): (r: Option<DbFailure>)
    ensures r.None? <==>
      row.age > 0 && !KeyTaken(st.suivis, row.semaineId, row.age, self)
      && (row.soinsId.Some? ==> row.soinsId.value in st.soins.rows)
  {
    if row.age <= 0 then Some(CheckFailed)
    else if KeyTaken(st.suivis, row.semaineId, row.age, self) then Some(UniqueFailed)
    else if row.soinsId.Some? && row.soinsId.value !in st.soins.rows then Some(ForeignKeyFailed)
    else None
  }

  /** What SQLite keeps of a feed amount bound as a double: `sqlite3_bind_double` stores NaN
      as NULL, and any other value as it is. */
  function BindReal(x: Option<Float>): (r: Option<Float>)
    ensures r != Some(NaN)
    ensures x == Some(NaN) ==> r.None?
    ensures x != Some(NaN) ==> r == x
  {
    if x == Some(NaN) then None else x
  }

  /** The row an INSERT of `draft` stores: the total columns are not in the column list, and
      the feed amount is bound. */
  function Inserted(draft: Suivi): (r: Suivi)
    ensures r.decesTotal.None? && r.alimentationTotal.None?
    ensures r.alimentationParJour == BindReal(draft.alimentationParJour)
    ensures r.(decesTotal := draft.decesTotal, alimentationTotal := draft.alimentationTotal,
               alimentationParJour := draft.alimentationParJour) == draft
  {
    draft.(decesTotal := None, alimentationTotal := None, alimentationParJour := BindReal(draft.alimentationParJour))
  }

  /** The row an UPDATE of `draft` over `stored` leaves: the total columns are not in the SET
      list, and the feed amount is bound. */
  function Updated(stored: Suivi, draft: Suivi): (r: Suivi)
    ensures r.decesTotal == stored.decesTotal && r.alimentationTotal == stored.alimentationTotal
    ensures r.alimentationParJour == BindReal(draft.alimentationParJour)
    ensures r.(decesTotal := draft.decesTotal, alimentationTotal := draft.alimentationTotal,
               alimentationParJour := draft.alimentationParJour) == draft
  {
    draft.(decesTotal := stored.decesTotal, alimentationTotal := stored.alimentationTotal,
           alimentationParJour := BindReal(draft.alimentationParJour))
  }

  function Create(st: Store, draft: Suivi): (r: Result<Write<Suivi>, AppError>)
    ensures draft.semaineId !in st.semaines.rows <==> r == Failure(ValidationError("semaine_id", Missing))
    ensures r.Success? <==> draft.semaineId in st.semaines.rows && Constraints(st, draft, None).None?
    ensures r.Success? ==>
      && r.value.row == Inserted(draft)
      && r.value.store == st.(suivis := r.value.store.suivis)
      && r.value.store.suivis.rows == st.suivis.rows[r.value.id := r.value.row]
      && r.value.id == st.suivis.next && r.value.store.suivis.next == st.suivis.next + 1
      && (st.suivis.Valid() ==> r.value.store.suivis.Valid() && r.value.id !in st.suivis.rows)
  {
    if draft.semaineId !in st.semaines.rows then Failure(ValidationError("semaine_id", Missing))
    else
      var row := Inserted(draft);
      match Constraints(st, row, None)
      case Some(f) => Failure(Database(f))
      case None =>
        var (t, id) := st.suivis.Insert(row);
        Success(Write(st.(suivis := t), id, row))
  }

  function GetById(st: Store, id: int): (r: Result<Suivi, AppError>)
    ensures r.Success? <==> id in st.suivis.rows
    ensures r.Success? ==> r.value == st.suivis.rows[id]
    ensures r.Failure? ==> r.error == NotFound(SuiviEntity, id)
  {
    if id in st.suivis.rows then Success(st.suivis.rows[id]) else Failure(NotFound(SuiviEntity, id))
  }

  function Update(st: Store, id: int, draft: Suivi): (r: Result<Write<Suivi>, AppError>)
    ensures draft.semaineId !in st.semaines.rows ==> r == Failure(ValidationError("semaine_id", Missing))
    ensures draft.semaineId in st.semaines.rows && id !in st.suivis.rows ==> r == Failure(NotFound(SuiviEntity, id))
    ensures r.Success? <==>
      draft.semaineId in st.semaines.rows && id in st.suivis.rows && Constraints(st, draft, Some(id)).None?
    ensures r.Success? ==>
      && r.value.id == id
      && r.value.row == Updated(st.suivis.rows[id], draft)
      && r.value.store == st.(suivis := r.value.store.suivis)
      && r.value.store.suivis.rows == st.suivis.rows[id := r.value.row]
  {
    if draft.semaineId !in st.semaines.rows then Failure(ValidationError("semaine_id", Missing))
    else if id !in st.suivis.rows then Failure(NotFound(SuiviEntity, id))
    else
      var row := Updated(st.suivis.rows[id], draft);
      match Constraints(st, row, Some(id))
      case Some(f) => Failure(Database(f))
      case None => Success(Write(st.(suivis := st.suivis.Put(id, row)), id, row))
  }

  function Delete(st: Store, id: int): (r: Result<Store, AppError>)
    ensures r.Failure? <==> id !in st.suivis.rows
    ensures r.Failure? ==> r.error == NotFound(SuiviEntity, id)
    ensures r.Success? ==>
      && (forall d :: d in r.value.suivis.rows <==> d in st.suivis.rows && d != id)
      && (forall d :: d in r.value.suivis.rows ==> r.value.suivis.rows[d] == st.suivis.rows[d])
      && r.value == st.(suivis := r.value.suivis)
  {
    if id !in st.suivis.rows then Failure(NotFound(SuiviEntity, id))
    else Success(st.(suivis := st.suivis.Remove({id})))
  }

  /** A week's days ordered by age. */
  function GetBySemaine(st: Store, semaineId: int): (r: seq<(int, Suivi)>)
    ensures forall k :: 0 <= k < |r| ==> r[k].0 in st.suivis.rows && st.suivis.rows[r[k].0] == r[k].1
    ensures forall k :: 0 <= k < |r| ==> r[k].1.semaineId == semaineId
    ensures st.suivis.Valid() ==>
      forall id :: id in st.suivis.rows && st.suivis.rows[id].semaineId == semaineId ==> (id, st.suivis.rows[id]) in r
    ensures forall j, k :: 0 <= j < k < |r| ==> r[j].1.age <= r[k].1.age
  {
    WhereOrderBy(st.suivis, (d: Suivi) => d.semaineId == semaineId, (d: Suivi) => d.age)
  }

  lemma CreateKeepsConsistent(st: Store, draft: Suivi)
    requires Consistent(st)
    requires Create(st, draft).Success?
    ensures Consistent(Create(st, draft).value.store)
  {
    var w := Create(st, draft).value;
    var t := w.store.suivis;
    forall a, b | a in t.rows && b in t.rows && a != b
      ensures t.rows[a].semaineId != t.rows[b].semaineId || t.rows[a].age != t.rows[b].age
    {
      if a == w.id || b == w.id {
        assert !KeyTaken(st.suivis, draft.semaineId, draft.age, None);
      }
    }
  }

  lemma UpdateKeepsConsistent(st: Store, id: int, draft: Suivi)
    requires Consistent(st)
    requires Update(st, id, draft).Success?
    ensures Consistent(Update(st, id, draft).value.store)
  {
    var w := Update(st, id, draft).value;
    var t := w.store.suivis;
    forall a, b | a in t.rows && b in t.rows && a != b
      ensures t.rows[a].semaineId != t.rows[b].semaineId || t.rows[a].age != t.rows[b].age
    {
      if a == id || b == id {
        assert !KeyTaken(st.suivis, draft.semaineId, draft.age, Some(id));
      }
    }
  }
}
