/** The `personnel` repository (staff). The repository checks nothing itself; the schema's
    `UNIQUE` on `nom` and on `telephone` refuses a clashing write, and the flocks' `ON DELETE
    RESTRICT` refuses to delete a staff member a flock still names. */
module PersonnelRepository {
  import opened Wrappers
  import opened MachineInts
  import opened Errors
  import opened Tables
  import opened Records
  import opened Pagination

  /** Whether a staff member other than `self` already has the name or the phone number. */
  predicate Clashes(t: Table<Personnel>, p: Personnel, self: Option<int>) {
    exists id :: id in t.rows && Some(id) != self && (t.rows[id].nom == p.nom || t.rows[id].telephone == p.telephone)
  }

  /** The two `UNIQUE` columns. */
  ghost predicate Unique(t: Table<Personnel>) {
    forall a, b :: a in t.rows && b in t.rows && a != b ==>
      t.rows[a].nom != t.rows[b].nom && t.rows[a].telephone != t.rows[b].telephone
  }

  function Create(st: Store, nom: string, telephone: string): (r: Result<Write<Personnel>, AppError>)
    ensures r.Failure? <==> Clashes(st.personnel, Personnel(nom, telephone), None)
    ensures r.Failure? ==> r.error == Database(UniqueFailed)
    ensures r.Success? ==>
      && r.value.row == Personnel(nom, telephone) && r.value.id == st.personnel.next
      && r.value.store == st.(personnel := Table(st.personnel.rows[r.value.id := r.value.row], st.personnel.next + 1))
  {
    var row := Personnel(nom, telephone);
    if Clashes(st.personnel, row, None) then Failure(Database(UniqueFailed))
    else
      var (t, id) := st.personnel.Insert(row);
      Success(Write(st.(personnel := t), id, row))
  }

  function GetById(st: Store, id: int): (r: Result<Personnel, AppError>)
    ensures r.Success? <==> id in st.personnel.rows
    ensures r.Success? ==> r.value == st.personnel.rows[id]
    ensures r.Failure? ==> r.error == NotFound(PersonnelEntity, id)
  {
    if id in st.personnel.rows then Success(st.personnel.rows[id]) else Failure(NotFound(PersonnelEntity, id))
  }

  /** `UPDATE … WHERE id = ?`: no matching row is `NotFound`; a name or number another
      member holds trips the `UNIQUE` constraint. */
  function Update(st: Store, id: int, nom: string, telephone: string): (r: Result<Store, AppError>)
    ensures id !in st.personnel.rows ==> r == Failure(NotFound(PersonnelEntity, id))
    ensures id in st.personnel.rows && Clashes(st.personnel, Personnel(nom, telephone), Some(id)) ==>
      r == Failure(Database(UniqueFailed))
    ensures r.Success? <==> id in st.personnel.rows && !Clashes(st.personnel, Personnel(nom, telephone), Some(id))
    ensures r.Success? ==>
      && r.value == st.(personnel := r.value.personnel)
      && r.value.personnel.rows == st.personnel.rows[id := Personnel(nom, telephone)]
      && r.value.personnel.next == st.personnel.next
  {
    if id !in st.personnel.rows then Failure(NotFound(PersonnelEntity, id))
    else if Clashes(st.personnel, Personnel(nom, telephone), Some(id)) then Failure(Database(UniqueFailed))
    else Success(st.(personnel := st.personnel.Put(id, Personnel(nom, telephone))))
  }

  /** Whether some flock names staff member `id`. */
  predicate Assigned(st: Store, id: int) {
    exists b :: b in st.bandes.rows && st.bandes.rows[b].personnelId == id
  }

  /** `DELETE … WHERE id = ?`: no matching row is `NotFound`; a member a flock still names
      trips the foreign key. */
  function Delete(st: Store, id: int): (r: Result<Store, AppError>)
    ensures id !in st.personnel.rows ==> r == Failure(NotFound(PersonnelEntity, id))
    ensures id in st.personnel.rows && Assigned(st, id) ==> r == Failure(Database(ForeignKeyFailed))
    ensures r.Success? <==> id in st.personnel.rows && !Assigned(st, id)
    ensures r.Success? ==>
      && r.value == st.(personnel := r.value.personnel)
      && r.value.personnel.rows.Keys == st.personnel.rows.Keys - {id}
      && forall k :: k in r.value.personnel.rows ==> r.value.personnel.rows[k] == st.personnel.rows[k]
  {
    if id !in st.personnel.rows then Failure(NotFound(PersonnelEntity, id))
    else if Assigned(st, id) then Failure(Database(ForeignKeyFailed))
    else Success(st.(personnel := st.personnel.Remove({id})))
  }

  lemma CreateKeepsUnique(st: Store, nom: string, telephone: string)
    requires st.personnel.Valid() && Unique(st.personnel)
    requires Create(st, nom, telephone).Success?
    ensures Unique(Create(st, nom, telephone).value.store.personnel)
  {
    var w := Create(st, nom, telephone).value;
    var t := w.store.personnel;
    forall a, b | a in t.rows && b in t.rows && a != b
      ensures t.rows[a].nom != t.rows[b].nom && t.rows[a].telephone != t.rows[b].telephone
    {
      if a == w.id || b == w.id {
        assert !Clashes(st.personnel, w.row, None);
      }
    }
  }

  lemma UpdateKeepsUnique(st: Store, id: int, nom: string, telephone: string)
    requires Unique(st.personnel)
    requires Update(st, id, nom, telephone).Success?
    ensures Unique(Update(st, id, nom, telephone).value.personnel)
  {
    var t := Update(st, id, nom, telephone).value.personnel;
    forall a, b | a in t.rows && b in t.rows && a != b
      ensures t.rows[a].nom != t.rows[b].nom && t.rows[a].telephone != t.rows[b].telephone
    {
      if a == id || b == id {
        assert !Clashes(st.personnel, Personnel(nom, telephone), Some(id));
      }
    }
  }

  /** Every flock's staff member exists (`ON DELETE RESTRICT`). */
  ghost predicate BandesStaffed(st: Store) {
    forall b :: b in st.bandes.rows ==> st.bandes.rows[b].personnelId in st.personnel.rows
  }

  lemma DeleteKeepsBandesStaffed(st: Store, id: int)
    requires BandesStaffed(st)
    requires Delete(st, id).Success?
    ensures BandesStaffed(Delete(st, id).value)
  {
    var st' := Delete(st, id).value;
    forall b | b in st'.bandes.rows
      ensures st'.bandes.rows[b].personnelId in st'.personnel.rows
    {
      assert !Assigned(st, id);
      assert st.bandes.rows[b].personnelId != id;
    }
  }

  /** Whether a staff member passes both optional filters, combined with AND. */
  predicate Selected(p: Personnel, nomSearch: Option<string>, teleSearch: Option<string>) {
    Matches(Term(nomSearch), p.nom) && Matches(Term(teleSearch), p.telephone)
  }

  /** `get_all`: one page of the staff members passing the filters. */
  function GetAll(st: Store, page: u32, perPage: u32, nomSearch: Option<string>, teleSearch: Option<string>)
    : (r: Page<(int, Personnel)>)
    ensures forall k :: 0 <= k < |r.data| ==>
      r.data[k].0 in st.personnel.rows && r.data[k].1 == st.personnel.rows[r.data[k].0]
      && Selected(r.data[k].1, nomSearch, teleSearch)
    ensures |r.data| <= perPage && r.page == page && r.limit == perPage
    ensures r.total >= 0 && (r.hasNext <==> page < TotalPages(r.total, perPage))
    ensures r.hasPrev <==> page > 1
  {
    Paginate(Where(st.personnel, (p: Personnel) => Selected(p, nomSearch, teleSearch)), page, perPage)
  }

  /** The reported total is the number of staff members both filters keep. */
  lemma GetAllTotal(st: Store, page: u32, perPage: u32, nomSearch: Option<string>, teleSearch: Option<string>)
    requires st.personnel.Valid()
    ensures GetAll(st, page, perPage, nomSearch, teleSearch).total
      == Count(st.personnel, (p: Personnel) => Selected(p, nomSearch, teleSearch))
  {
    WhereCount(st.personnel, (p: Personnel) => Selected(p, nomSearch, teleSearch));
  }
}
