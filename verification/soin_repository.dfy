/** The `soins` repository (care products): names are non-blank and unique, the default unit
    is one of a fixed list, and a product still used by a day entry cannot be deleted. */
module SoinRepository {
  import opened Wrappers
  import opened Errors
  import opened Tables
  import opened Records
  import opened Text
  import opened Pagination
  import opened MachineInts

  /** The accepted units, in lower case. */
  const Units: seq<string> := ["l", "ml", "kg", "g", "mg", "dose", "comprimé", "ml/l", "g/l"]

  /** `validate_unit`: a unit is accepted when its lower-case form is in the list. */
  function ValidateUnit(unite: string): (r: Option<AppError>)
    ensures r.None? <==> ToLower(unite) in Units
    ensures r.Some? ==> r.value == ValidationError("unite_defaut", Invalid)
  {
    if ToLower(unite) in Units then None else Some(ValidationError("unite_defaut", Invalid))
  }

  /** Case does not matter to the unit check: a unit and its lower-case form are judged alike. */
  lemma ValidateUnitIgnoresCase(unite: string)
    ensures ValidateUnit(ToLower(unite)) == ValidateUnit(unite)
  {
    ToLowerIdempotent(unite);
  }

  /** The field checks of both writes, in order: blank name, blank unit, unknown unit. */
  function CheckFields(nom: string, unite: string): (r: Option<AppError>)
    ensures r.None? <==> !IsBlank(nom) && !IsBlank(unite) && ToLower(unite) in Units
    ensures IsBlank(nom) ==> r == Some(ValidationError("nom", Blank))
    ensures !IsBlank(nom) && IsBlank(unite) ==> r == Some(ValidationError("unite_defaut", Blank))
    ensures !IsBlank(nom) && !IsBlank(unite) && ToLower(unite) !in Units ==> r == Some(ValidationError("unite_defaut", Invalid))
  {
    if IsBlank(nom) then Some(ValidationError("nom", Blank))
    else if IsBlank(unite) then Some(ValidationError("unite_defaut", Blank))
    else ValidateUnit(unite)
  }

  /** Whether a product other than `self` is called exactly `nom`. */
  predicate NameTaken(t: Table<Soin>, nom: string, self: Option<int>) {
    exists id :: id in t.rows && Some(id) != self && t.rows[id].nom == nom
  }

  ghost predicate NamesUnique(t: Table<Soin>) {
    forall a, b :: a in t.rows && b in t.rows && a != b ==> t.rows[a].nom != t.rows[b].nom
  }

  function Create(st: Store, nom: string, unite: string): (r: Result<Write<Soin>, AppError>)
    ensures CheckFields(nom, unite).Some? ==> r == Failure(CheckFields(nom, unite).value)
    ensures CheckFields(nom, unite).None? && NameTaken(st.soins, nom, None) ==> r == Failure(ValidationError("nom", Duplicate))
    ensures r.Success? <==> CheckFields(nom, unite).None? && !NameTaken(st.soins, nom, None)
    ensures r.Success? ==>
      && r.value.row == Soin(nom, unite) && r.value.id == st.soins.next
      && r.value.store == st.(soins := Table(st.soins.rows[r.value.id := r.value.row], st.soins.next + 1))
  {
    match CheckFields(nom, unite)
    case Some(e) => Failure(e)
    case None =>
      if NameTaken(st.soins, nom, None) then Failure(ValidationError("nom", Duplicate))
      else
        var (t, id) := st.soins.Insert(Soin(nom, unite));
        Success(Write(st.(soins := t), id, Soin(nom, unite)))
  }

  function GetById(st: Store, id: int): (r: Result<Soin, AppError>)
    ensures r.Success? <==> id in st.soins.rows
    ensures r.Success? ==> r.value == st.soins.rows[id]
    ensures r.Failure? ==> r.error == NotFound(SoinEntity, id)
  {
    if id in st.soins.rows then Success(st.soins.rows[id]) else Failure(NotFound(SoinEntity, id))
  }

  /** Rewrites product `id`; a name held by another product is refused, its own is kept. */
  function Update(st: Store, id: int, nom: string, unite: string): (r: Result<Write<Soin>, AppError>)
    ensures CheckFields(nom, unite).Some? ==> r == Failure(CheckFields(nom, unite).value)
    ensures CheckFields(nom, unite).None? && NameTaken(st.soins, nom, Some(id)) ==> r == Failure(ValidationError("nom", Duplicate))
    ensures CheckFields(nom, unite).None? && !NameTaken(st.soins, nom, Some(id)) && id !in st.soins.rows ==>
      r == Failure(NotFound(SoinEntity, id))
    ensures r.Success? <==> CheckFields(nom, unite).None? && !NameTaken(st.soins, nom, Some(id)) && id in st.soins.rows
    ensures r.Success? ==>
      && r.value.id == id && r.value.row == Soin(nom, unite)
      && r.value.store == st.(soins := Table(st.soins.rows[id := r.value.row], st.soins.next))
  {
    match CheckFields(nom, unite)
    case Some(e) => Failure(e)
    case None =>
      if NameTaken(st.soins, nom, Some(id)) then Failure(ValidationError("nom", Duplicate))
      else if id !in st.soins.rows then Failure(NotFound(SoinEntity, id))
      else Success(Write(st.(soins := st.soins.Put(id, Soin(nom, unite))), id, Soin(nom, unite)))
  }

  /** Whether some day entry names product `id`. */
  predicate InUse(st: Store, id: int) {
    exists d :: d in st.suivis.rows && st.suivis.rows[d].soinsId == Some(id)
  }

  /** Deletes product `id` unless a day entry uses it; so the schema's `ON DELETE SET NULL`
      never has a row to act on along this path. */
  function Delete(st: Store, id: int): (r: Result<Store, AppError>)
    ensures InUse(st, id) ==> r == Failure(ConstraintViolation(SuiviEntity))
    ensures !InUse(st, id) && id !in st.soins.rows ==> r == Failure(NotFound(SoinEntity, id))
    ensures r.Success? <==> !InUse(st, id) && id in st.soins.rows
    ensures r.Success? ==> r.value == st.(soins := st.soins.Remove({id}))
  {
    if InUse(st, id) then Failure(ConstraintViolation(SuiviEntity))
    else if id !in st.soins.rows then Failure(NotFound(SoinEntity, id))
    else Success(st.(soins := st.soins.Remove({id})))
  }

  /** What `DELETE FROM soins` does at the schema level: the product goes, and `ON DELETE SET
      NULL` clears every day entry's reference to it. */
  function DeleteSettingNull(st: Store, id: int): (r: Store)
    ensures r == st.(soins := r.soins, suivis := r.suivis)
    ensures r.soins == st.soins.Remove({id})
    ensures r.suivis.next == st.suivis.next && r.suivis.rows.Keys == st.suivis.rows.Keys
    ensures forall d :: d in r.suivis.rows ==> r.suivis.rows[d].soinsId != Some(id)
    ensures forall d :: d in r.suivis.rows ==>
      (r.suivis.rows[d] == st.suivis.rows[d]
       || (st.suivis.rows[d].soinsId == Some(id) && r.suivis.rows[d] == st.suivis.rows[d].(soinsId := None)))
  {
    var rows := map d | d in st.suivis.rows ::
      if st.suivis.rows[d].soinsId == Some(id) then st.suivis.rows[d].(soinsId := None) else st.suivis.rows[d];
    st.(soins := st.soins.Remove({id}), suivis := Table(rows, st.suivis.next))
  }

  /** The repository's guard means the schema's `SET NULL` never has a row to clear: a
      successful delete is the schema-level delete, with every day entry untouched. */
  lemma DeleteNeverSetsNull(st: Store, id: int)
    requires Delete(st, id).Success?
    ensures Delete(st, id).value == DeleteSettingNull(st, id)
    ensures DeleteSettingNull(st, id).suivis == st.suivis
  {
    var r := DeleteSettingNull(st, id);
    assert !InUse(st, id);
    forall d | d in st.suivis.rows ensures r.suivis.rows[d] == st.suivis.rows[d] {
      assert st.suivis.rows[d].soinsId != Some(id);
    }
    assert r.suivis.rows == st.suivis.rows;
  }

  /** Adding a product under a fresh id with a name no product holds keeps the names distinct. */
  lemma AddKeepsNamesUnique(t: Table<Soin>, row: Soin)
    requires t.Valid() && NamesUnique(t) && !NameTaken(t, row.nom, None)
    ensures NamesUnique(Table(t.rows[t.next := row], t.next + 1))
  {
    var t' := Table(t.rows[t.next := row], t.next + 1);
    forall a, b | a in t'.rows && b in t'.rows && a != b
      ensures t'.rows[a].nom != t'.rows[b].nom
    {
      if a == t.next || b == t.next {
        assert !NameTaken(t, row.nom, None);
      }
    }
  }

  lemma CreateKeepsNamesUnique(st: Store, nom: string, unite: string)
    requires st.soins.Valid() && NamesUnique(st.soins)
    requires Create(st, nom, unite).Success?
    ensures NamesUnique(Create(st, nom, unite).value.store.soins)
  {
    AddKeepsNamesUnique(st.soins, Soin(nom, unite));
  }

  /** Writing a name no other product holds keeps the names distinct. */
  lemma PutKeepsNamesUnique(t: Table<Soin>, id: int, row: Soin)
    requires id in t.rows && NamesUnique(t) && !NameTaken(t, row.nom, Some(id))
    ensures NamesUnique(t.Put(id, row))
  {
    var t' := t.Put(id, row);
    forall a, b | a in t'.rows && b in t'.rows && a != b
      ensures t'.rows[a].nom != t'.rows[b].nom
    {
      if a == id || b == id {
        assert !NameTaken(t, row.nom, Some(id));
      }
    }
  }

  lemma UpdateKeepsNamesUnique(st: Store, id: int, nom: string, unite: string)
    requires NamesUnique(st.soins)
    requires Update(st, id, nom, unite).Success?
    ensures NamesUnique(Update(st, id, nom, unite).value.store.soins)
  {
    PutKeepsNamesUnique(st.soins, id, Soin(nom, unite));
  }

  /** The guard keeps the day entries' product references pointing at existing products. */
  lemma DeleteKeepsConsistent(st: Store, id: int)
    requires Consistent(st)
    requires Delete(st, id).Success?
    ensures Consistent(Delete(st, id).value)
  {
    var st' := Delete(st, id).value;
    forall d | d in st'.suivis.rows && st'.suivis.rows[d].soinsId.Some?
      ensures st'.suivis.rows[d].soinsId.value in st'.soins.rows
    {
      assert !InUse(st, id);
      assert st.suivis.rows[d].soinsId != Some(id);
    }
  }

  /** Whether a product passes both optional filters, combined with AND. */
  predicate Selected(s: Soin, nomSearch: Option<string>, uniteSearch: Option<string>) {
    Matches(Term(nomSearch), s.nom) && Matches(Term(uniteSearch), s.unite)
  }

  /** `get_all`: one page of the products passing the filters. */
  function GetAll(st: Store, page: u32, perPage: u32, nomSearch: Option<string>, uniteSearch: Option<string>)
    : (r: Page<(int, Soin)>)
    ensures forall k :: 0 <= k < |r.data| ==>
      r.data[k].0 in st.soins.rows && r.data[k].1 == st.soins.rows[r.data[k].0] && Selected(r.data[k].1, nomSearch, uniteSearch)
    ensures |r.data| <= perPage && r.page == page && r.limit == perPage
    ensures r.total >= 0 && (r.hasNext <==> page < TotalPages(r.total, perPage))
    ensures r.hasPrev <==> page > 1
  {
    var rows := Where(st.soins, (s: Soin) => Selected(s, nomSearch, uniteSearch));
    Paginate(rows, page, perPage)
  }

  /** The reported total is the number of products both filters keep. */
  lemma GetAllTotal(st: Store, page: u32, perPage: u32, nomSearch: Option<string>, uniteSearch: Option<string>)
    requires st.soins.Valid()
    ensures GetAll(st, page, perPage, nomSearch, uniteSearch).total
      == Count(st.soins, (s: Soin) => Selected(s, nomSearch, uniteSearch))
  {
    WhereCount(st.soins, (s: Soin) => Selected(s, nomSearch, uniteSearch));
  }
}
