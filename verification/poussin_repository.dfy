/** The `poussins` repository (chick types): a name-only catalogue with no checks of its own;
    update and delete report a missing row as `NotFound`. */
module PoussinRepository {
  import opened Wrappers
  import opened MachineInts
  import opened Errors
  import opened Tables
  import opened Records
  import opened Pagination

  function Create(st: Store, nom: string): (r: Write<Poussin>)
    ensures r.row == Poussin(nom) && r.id == st.poussins.next
    ensures r.store == st.(poussins := Table(st.poussins.rows[r.id := r.row], st.poussins.next + 1))
    ensures st.poussins.Valid() ==> r.id !in st.poussins.rows && r.store.poussins.Valid()
  {
    var (t, id) := st.poussins.Insert(Poussin(nom));
    Write(st.(poussins := t), id, Poussin(nom))
  }

  /** `UPDATE … WHERE id = ?`: no matching row is `NotFound`, and nothing else changes. */
  function Update(st: Store, id: int, nom: string): (r: Result<Store, AppError>)
    ensures r.Failure? <==> id !in st.poussins.rows
    ensures r.Failure? ==> r.error == NotFound(PoussinEntity, id)
    ensures r.Success? ==>
      && r.value == st.(poussins := r.value.poussins)
      && r.value.poussins.rows == st.poussins.rows[id := Poussin(nom)]
      && r.value.poussins.next == st.poussins.next
  {
    if id !in st.poussins.rows then Failure(NotFound(PoussinEntity, id))
    else Success(st.(poussins := st.poussins.Put(id, Poussin(nom))))
  }

  function Delete(st: Store, id: int): (r: Result<Store, AppError>)
    ensures r.Failure? <==> id !in st.poussins.rows
    ensures r.Failure? ==> r.error == NotFound(PoussinEntity, id)
    ensures r.Success? ==>
      && r.value == st.(poussins := r.value.poussins)
      && r.value.poussins.rows.Keys == st.poussins.rows.Keys - {id}
      && forall k :: k in r.value.poussins.rows ==> r.value.poussins.rows[k] == st.poussins.rows[k]
  {
    if id !in st.poussins.rows then Failure(NotFound(PoussinEntity, id))
    else Success(st.(poussins := st.poussins.Remove({id})))
  }

  /** `get_all`: one page of the chick types whose name contains the trimmed search term. */
  function GetAll(st: Store, page: u32, perPage: u32, nomSearch: Option<string>): (r: Page<(int, Poussin)>)
    ensures forall k :: 0 <= k < |r.data| ==>
      r.data[k].0 in st.poussins.rows && r.data[k].1 == st.poussins.rows[r.data[k].0]
      && Matches(Term(nomSearch), r.data[k].1.nom)
    ensures |r.data| <= perPage && r.page == page && r.limit == perPage
    ensures r.total >= 0 && (r.hasNext <==> page < TotalPages(r.total, perPage))
    ensures r.hasPrev <==> page > 1
  {
    var rows := Where(st.poussins, (p: Poussin) => Matches(Term(nomSearch), p.nom));
    Paginate(rows, page, perPage)
  }

  /** The reported total is the number of chick types the filter keeps, whatever the page. */
  lemma GetAllTotal(st: Store, page: u32, perPage: u32, nomSearch: Option<string>)
    requires st.poussins.Valid()
    ensures GetAll(st, page, perPage, nomSearch).total == Count(st.poussins, (p: Poussin) => Matches(Term(nomSearch), p.nom))
  {
    WhereCount(st.poussins, (p: Poussin) => Matches(Term(nomSearch), p.nom));
  }
}
