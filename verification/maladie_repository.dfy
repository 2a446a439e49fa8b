/** The `maladies` repository (diseases): a name-only catalogue with no checks of its own;
    the duplicate and length rules live in the disease service. Update and delete report a
    missing row as `NotFound`. */
module MaladieRepository {
  import opened Wrappers
  import opened MachineInts
  import opened Errors
  import opened Tables
  import opened Records
  import opened Pagination

  function Create(st: Store, nom: string): (r: Write<Maladie>)
    ensures r.row == Maladie(nom) && r.id == st.maladies.next
    ensures r.store == st.(maladies := Table(st.maladies.rows[r.id := r.row], st.maladies.next + 1))
    ensures st.maladies.Valid() ==> r.id !in st.maladies.rows && r.store.maladies.Valid()
  {
    var (t, id) := st.maladies.Insert(Maladie(nom));
    Write(st.(maladies := t), id, Maladie(nom))
  }

  /** `UPDATE … WHERE id = ?`: no matching row is `NotFound`, and nothing else changes. */
  function Update(st: Store, id: int, nom: string): (r: Result<Store, AppError>)
    ensures r.Failure? <==> id !in st.maladies.rows
    ensures r.Failure? ==> r.error == NotFound(MaladieEntity, id)
    ensures r.Success? ==>
      && r.value == st.(maladies := r.value.maladies)
      && r.value.maladies.rows == st.maladies.rows[id := Maladie(nom)]
      && r.value.maladies.next == st.maladies.next
  {
    if id !in st.maladies.rows then Failure(NotFound(MaladieEntity, id))
    else Success(st.(maladies := st.maladies.Put(id, Maladie(nom))))
  }

  function Delete(st: Store, id: int): (r: Result<Store, AppError>)
    ensures r.Failure? <==> id !in st.maladies.rows
    ensures r.Failure? ==> r.error == NotFound(MaladieEntity, id)
    ensures r.Success? ==>
      && r.value == st.(maladies := r.value.maladies)
      && r.value.maladies.rows.Keys == st.maladies.rows.Keys - {id}
      && forall k :: k in r.value.maladies.rows ==> r.value.maladies.rows[k] == st.maladies.rows[k]
  {
    if id !in st.maladies.rows then Failure(NotFound(MaladieEntity, id))
    else Success(st.(maladies := st.maladies.Remove({id})))
  }

  /** `get_all`: one page of the diseases whose name contains the trimmed search term. */
  function GetAll(st: Store, page: u32, perPage: u32, nomSearch: Option<string>): (r: Page<(int, Maladie)>)
    ensures forall k :: 0 <= k < |r.data| ==>
      r.data[k].0 in st.maladies.rows && r.data[k].1 == st.maladies.rows[r.data[k].0]
      && Matches(Term(nomSearch), r.data[k].1.nom)
    ensures |r.data| <= perPage && r.page == page && r.limit == perPage
    ensures r.total >= 0 && (r.hasNext <==> page < TotalPages(r.total, perPage))
    ensures r.hasPrev <==> page > 1
  {
    var rows := Where(st.maladies, (p: Maladie) => Matches(Term(nomSearch), p.nom));
    Paginate(rows, page, perPage)
  }

  /** The reported total is the number of diseases the filter keeps, whatever the page. */
  lemma GetAllTotal(st: Store, page: u32, perPage: u32, nomSearch: Option<string>)
    requires st.maladies.Valid()
    ensures GetAll(st, page, perPage, nomSearch).total == Count(st.maladies, (p: Maladie) => Matches(Term(nomSearch), p.nom))
  {
    WhereCount(st.maladies, (p: Maladie) => Matches(Term(nomSearch), p.nom));
  }
}
