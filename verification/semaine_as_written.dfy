/** The week service as its source writes it: every missing weight reaches the repository's
    own insert and update, which store it as the empty text. The rest of the model uses the
    corrected binding of the week service; this module shows what the code as written does. */
module SemaineAsWritten {
  import opened Wrappers
  import opened MachineInts
  import opened Errors
  import opened Tables
  import opened Records
  import opened SemaineService
  import SemaineRepository

  /** One turn of the service's loop as written: a missing week is created through the
      repository's own insert, which stores the missing weight as the empty text. */
  method WeekForAsWritten(st: Store, owner: int, index: map<int, (int, Semaine)>, n: int) returns (st': Store, r: Result<(int, Semaine), AppError>)
    requires 1 <= n <= 8
    requires st.semaines.Valid() && Listed(st, owner, index) && Covers(st, owner, index, n)
    ensures Grows(st, st')
    ensures n in index ==> st' == st && r == Success(index[n])
    ensures n !in index && owner in st.batiments.rows ==>
      && r.Success? && r.value.0 in st'.semaines.rows
      && st'.semaines.rows[r.value.0] == Semaine(owner, n as i32, Text(""))
      && SemaineRepository.TextWeight(st'.semaines, owner)
    ensures owner !in st.batiments.rows ==> st' == st
  {
    if n in index {
      st', r := st, Success(index[n]);
    } else {
      var created := SemaineRepository.CreateAsWritten(st, owner, n as i32, None);
      if created.Failure? {
        st', r := st, Failure(created.error);
      } else {
        var w := created.value;
        st', r := w.store, Success((w.id, w.row));
        assert w.store.semaines.rows[w.id].owner == owner && w.store.semaines.rows[w.id].poids.Text?;
      }
    }
  }

  /** Rows a store keeps as it grows keep their text weights. */
  lemma TextWeightGrows(st: Store, st': Store, owner: int)
    requires Grows(st, st') && SemaineRepository.TextWeight(st.semaines, owner)
    ensures SemaineRepository.TextWeight(st'.semaines, owner)
  {
    var id :| id in st.semaines.rows && st.semaines.rows[id].owner == owner && st.semaines.rows[id].poids.Text?;
    assert id in st'.semaines.rows && st'.semaines.rows[id] == st.semaines.rows[id];
  }

  /** As written, the first showing that has to create week `n` of an existing building
      stores it with a text weight. Whatever else that showing adds, the building keeps a
      text weight, so the next showing of its grid fails and writes nothing. */
  method ShowingAfterAsWrittenWeek(st: Store, owner: int, index: map<int, (int, Semaine)>, n: int)
    returns (st1: Store, st2: Store, r: Result<seq<WeekView>, AppError>)
    requires 1 <= n <= 8
    requires st.semaines.Valid() && Listed(st, owner, index) && Covers(st, owner, index, n)
    requires owner in st.batiments.rows && n !in index
    ensures Grows(st, st1)
    ensures forall later :: Grows(st1, later) ==> SemaineRepository.TextWeight(later.semaines, owner)
    ensures st2 == st1 && r == Failure(Database(InvalidColumnType))
  {
    var week;
    st1, week := WeekForAsWritten(st, owner, index, n);
    forall later | Grows(st1, later)
      ensures SemaineRepository.TextWeight(later.semaines, owner)
    {
      TextWeightGrows(st1, later, owner);
    }
    st2, r := FullSemaines(st1, owner);
  }

  /** `update_semaine_poids` as written: the repository's update stores a missing weight as
      the empty text, after which the week can no longer be read. */
  function UpdatePoidsAsWritten(st: Store, id: int, poids: Option<real>): (r: Result<Write<Semaine>, AppError>)
    ensures r.Success? <==> UpdatePoids(st, id, poids).Success?
    ensures r.Success? && poids.Some? ==> r == UpdatePoids(st, id, poids)
    ensures r.Success? && poids.None? ==>
      && r.value.row == st.semaines.rows[id].(poids := Text(""))
      && SemaineRepository.GetById(r.value.store, id) == Failure(Database(InvalidColumnType))
  {
    match SemaineRepository.GetById(st, id)
    case Failure(e) => Failure(e)
    case Success(week) => SemaineRepository.UpdateAsWritten(st, id, week.owner, week.numero, poids)
  }
}
