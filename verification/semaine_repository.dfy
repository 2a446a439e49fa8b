/** The `semaines` repository: create, read, update and delete of weeks, each write after
    checking that the owning building exists. A week's owner is a building id. */
module SemaineRepository {
  import opened Wrappers
  import opened MachineInts
  import opened Errors
  import opened Tables
  import opened Records

  /** Whether a week other than `self` already holds `(owner, numero)`. */
  predicate KeyTaken(t: Table<Semaine>, owner: int, numero: int, self: Option<int>) {
    exists id :: id in t.rows && Some(id) != self && t.rows[id].owner == owner && t.rows[id].numero == numero
  }

  /** The constraints SQLite checks when `row` is written: the CHECK, then the UNIQUE key. */
  function Constraints(t: Table<Semaine>, row: Semaine, self: Option<int>): (r: Option<DbFailure>)
    ensures r.None? <==> 1 <= row.numero <= 9 && !KeyTaken(t, row.owner, row.numero, self)
  {
    if !(1 <= row.numero <= 9) then Some(CheckFailed)
    else if KeyTaken(t, row.owner, row.numero, self) then Some(UniqueFailed)
    else None
  }

  /** `row.get::<_, Option<f64>>` on the weight column: NULL reads as no weight, a number as
      itself, and text fails the whole read with `InvalidColumnType`. */
  function ReadPoids(c: Cell): (r: Result<Option<real>, AppError>)
    ensures r.Failure? <==> c.Text?
    ensures r.Failure? ==> r.error == Database(InvalidColumnType)
    ensures r == Success(None) <==> c.Null?
  {
    match c
    case Null => Success(None)
    case Number(p) => Success(Some(p))
    case Text(_) => Failure(Database(InvalidColumnType))
  }

  /** The weight as it must be bound to read back: a missing weight as NULL. */
  function Bind(poids: Option<real>): (c: Cell)
    ensures ReadPoids(c) == Success(poids)
  {
    match poids
    case None => Null
    case Some(p) => Number(p)
  }

  /** The weight as the statements bind it: every parameter is passed as text, the weight as
      `p.to_string()` or, when missing, the empty text. The column's REAL affinity turns the
      text of a number back into that number, but keeps the empty text as text. */
  function BindAsWritten(poids: Option<real>): (c: Cell)
    ensures poids.Some? ==> c == Bind(poids)
    ensures poids.None? ==> c == Text("") && ReadPoids(c).Failure?
  {
    match poids
    case None => Text("")
    case Some(p) => Number(p)
  }

  /** Inserts `row` after checking that its owner exists. */
  function InsertWeek(st: Store, row: Semaine): (r: Result<Write<Semaine>, AppError>)
    ensures row.owner !in st.batiments.rows <==> r == Failure(ValidationError("bande_id", Missing))
    ensures r.Success? <==>
      row.owner in st.batiments.rows && 1 <= row.numero <= 9 && !KeyTaken(st.semaines, row.owner, row.numero as int, None)
    ensures r.Success? ==>
      && r.value.row == row
      && r.value.store == st.(semaines := r.value.store.semaines)
      && r.value.store.semaines.rows == st.semaines.rows[r.value.id := r.value.row]
      && r.value.id == st.semaines.next && r.value.store.semaines.next == st.semaines.next + 1
      && (st.semaines.Valid() ==> r.value.store.semaines.Valid() && r.value.id !in st.semaines.rows)
  {
    if row.owner !in st.batiments.rows then Failure(ValidationError("bande_id", Missing))
    else
      match Constraints(st.semaines, row, None)
      case Some(f) => Failure(Database(f))
      case None =>
        var (t, id) := st.semaines.Insert(row);
        Success(Write(st.(semaines := t), id, row))
  }

  /** Inserts a week, its weight bound so that it reads back. */
  function Create(st: Store, owner: int, numero: i32, poids: Option<real>): (r: Result<Write<Semaine>, AppError>)
    ensures owner !in st.batiments.rows <==> r == Failure(ValidationError("bande_id", Missing))
    ensures r.Success? <==> owner in st.batiments.rows && 1 <= numero <= 9 && !KeyTaken(st.semaines, owner, numero, None)
    ensures r.Success? ==>
      && r.value.row == Semaine(owner, numero, Bind(poids))
      && r.value.store == st.(semaines := r.value.store.semaines)
      && r.value.store.semaines.rows == st.semaines.rows[r.value.id := r.value.row]
      && r.value.id == st.semaines.next && r.value.store.semaines.next == st.semaines.next + 1
      && (st.semaines.Valid() ==> r.value.store.semaines.Valid() && r.value.id !in st.semaines.rows)
  {
    InsertWeek(st, Semaine(owner, numero, Bind(poids)))
  }

  /** The insert as the repository writes it: a week without a weight is stored with the
      empty text. */
  function CreateAsWritten(st: Store, owner: int, numero: i32, poids: Option<real>): (r: Result<Write<Semaine>, AppError>)
    ensures r.Success? <==> Create(st, owner, numero, poids).Success?
    ensures r.Success? ==> r.value.row == Semaine(owner, numero, BindAsWritten(poids))
  {
    InsertWeek(st, Semaine(owner, numero, BindAsWritten(poids)))
  }

  /** Reads week `id`; the read fails when its weight is stored as text. */
  function GetById(st: Store, id: int): (r: Result<Semaine, AppError>)
    ensures id !in st.semaines.rows <==> r == Failure(NotFound(SemaineEntity, id))
    ensures id in st.semaines.rows && st.semaines.rows[id].poids.Text? ==> r == Failure(Database(InvalidColumnType))
    ensures r.Success? <==> id in st.semaines.rows && !st.semaines.rows[id].poids.Text?
    ensures r.Success? ==> r.value == st.semaines.rows[id]
  {
    if id !in st.semaines.rows then Failure(NotFound(SemaineEntity, id))
    else
      match ReadPoids(st.semaines.rows[id].poids)
      case Failure(e) => Failure(e)
      case Success(_) => Success(st.semaines.rows[id])
  }

  /** A week created with a weight, or without one, is read back with that weight. */
  lemma CreateThenGet(st: Store, owner: int, numero: i32, poids: Option<real>)
    requires Create(st, owner, numero, poids).Success?
    ensures var w := Create(st, owner, numero, poids).value;
      GetById(w.store, w.id) == Success(w.row) && ReadPoids(w.row.poids) == Success(poids)
  {
  }

  /** As written, a week created without a weight cannot be read back. */
  lemma CreateAsWrittenUnreadable(st: Store, owner: int, numero: i32)
    requires CreateAsWritten(st, owner, numero, None).Success?
    ensures var w := CreateAsWritten(st, owner, numero, None).value;
      GetById(w.store, w.id) == Failure(Database(InvalidColumnType))
  {
  }

  /** Rewrites every column of week `id` with `row`; an absent id changes no row and is NotFound. */
  function RewriteWeek(st: Store, id: int, row: Semaine): (r: Result<Write<Semaine>, AppError>)
    ensures row.owner !in st.batiments.rows ==> r == Failure(ValidationError("bande_id", Missing))
    ensures row.owner in st.batiments.rows && id !in st.semaines.rows ==> r == Failure(NotFound(SemaineEntity, id))
    ensures r.Success? <==>
      row.owner in st.batiments.rows && id in st.semaines.rows && 1 <= row.numero <= 9
      && !KeyTaken(st.semaines, row.owner, row.numero as int, Some(id))
    ensures r.Success? ==>
      && r.value.id == id
      && r.value.row == row
      && r.value.store == st.(semaines := r.value.store.semaines)
      && r.value.store.semaines.rows == st.semaines.rows[id := r.value.row]
  {
    if row.owner !in st.batiments.rows then Failure(ValidationError("bande_id", Missing))
    else if id !in st.semaines.rows then Failure(NotFound(SemaineEntity, id))
    else
      match Constraints(st.semaines, row, Some(id))
      case Some(f) => Failure(Database(f))
      case None => Success(Write(st.(semaines := st.semaines.Put(id, row)), id, row))
  }

  /** Rewrites every column of week `id`, its weight bound so that it reads back. */
  function Update(st: Store, id: int, owner: int, numero: i32, poids: Option<real>): (r: Result<Write<Semaine>, AppError>)
    ensures owner !in st.batiments.rows ==> r == Failure(ValidationError("bande_id", Missing))
    ensures owner in st.batiments.rows && id !in st.semaines.rows ==> r == Failure(NotFound(SemaineEntity, id))
    ensures r.Success? <==>
      owner in st.batiments.rows && id in st.semaines.rows && 1 <= numero <= 9 && !KeyTaken(st.semaines, owner, numero, Some(id))
    ensures r.Success? ==>
      && r.value.id == id
      && r.value.row == Semaine(owner, numero, Bind(poids))
      && r.value.store == st.(semaines := r.value.store.semaines)
      && r.value.store.semaines.rows == st.semaines.rows[id := r.value.row]
  {
    RewriteWeek(st, id, Semaine(owner, numero, Bind(poids)))
  }

  /** The update as the repository writes it: a missing weight is stored as the empty text. */
  function UpdateAsWritten(st: Store, id: int, owner: int, numero: i32, poids: Option<real>): (r: Result<Write<Semaine>, AppError>)
    ensures r.Success? <==> Update(st, id, owner, numero, poids).Success?
    ensures r.Success? ==> r.value.row == Semaine(owner, numero, BindAsWritten(poids))
  {
    RewriteWeek(st, id, Semaine(owner, numero, BindAsWritten(poids)))
  }

  /** An updated week is read back with the weight it was given. */
  lemma UpdateThenGet(st: Store, id: int, owner: int, numero: i32, poids: Option<real>)
    requires Update(st, id, owner, numero, poids).Success?
    ensures var w := Update(st, id, owner, numero, poids).value;
      GetById(w.store, id) == Success(w.row) && ReadPoids(w.row.poids) == Success(poids)
  {
  }

  /** As written, clearing a week's weight makes the week unreadable. */
  lemma UpdateAsWrittenUnreadable(st: Store, id: int, owner: int, numero: i32)
    requires UpdateAsWritten(st, id, owner, numero, None).Success?
    ensures GetById(UpdateAsWritten(st, id, owner, numero, None).value.store, id) == Failure(Database(InvalidColumnType))
  {
  }

  /** Deletes week `id`; the foreign key's `ON DELETE CASCADE` removes its days. */
  function Delete(st: Store, id: int): (r: Result<Store, AppError>)
    ensures r.Failure? <==> id !in st.semaines.rows
    ensures r.Failure? ==> r.error == NotFound(SemaineEntity, id)
    ensures r.Success? ==>
      && (forall w :: w in r.value.semaines.rows <==> w in st.semaines.rows && w != id)
      && (forall d :: d in r.value.suivis.rows <==> d in st.suivis.rows && st.suivis.rows[d].semaineId != id)
      && r.value == st.(semaines := r.value.semaines, suivis := r.value.suivis)
  {
    if id !in st.semaines.rows then Failure(NotFound(SemaineEntity, id))
    else
      var days := set d | d in st.suivis.rows && st.suivis.rows[d].semaineId == id;
      Success(st.(semaines := st.semaines.Remove({id}), suivis := st.suivis.Remove(days)))
  }

  /** Whether a week of `owner` holds a weight stored as text. */
  ghost predicate TextWeight(t: Table<Semaine>, owner: int) {
    exists id :: id in t.rows && t.rows[id].owner == owner && t.rows[id].poids.Text?
  }

  /** The owner's rows ordered by week number, as the query returns them. */
  function Listing(st: Store, owner: int): (r: seq<(int, Semaine)>)
    ensures forall k :: 0 <= k < |r| ==>
      r[k].0 in st.semaines.rows && st.semaines.rows[r[k].0] == r[k].1 && r[k].1.owner == owner
    ensures st.semaines.Valid() ==>
      forall id :: id in st.semaines.rows && st.semaines.rows[id].owner == owner ==> (id, st.semaines.rows[id]) in r
    ensures forall j, k :: 0 <= j < k < |r| ==> r[j].1.numero <= r[k].1.numero
  {
    WhereOrderBy(st.semaines, (w: Semaine) => w.owner == owner, (w: Semaine) => w.numero)
  }

  /** The owner's weeks ordered by week number; the read fails when one of them holds a
      weight stored as text. */
  function GetByOwner(st: Store, owner: int): (r: Result<seq<(int, Semaine)>, AppError>)
    ensures r.Failure? ==> r.error == Database(InvalidColumnType) && TextWeight(st.semaines, owner)
    ensures st.semaines.Valid() && TextWeight(st.semaines, owner) ==> r.Failure?
    ensures r.Success? ==> r.value == Listing(st, owner)
    ensures r.Success? ==> forall k :: 0 <= k < |r.value| ==> !r.value[k].1.poids.Text?
  {
    var ws := Listing(st, owner);
    TextListed(st.semaines, owner, ws);
    if exists k :: 0 <= k < |ws| && ws[k].1.poids.Text? then Failure(Database(InvalidColumnType))
    else Success(ws)
  }

  /** A text weight shows in a listing of the owner's weeks, and only one of the owner's. */
  lemma TextListed(t: Table<Semaine>, owner: int, ws: seq<(int, Semaine)>)
    requires forall k :: 0 <= k < |ws| ==> ws[k].0 in t.rows && t.rows[ws[k].0] == ws[k].1 && ws[k].1.owner == owner
    requires t.Valid() ==> forall id :: id in t.rows && t.rows[id].owner == owner ==> (id, t.rows[id]) in ws
    ensures (exists k :: 0 <= k < |ws| && ws[k].1.poids.Text?) ==> TextWeight(t, owner)
    ensures t.Valid() && TextWeight(t, owner) ==> exists k :: 0 <= k < |ws| && ws[k].1.poids.Text?
  {
    if k :| 0 <= k < |ws| && ws[k].1.poids.Text? {
      var id := ws[k].0;
      assert id in t.rows && t.rows[id].owner == owner && t.rows[id].poids.Text?;
    }
    if t.Valid() && TextWeight(t, owner) {
      var id :| id in t.rows && t.rows[id].owner == owner && t.rows[id].poids.Text?;
      assert (id, t.rows[id]) in ws;
      var k :| 0 <= k < |ws| && ws[k] == (id, t.rows[id]);
      assert 0 <= k < |ws| && ws[k].1.poids.Text?;
    }
  }

  /** The week writes keep the schema's week constraints and foreign keys. */
  lemma CreateKeepsConsistent(st: Store, owner: int, numero: i32, poids: Option<real>)
    requires Consistent(st)
    requires Create(st, owner, numero, poids).Success?
    ensures Consistent(Create(st, owner, numero, poids).value.store)
  {
    var w := Create(st, owner, numero, poids).value;
    var t := w.store.semaines;
    forall a, b | a in t.rows && b in t.rows && a != b
      ensures t.rows[a].owner != t.rows[b].owner || t.rows[a].numero != t.rows[b].numero
    {
      if a == w.id || b == w.id {
        assert !KeyTaken(st.semaines, owner, numero, None);
      }
    }
  }

  lemma UpdateKeepsConsistent(st: Store, id: int, owner: int, numero: i32, poids: Option<real>)
    requires Consistent(st)
    requires Update(st, id, owner, numero, poids).Success?
    ensures Consistent(Update(st, id, owner, numero, poids).value.store)
  {
    var w := Update(st, id, owner, numero, poids).value;
    var t := w.store.semaines;
    forall a, b | a in t.rows && b in t.rows && a != b
      ensures t.rows[a].owner != t.rows[b].owner || t.rows[a].numero != t.rows[b].numero
    {
      if a == id || b == id {
        assert !KeyTaken(st.semaines, owner, numero, Some(id));
      }
    }
  }

  lemma DeleteKeepsConsistent(st: Store, id: int)
    requires Consistent(st)
    requires Delete(st, id).Success?
    ensures Consistent(Delete(st, id).value)
  {
  }
}
