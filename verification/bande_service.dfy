/** Creating a flock together with its buildings: each building is checked, inserted, and
    seeded with its first week and that week's seven days. Also the id guards of the
    service's reads and writes. */
module BandeService {
  import opened Wrappers
  import opened MachineInts
  import opened Errors
  import opened Tables
  import opened Records
  import opened Text
  import BandeRepository
  import BatimentRepository
  import SemaineRepository
  import SuiviRepository

  /** The checks run on each building before it is inserted, in order. */
  function CheckBuilding(d: BatimentRepository.Draft): (r: Option<AppError>)
    ensures r.None? <==> d.quantite > 0 && !IsBlank(d.numero) && d.poussinId >= 0
    ensures d.quantite <= 0 ==> r == Some(ValidationError("quantite", NotPositive))
    ensures d.quantite > 0 && IsBlank(d.numero) ==> r == Some(ValidationError("numero_batiment", Blank))
    ensures d.quantite > 0 && !IsBlank(d.numero) && d.poussinId < 0 ==> r == Some(ValidationError("poussin_id", Negative))
  {
    if d.quantite <= 0 then Some(ValidationError("quantite", NotPositive))
    else if IsBlank(d.numero) then Some(ValidationError("numero_batiment", Blank))
    else if d.poussinId < 0 then Some(ValidationError("poussin_id", Negative))
    else None
  }

  /** `st'` only adds buildings, weeks and days to `st`: every other table is untouched, no
      existing row changes and the AUTOINCREMENT counters only move forward. */
  ghost predicate Extends(st: Store, st': Store) {
    && st' == st.(batiments := st'.batiments, semaines := st'.semaines, suivis := st'.suivis)
    && st.batiments.next <= st'.batiments.next
    && st.semaines.next <= st'.semaines.next
    && st.suivis.next <= st'.suivis.next
    && (forall i :: i in st.batiments.rows ==> i in st'.batiments.rows && st'.batiments.rows[i] == st.batiments.rows[i])
    && (forall i :: i in st.semaines.rows ==> i in st'.semaines.rows && st'.semaines.rows[i] == st.semaines.rows[i])
    && (forall i :: i in st.suivis.rows ==> i in st'.suivis.rows && st'.suivis.rows[i] == st.suivis.rows[i])
  }

  /** `st'` has handed out at least the ids `st` has, in the three tables the service fills. */
  ghost predicate Before(st: Store, st': Store) {
    && st.batiments.next <= st'.batiments.next
    && st.semaines.next <= st'.semaines.next
    && st.suivis.next <= st'.suivis.next
  }

  /** The AUTOINCREMENT invariant of the three tables the service inserts into. */
  ghost predicate Counted(st: Store) {
    st.batiments.Valid() && st.semaines.Valid() && st.suivis.Valid()
  }

  lemma ExtendsTransitive(a: Store, b: Store, c: Store)
    requires Extends(a, b) && Extends(b, c)
    ensures Extends(a, c)
  {
  }

  /** Inserts the empty days `from` to 7 of week `semaineId`, in increasing age, and answers
      their ids. */
  function SeedDays(st: Store, semaineId: int, from: int): (r: Result<(Store, seq<int>), AppError>)
    requires 1 <= from <= 8
    requires Counted(st)
    ensures r.Success? ==>
      && Extends(st, r.value.0) && Counted(r.value.0)
      && r.value.0.batiments == st.batiments && r.value.0.semaines == st.semaines
      && |r.value.1| == 8 - from
      && forall k :: 0 <= k < |r.value.1| ==>
           && st.suivis.next <= r.value.1[k] < r.value.0.suivis.next
           && r.value.1[k] in r.value.0.suivis.rows
           && r.value.0.suivis.rows[r.value.1[k]] == EmptySuivi(semaineId, from + k)
    decreases 8 - from
  {
    if from == 8 then Success((st, []))
    else
      match SuiviRepository.Create(st, EmptySuivi(semaineId, from))
      case Failure(e) => Failure(e)
      case Success(w) =>
        match SeedDays(w.store, semaineId, from + 1)
        case Failure(e) => Failure(e)
        case Success(rest) => Success((rest.0, [w.id] + rest.1))
  }

  /** What seeding one building leaves behind: the building, its week 1 and that week's days. */
  datatype Planted = Planted(batimentId: int, semaineId: int, days: seq<int>)

  /** Building `d`, stored for flock `bandeId` after `st`, has week 1 without a weight and
      the seven empty days of ages 1 to 7, all with ids handed out after `st`. */
  ghost predicate PlantedIn(st: Store, st': Store, bandeId: int, d: BatimentRepository.Draft, p: Planted) {
    && st.batiments.next <= p.batimentId && p.batimentId in st'.batiments.rows
    && st'.batiments.rows[p.batimentId] == BatimentRepository.Row(d.(bandeId := bandeId))
    && st.semaines.next <= p.semaineId && p.semaineId in st'.semaines.rows
    && st'.semaines.rows[p.semaineId] == Semaine(p.batimentId, 1, Null)
    && |p.days| == 7
    && forall k :: 0 <= k < 7 ==>
         st.suivis.next <= p.days[k] && p.days[k] in st'.suivis.rows && st'.suivis.rows[p.days[k]] == EmptySuivi(p.semaineId, k + 1)
  }

  /** What a building planted before `b` still is after `b` grows into `c`. */
  lemma PlantedPersists(a: Store, b: Store, c: Store, bandeId: int, d: BatimentRepository.Draft, p: Planted)
    requires PlantedIn(a, b, bandeId, d, p) && Extends(b, c)
    ensures PlantedIn(a, c, bandeId, d, p)
  {
  }

  /** Checks, inserts and seeds one building of flock `bandeId`; the draft's own flock id is
      overwritten. */
  function PlantOne(st: Store, bandeId: int, d: BatimentRepository.Draft): (r: Result<(Store, Planted), AppError>)
    requires Counted(st)
    ensures CheckBuilding(d).Some? ==> r == Failure(CheckBuilding(d).value)
    ensures r.Success? ==> Extends(st, r.value.0) && Counted(r.value.0) && PlantedIn(st, r.value.0, bandeId, d, r.value.1)
  {
    match CheckBuilding(d)
    case Some(e) => Failure(e)
    case None =>
      match BatimentRepository.Create(st, d.(bandeId := bandeId))
      case Failure(e) => Failure(e)
      case Success(b) =>
        match SemaineRepository.Create(b.store, b.id, 1, None)
        case Failure(e) => Failure(e)
        case Success(w) =>
          match SeedDays(w.store, w.id, 1)
          case Failure(e) => Failure(e)
          case Success(seeded) =>
            PlantedBySteps(st, bandeId, d, b, w, seeded);
            Success((seeded.0, Planted(b.id, w.id, seeded.1)))
  }

  /** The three writes of `PlantOne` (building, week 1, its days) together plant the building. */
  lemma PlantedBySteps(st: Store, bandeId: int, d: BatimentRepository.Draft, b: Write<Batiment>, w: Write<Semaine>,
                       seeded: (Store, seq<int>))
    requires Counted(st)
    requires BatimentRepository.Create(st, d.(bandeId := bandeId)) == Success(b)
    requires SemaineRepository.Create(b.store, b.id, 1, None) == Success(w)
    requires Counted(w.store) && SeedDays(w.store, w.id, 1) == Success(seeded)
    ensures Extends(st, seeded.0) && Counted(seeded.0)
    ensures PlantedIn(st, seeded.0, bandeId, d, Planted(b.id, w.id, seeded.1))
  {
    assert Extends(st, b.store);
    assert Extends(b.store, w.store);
    ExtendsTransitive(st, b.store, w.store);
    ExtendsTransitive(st, w.store, seeded.0);
  }

  /** Each building of `ds` passed its checks and is planted from `st` to `st'` as `ps` says. */
  ghost predicate AllPlanted(st: Store, st': Store, bandeId: int, ds: seq<BatimentRepository.Draft>, ps: seq<Planted>) {
    && |ps| == |ds|
    && forall k :: 0 <= k < |ds| ==> CheckBuilding(ds[k]).None? && PlantedIn(st, st', bandeId, ds[k], ps[k])
  }

  /** Plants the buildings `ds` in order, stopping at the first failure. */
  function PlantAll(st: Store, bandeId: int, ds: seq<BatimentRepository.Draft>): (r: Result<(Store, seq<Planted>), AppError>)
    requires Counted(st)
    ensures r.Success? ==>
      Extends(st, r.value.0) && Counted(r.value.0) && AllPlanted(st, r.value.0, bandeId, ds, r.value.1)
    decreases |ds|
  {
    if |ds| == 0 then Success((st, []))
    else
      match PlantOne(st, bandeId, ds[0])
      case Failure(e) => Failure(e)
      case Success(first) =>
        match PlantAll(first.0, bandeId, ds[1..])
        case Failure(e) => Failure(e)
        case Success(rest) =>
          ExtendsTransitive(st, first.0, rest.0);
          PlantedShifted(first.0, rest.0, bandeId, ds, rest.1);
          PlantedCons(st, first.0, rest.0, bandeId, ds, first.1, rest.1);
          Success((rest.0, [first.1] + rest.1))
  }

  /** The buildings planted one after another, the first from `st` to `mid` and the others
      from `mid` to `fin`, are all planted from `st` to `fin`. */
  lemma PlantedCons(st: Store, mid: Store, fin: Store, bandeId: int, ds: seq<BatimentRepository.Draft>,
                    first: Planted, rest: seq<Planted>)
    requires |ds| > 0 && |rest| == |ds| - 1
    requires Before(st, mid) && Extends(mid, fin)
    requires CheckBuilding(ds[0]).None? && PlantedIn(st, mid, bandeId, ds[0], first)
    requires forall k :: 1 <= k < |ds| ==>
      CheckBuilding(ds[k]).None? && PlantedIn(mid, fin, bandeId, ds[k], rest[k - 1])
    ensures AllPlanted(st, fin, bandeId, ds, [first] + rest)
  {
    forall k | 0 <= k < |ds|
      ensures CheckBuilding(ds[k]).None? && PlantedIn(st, fin, bandeId, ds[k], ([first] + rest)[k])
    {
      if k == 0 {
        assert ([first] + rest)[0] == first;
        PlantedPersists(st, mid, fin, bandeId, ds[0], first);
      } else {
        assert ([first] + rest)[k] == rest[k - 1];
        PlantedEarlier(st, mid, fin, bandeId, ds[k], rest[k - 1]);
      }
    }
  }

  /** The buildings of the tail of `ds`, counted from 1 in `ds` itself. */
  lemma PlantedShifted(mid: Store, fin: Store, bandeId: int, ds: seq<BatimentRepository.Draft>, rest: seq<Planted>)
    requires |ds| > 0
    requires AllPlanted(mid, fin, bandeId, ds[1..], rest)
    ensures |rest| == |ds| - 1
    ensures forall k :: 1 <= k < |ds| ==>
      CheckBuilding(ds[k]).None? && PlantedIn(mid, fin, bandeId, ds[k], rest[k - 1])
  {
    forall k | 1 <= k < |ds|
      ensures CheckBuilding(ds[k]).None? && PlantedIn(mid, fin, bandeId, ds[k], rest[k - 1])
    {
      assert ds[1..][k - 1] == ds[k];
    }
  }

  /** A building planted after `mid` was also planted after any earlier `st`. */
  lemma PlantedEarlier(st: Store, mid: Store, fin: Store, bandeId: int, d: BatimentRepository.Draft, p: Planted)
    requires Before(st, mid) && PlantedIn(mid, fin, bandeId, d, p)
    ensures PlantedIn(st, fin, bandeId, d, p)
  {
  }

  /** The flock the service creates, with the store it leaves and what it planted. */
  datatype Created = Created(bande: Write<Bande>, planted: seq<Planted>)

  /** `create_bande_with_batiments_and_first_week`: an empty building list is refused before
      anything is written; then the flock is inserted and every building planted. */
  function CreateWithBuildings(st: Store, b: BandeRepository.Draft, ds: seq<BatimentRepository.Draft>): (r: Result<Created, AppError>)
    requires Counted(st)
    ensures |ds| == 0 ==> r == Failure(ValidationError("batiments", Empty))
    ensures BandeRepository.Parents(st, b).Some? && |ds| > 0 ==> r == Failure(BandeRepository.Parents(st, b).value)
    ensures r.Success? ==>
      var w := r.value.bande;
      && |ds| > 0
      && w.id == st.bandes.next
      && w.row == BandeRepository.Row(b, 0.0)
      && w.store.bandes.rows == st.bandes.rows[w.id := w.row]
      && Extends(st.(bandes := w.store.bandes), w.store)
      && |r.value.planted| == |ds|
      && forall k :: 0 <= k < |ds| ==>
           CheckBuilding(ds[k]).None? && PlantedIn(st, w.store, w.id, ds[k], r.value.planted[k])
  {
    if |ds| == 0 then Failure(ValidationError("batiments", Empty))
    else
      match BandeRepository.Create(st, b)
      case Failure(e) => Failure(e)
      case Success(w) =>
        match PlantAll(w.store, w.id, ds)
        case Failure(e) => Failure(e)
        case Success(planted) => Success(Created(Write(planted.0, w.id, w.row), planted.1))
  }

  /** A successful creation gives every building exactly the days 1 to 7 of its first week, in
      age order, at distinct ids. */
  lemma PlantedDaysDistinct(st: Store, b: BandeRepository.Draft, ds: seq<BatimentRepository.Draft>, k: int, i: int, j: int)
    requires Counted(st)
    requires CreateWithBuildings(st, b, ds).Success?
    requires 0 <= k < |ds| && 0 <= i < j < 7
    ensures var p := CreateWithBuildings(st, b, ds).value.planted[k];
      p.days[i] != p.days[j]
  {
  }

  /** The week insert as the service runs it, through the week repository's own pooled
      connection while the flock's transaction is still open. That connection sees only the
      committed store: an owner the transaction added is missing there, and for an owner it
      does see, the INSERT waits on the transaction's write lock until SQLite gives up. */
  function WeekElsewhere(committed: Store, owner: int): (e: AppError)
    ensures owner !in committed.batiments.rows <==> e == ValidationError("bande_id", Missing)
    ensures owner in committed.batiments.rows <==> e == Database(Busy)
  {
    if owner !in committed.batiments.rows then ValidationError("bande_id", Missing) else Database(Busy)
  }

  /** `create_bande_with_batiments_and_first_week` as written: the flock and the first
      building are written inside the transaction, the first building's week goes to
      another connection and fails, and the `?` that returns drops the transaction, which
      rolls the flock and the building back. Nothing is stored. */
  function CreateWithBuildingsAsWritten(st: Store, b: BandeRepository.Draft, ds: seq<BatimentRepository.Draft>): (r: Result<Created, AppError>)
    requires Counted(st)
    ensures r.Failure?
    ensures |ds| == 0 ==> r == Failure(ValidationError("batiments", Empty))
    ensures BandeRepository.Parents(st, b).Some? && |ds| > 0 ==> r == Failure(BandeRepository.Parents(st, b).value)
    ensures BandeRepository.Parents(st, b).None? && |ds| > 0 && CheckBuilding(ds[0]).Some? ==> r == Failure(CheckBuilding(ds[0]).value)
  {
    if |ds| == 0 then Failure(ValidationError("batiments", Empty))
    else
      match BandeRepository.Create(st, b)
      case Failure(e) => Failure(e)
      case Success(w) =>
        match CheckBuilding(ds[0])
        case Some(e) => Failure(e)
        case None =>
          match BatimentRepository.Create(w.store, ds[0].(bandeId := w.id))
          case Failure(e) => Failure(e)
          case Success(bat) => Failure(WeekElsewhere(st, bat.id))
  }

  /** Wherever the creation with every write on the transaction's connection succeeds, the
      creation as written fails: the first building's week finds no building. */
  lemma CreateWithBuildingsAsWrittenFails(st: Store, b: BandeRepository.Draft, ds: seq<BatimentRepository.Draft>)
    requires Counted(st)
    requires CreateWithBuildings(st, b, ds).Success?
    ensures CreateWithBuildingsAsWritten(st, b, ds) == Failure(ValidationError("bande_id", Missing))
  {
    var w := BandeRepository.Create(st, b).value;
    assert Counted(w.store);
    assert PlantAll(w.store, w.id, ds).Success?;
    assert PlantOne(w.store, w.id, ds[0]).Success?;
    var bat := BatimentRepository.Create(w.store, ds[0].(bandeId := w.id)).value;
    assert bat.id == st.batiments.next;
    assert bat.id !in st.batiments.rows;
  }

  /** `get_bande_by_id` after the id guard. */
  function GetById(st: Store, id: int): (r: Result<BandeRepository.Detail, AppError>)
    ensures id <= 0 ==> r == Failure(ValidationError("id", NotPositive))
    ensures id > 0 ==> r == BandeRepository.GetById(st, id)
  {
    if id <= 0 then Failure(ValidationError("id", NotPositive)) else BandeRepository.GetById(st, id)
  }

  /** `update_bande` after the id guard. */
  function Update(st: Store, id: int, d: BandeRepository.Draft): (r: Result<Write<Bande>, AppError>)
    ensures id <= 0 ==> r == Failure(ValidationError("id", NotPositive))
    ensures id > 0 ==> r == BandeRepository.Update(st, id, d)
  {
    if id <= 0 then Failure(ValidationError("id", NotPositive)) else BandeRepository.Update(st, id, d)
  }

  /** `delete_bande`: the id guard, then the flock is read (with its joins) and an unreadable
      one is NotFound before anything is deleted. */
  function Delete(st: Store, id: int): (r: Result<Store, AppError>)
    ensures id <= 0 ==> r == Failure(ValidationError("id", NotPositive))
    ensures id > 0 && BandeRepository.GetById(st, id).Failure? ==> r == Failure(NotFound(BandeEntity, id))
    ensures r.Success? <==> id > 0 && BandeRepository.GetById(st, id).Success?
    ensures r.Success? ==> r == BandeRepository.Delete(st, id)
  {
    if id <= 0 then Failure(ValidationError("id", NotPositive))
    else match BandeRepository.GetById(st, id)
      case Failure(e) => Failure(e)
      case Success(_) => BandeRepository.Delete(st, id)
  }
}
