/** The week service behind the daily-tracking grid: it shows a building's weeks 1 to 8, each
    with seven day slots, creating any missing week row on the way; it updates a week's weight;
    and it creates the missing weeks of a building. */
module SemaineService {
  import opened Wrappers
  import opened MachineInts
  import opened Errors
  import opened Tables
  import opened Records
  import SemaineRepository
  import SuiviRepository

  /** A day slot of the grid: a stored day with its id, or an empty virtual day (`id: None`)
      that exists only in the answer. */
  datatype DayView = DayView(id: Option<int>, suivi: Suivi)

  /** A week of the grid with its seven day slots. */
  datatype WeekView = WeekView(id: int, week: Semaine, days: seq<DayView>)

  /** The day with age `age` among a week's days, if any: the first in their order. */
  function FirstAged(days: seq<(int, Suivi)>, age: int): (r: Option<(int, Suivi)>)
    ensures r.Some? ==> r.value in days && r.value.1.age == age
    ensures r.None? <==> forall k :: 0 <= k < |days| ==> days[k].1.age != age
  {
    if |days| == 0 then None
    else if days[0].1.age == age then Some(days[0])
    else FirstAged(days[1..], age)
  }

  /** The fetched days are stored days of week `weekId`. */
  ghost predicate Fetched(st: Store, weekId: int, days: seq<(int, Suivi)>) {
    forall k :: 0 <= k < |days| ==>
      days[k].0 in st.suivis.rows && st.suivis.rows[days[k].0] == days[k].1 && days[k].1.semaineId == weekId
  }

  /** The slot for day `age` among the fetched days of week `weekId`: the stored day, or an
      empty virtual one. */
  function Day(st: Store, weekId: int, days: seq<(int, Suivi)>, age: int): (r: DayView)
    requires Fetched(st, weekId, days)
    ensures r.suivi.semaineId == weekId && r.suivi.age == age
    ensures r.id.Some? ==> r.id.value in st.suivis.rows && st.suivis.rows[r.id.value] == r.suivi
    ensures r.id.None? ==> r.suivi == EmptySuivi(weekId, age)
  {
    match FirstAged(days, age)
    case Some(p) => DayView(Some(p.0), p.1)
    case None => DayView(None, EmptySuivi(weekId, age))
  }

  /** `count` consecutive slots starting at day `age`. */
  function Slots(st: Store, weekId: int, days: seq<(int, Suivi)>, age: int, count: nat): (r: seq<DayView>)
    requires Fetched(st, weekId, days)
    decreases count
    ensures |r| == count
    ensures forall d :: 0 <= d < count ==> r[d].suivi.semaineId == weekId && r[d].suivi.age == age + d
    ensures forall d :: 0 <= d < count && r[d].id.Some? ==>
      r[d].id.value in st.suivis.rows && st.suivis.rows[r[d].id.value] == r[d].suivi
    ensures forall d :: 0 <= d < count && r[d].id.None? ==> r[d].suivi == EmptySuivi(weekId, age + d)
  {
    if count == 0 then [] else [Day(st, weekId, days, age)] + Slots(st, weekId, days, age + 1, count - 1)
  }

  /** Every stored day of week `weekId` was fetched. */
  ghost predicate Complete(st: Store, weekId: int, days: seq<(int, Suivi)>) {
    forall id :: id in st.suivis.rows && st.suivis.rows[id].semaineId == weekId ==> (id, st.suivis.rows[id]) in days
  }

  /** When every day of the week was fetched, a virtual slot stands for an age no stored day
      of the week has. */
  lemma {:induction false} SlotsVirtualOnlyWhenAbsent(st: Store, weekId: int, days: seq<(int, Suivi)>, age: int, count: nat)
    requires Fetched(st, weekId, days)
    decreases count
    ensures Complete(st, weekId, days) ==>
      forall d :: 0 <= d < count && Slots(st, weekId, days, age, count)[d].id.None? ==>
        forall id :: id in st.suivis.rows ==> st.suivis.rows[id].semaineId != weekId || st.suivis.rows[id].age != age + d
  {
    if count > 0 && Complete(st, weekId, days) {
      SlotsVirtualOnlyWhenAbsent(st, weekId, days, age + 1, count - 1);
      var r := Slots(st, weekId, days, age, count);
      var rest := Slots(st, weekId, days, age + 1, count - 1);
      assert forall d :: 1 <= d < count ==> r[d] == rest[d - 1];
      if FirstAged(days, age).None? {
        forall id | id in st.suivis.rows && st.suivis.rows[id].semaineId == weekId
          ensures st.suivis.rows[id].age != age
        {
          var k :| 0 <= k < |days| && days[k] == (id, st.suivis.rows[id]);
        }
      }
    }
  }

  /** `days` are the seven slots of week `weekId`, number `numero`: ages `(numero - 1) * 7 + 1`
      to `numero * 7` in order, each the stored day of that age or an empty virtual day, and
      virtual only where the table holds no day of that week and age. */
  ghost predicate ShowsWeek(st: Store, weekId: int, numero: int, days: seq<DayView>) {
    && |days| == 7
    && (forall d :: 0 <= d < 7 ==> days[d].suivi.semaineId == weekId && days[d].suivi.age == (numero - 1) * 7 + 1 + d)
    && (forall d :: 0 <= d < 7 && days[d].id.Some? ==>
          days[d].id.value in st.suivis.rows && st.suivis.rows[days[d].id.value] == days[d].suivi)
    && (forall d :: 0 <= d < 7 && days[d].id.None? ==> days[d].suivi == EmptySuivi(weekId, (numero - 1) * 7 + 1 + d))
    && (st.suivis.Valid() ==> forall d :: 0 <= d < 7 && days[d].id.None? ==>
          forall id :: id in st.suivis.rows ==>
            st.suivis.rows[id].semaineId != weekId || st.suivis.rows[id].age != (numero - 1) * 7 + 1 + d)
  }

  /** Reads a week's days and lays them out as its seven slots. */
  method WeekDays(st: Store, weekId: int, numero: int) returns (r: seq<DayView>)
    ensures ShowsWeek(st, weekId, numero, r)
  {
    var days := SuiviRepository.GetBySemaine(st, weekId);
    assert st.suivis.Valid() ==> Complete(st, weekId, days);
    r := Slots(st, weekId, days, (numero - 1) * 7 + 1, 7);
    SlotsVirtualOnlyWhenAbsent(st, weekId, days, (numero - 1) * 7 + 1, 7);
  }

  /** The map from week number to week that the service builds from the building's week
      list: for a number listed twice, the later entry wins. */
  function Index(known: seq<(int, Semaine)>): (m: map<int, (int, Semaine)>)
    ensures forall n :: n in m ==> m[n] in known && m[n].1.numero as int == n
    ensures forall k :: 0 <= k < |known| ==> known[k].1.numero as int in m
    ensures |known| > 0 ==> m[known[|known| - 1].1.numero as int] == known[|known| - 1]
  {
    if |known| == 0 then map[]
    else Index(known[..|known| - 1])[known[|known| - 1].1.numero as int := known[|known| - 1]]
  }

  /** The indexed weeks are stored weeks of `owner`, each under its own number. */
  ghost predicate Listed(st: Store, owner: int, index: map<int, (int, Semaine)>) {
    forall n :: n in index ==>
      && index[n].0 in st.semaines.rows && st.semaines.rows[index[n].0] == index[n].1
      && index[n].1.owner == owner && index[n].1.numero as int == n
  }

  /** Every stored week of `owner` numbered `from` or higher has its number indexed. */
  ghost predicate Covers(st: Store, owner: int, index: map<int, (int, Semaine)>, from: int) {
    forall id :: id in st.semaines.rows && st.semaines.rows[id].owner == owner && st.semaines.rows[id].numero >= from
      ==> st.semaines.rows[id].numero as int in index
  }

  /** `st'` differs from `st` only by added weeks. */
  ghost predicate Grows(st: Store, st': Store) {
    && st' == st.(semaines := st'.semaines)
    && (forall id :: id in st.semaines.rows ==> id in st'.semaines.rows && st'.semaines.rows[id] == st.semaines.rows[id])
    && (st.semaines.Valid() ==> st'.semaines.Valid())
  }

  lemma GrowsTransitive(a: Store, b: Store, c: Store)
    requires Grows(a, b) && Grows(b, c)
    ensures Grows(a, c)
  {
  }

  /** The building's week list, read once, and the service's map of it by number. The read
      fails when one of the building's weights is stored as text. Under a valid table the
      list holds every week of the building, and under the UNIQUE key the map holds the
      stored week of each number. */
  method ReadWeeks(st: Store, owner: int) returns (known: seq<(int, Semaine)>, index: map<int, (int, Semaine)>, failure: Option<AppError>)
    requires st.semaines.Valid()
    ensures failure.Some? <==> SemaineRepository.TextWeight(st.semaines, owner)
    ensures failure.Some? ==> failure.value == Database(InvalidColumnType)
    ensures forall k :: 0 <= k < |known| ==>
      known[k].0 in st.semaines.rows && st.semaines.rows[known[k].0] == known[k].1 && known[k].1.owner == owner
    ensures failure.None? ==>
      forall id :: id in st.semaines.rows && st.semaines.rows[id].owner == owner ==> (id, st.semaines.rows[id]) in known
    ensures SortedBy(known, (w: (int, Semaine)) => w.1.numero as int)
    ensures forall k :: 0 <= k < |known| ==> known[k].1.numero as int in index
    ensures Listed(st, owner, index)
    ensures failure.None? ==> Covers(st, owner, index, 1)
    ensures failure.None? && SemainesKeyed(st.semaines) ==>
      forall id :: id in st.semaines.rows && st.semaines.rows[id].owner == owner ==>
        index[st.semaines.rows[id].numero as int] == (id, st.semaines.rows[id])
  {
    var read := SemaineRepository.GetByOwner(st, owner);
    if read.Failure? {
      return [], map[], Some(read.error);
    }
    known, failure := read.value, None;
    assert known == SemaineRepository.Listing(st, owner);
    index := Index(known);
    forall id | id in st.semaines.rows && st.semaines.rows[id].owner == owner
      ensures st.semaines.rows[id].numero as int in index
    {
      assert (id, st.semaines.rows[id]) in known;
      var k :| 0 <= k < |known| && known[k] == (id, st.semaines.rows[id]);
      assert known[k].1.numero as int in index;
    }
  }

  /** One turn of the service's loop over the numbers 1 to 8: the indexed week numbered `n`,
      or a new empty one. */
  method WeekFor(st: Store, owner: int, index: map<int, (int, Semaine)>, n: int) returns (st': Store, r: Result<(int, Semaine), AppError>)
    requires 1 <= n <= 8
    requires st.semaines.Valid() && Listed(st, owner, index) && Covers(st, owner, index, n)
    ensures Grows(st, st') && Listed(st', owner, index) && Covers(st', owner, index, n + 1)
    ensures Consistent(st) ==> Consistent(st')
    ensures forall id :: id in st'.semaines.rows && id !in st.semaines.rows ==>
      st'.semaines.rows[id] == Semaine(owner, n as i32, Null) && n !in index && r.Success? && r.value.0 == id
    ensures n in index ==> st' == st && r == Success(index[n])
    ensures n !in index && r.Success? ==> r.value.0 !in st.semaines.rows
    ensures r.Failure? ==> owner !in st.batiments.rows && r.error == ValidationError("bande_id", Missing)
    ensures owner !in st.batiments.rows ==> st' == st
    ensures owner in st.batiments.rows ==> r.Success?
    ensures r.Success? ==>
      r.value.1.numero as int == n && r.value.1.owner == owner
      && r.value.0 in st'.semaines.rows && st'.semaines.rows[r.value.0] == r.value.1
  {
    if n in index {
      st', r := st, Success(index[n]);
    } else {
      var created := SemaineRepository.Create(st, owner, n as i32, None);
      if created.Failure? {
        st', r := st, Failure(created.error);
      } else {
        st', r := created.value.store, Success((created.value.id, created.value.row));
        if Consistent(st) {
          SemaineRepository.CreateKeepsConsistent(st, owner, n as i32, None);
        }
      }
    }
  }

  /** Each week added since `st` is an empty week of `owner` for a number the index lacked,
      and `weeks` holds it at its number's place. */
  ghost predicate NewWeeks(st: Store, st': Store, owner: int, index: map<int, (int, Semaine)>, weeks: seq<(int, Semaine)>) {
    forall id :: id in st'.semaines.rows && id !in st.semaines.rows ==>
      && st'.semaines.rows[id].owner == owner && st'.semaines.rows[id].poids.Null?
      && 1 <= st'.semaines.rows[id].numero as int <= |weeks| && st'.semaines.rows[id].numero as int !in index
      && weeks[st'.semaines.rows[id].numero as int - 1].0 == id
  }

  /** `weeks` lists stored weeks of `owner` numbered 1, 2, …, the indexed one wherever the
      index has the number. */
  ghost predicate WeeksSoFar(st': Store, owner: int, index: map<int, (int, Semaine)>, weeks: seq<(int, Semaine)>) {
    && (forall k :: 0 <= k < |weeks| ==> weeks[k].1.numero as int == k + 1 && weeks[k].1.owner == owner)
    && (forall k :: 0 <= k < |weeks| ==> weeks[k].0 in st'.semaines.rows && st'.semaines.rows[weeks[k].0] == weeks[k].1)
    && (forall k :: 0 <= k < |weeks| && k + 1 in index ==> weeks[k] == index[k + 1])
  }

  /** The state of the service's loop after the weeks numbered 1 to `|weeks|`. */
  ghost predicate Progress(st: Store, st': Store, owner: int, index: map<int, (int, Semaine)>, weeks: seq<(int, Semaine)>) {
    && |weeks| <= 8
    && Grows(st, st') && Listed(st', owner, index) && Covers(st', owner, index, |weeks| + 1)
    && (owner !in st.batiments.rows ==> st' == st)
    && ((forall m :: 1 <= m <= 8 ==> m in index) ==> st' == st)
    && NewWeeks(st, st', owner, index, weeks)
    && WeeksSoFar(st', owner, index, weeks)
  }

  lemma StepNewWeeks(st: Store, cur: Store, next: Store, owner: int, index: map<int, (int, Semaine)>,
                     weeks: seq<(int, Semaine)>, w: (int, Semaine))
    requires |weeks| < 8
    requires NewWeeks(st, cur, owner, index, weeks)
    requires forall id :: id in cur.semaines.rows ==> id in next.semaines.rows && next.semaines.rows[id] == cur.semaines.rows[id]
    requires forall id :: id in next.semaines.rows && id !in cur.semaines.rows ==>
      next.semaines.rows[id] == Semaine(owner, (|weeks| + 1) as i32, Null) && |weeks| + 1 !in index && w.0 == id
    ensures NewWeeks(st, next, owner, index, weeks + [w])
  {
    var weeks' := weeks + [w];
    forall id | id in next.semaines.rows && id !in st.semaines.rows
      ensures && next.semaines.rows[id].owner == owner && next.semaines.rows[id].poids.Null?
              && 1 <= next.semaines.rows[id].numero as int <= |weeks'| && next.semaines.rows[id].numero as int !in index
              && weeks'[next.semaines.rows[id].numero as int - 1].0 == id
    {
      if id in cur.semaines.rows {
        assert weeks'[cur.semaines.rows[id].numero as int - 1] == weeks[cur.semaines.rows[id].numero as int - 1];
      } else {
        assert weeks'[|weeks|] == w;
      }
    }
  }

  lemma StepWeeksSoFar(cur: Store, after: Store, owner: int, index: map<int, (int, Semaine)>,
                       weeks: seq<(int, Semaine)>, w: (int, Semaine))
    requires WeeksSoFar(cur, owner, index, weeks)
    requires forall id :: id in cur.semaines.rows ==> id in after.semaines.rows && after.semaines.rows[id] == cur.semaines.rows[id]
    requires w.1.numero as int == |weeks| + 1 && w.1.owner == owner
    requires w.0 in after.semaines.rows && after.semaines.rows[w.0] == w.1
    requires |weeks| + 1 in index ==> w == index[|weeks| + 1]
    ensures WeeksSoFar(after, owner, index, weeks + [w])
  {
    var weeks' := weeks + [w];
    forall k | 0 <= k < |weeks'|
      ensures weeks'[k].0 in after.semaines.rows && after.semaines.rows[weeks'[k].0] == weeks'[k].1
    {
      if k < |weeks| {
        assert weeks'[k] == weeks[k];
        var id := weeks[k].0;
        assert id in cur.semaines.rows;
        assert id in after.semaines.rows;
      }
    }
    assert forall k :: 0 <= k < |weeks| ==> weeks'[k] == weeks[k];
  }

  /** One turn of the service's loop: the week numbered `|weeks| + 1` is added to `weeks`,
      or the create fails. */
  method Advance(st: Store, cur: Store, owner: int, index: map<int, (int, Semaine)>, weeks: seq<(int, Semaine)>)
    returns (next: Store, weeks': seq<(int, Semaine)>, failure: Option<AppError>)
    requires |weeks| < 8 && st.semaines.Valid() && Progress(st, cur, owner, index, weeks)
    ensures failure.None? ==> Progress(st, next, owner, index, weeks') && |weeks'| == |weeks| + 1
    ensures failure.Some? ==>
      next == cur && owner !in st.batiments.rows && failure.value == ValidationError("bande_id", Missing)
  {
    var n := |weeks| + 1;
    var week;
    next, week := WeekFor(cur, owner, index, n);
    if week.Failure? {
      return next, weeks, Some(week.error);
    }
    assert forall id :: id in cur.semaines.rows ==> id in next.semaines.rows && next.semaines.rows[id] == cur.semaines.rows[id];
    StepNewWeeks(st, cur, next, owner, index, weeks, week.value);
    StepWeeksSoFar(cur, next, owner, index, weeks, week.value);
    GrowsTransitive(st, cur, next);
    weeks', failure := weeks + [week.value], None;
  }

  /** The service's loop over the numbers 1 to 8. */
  method WalkWeeks(st: Store, owner: int, index: map<int, (int, Semaine)>)
    returns (st': Store, weeks: seq<(int, Semaine)>, failure: Option<AppError>)
    requires st.semaines.Valid() && Listed(st, owner, index) && Covers(st, owner, index, 1)
    ensures failure.None? ==> Progress(st, st', owner, index, weeks) && |weeks| == 8
    ensures failure.Some? ==>
      st' == st && owner !in st.batiments.rows && failure.value == ValidationError("bande_id", Missing)
  {
    st', weeks, failure := st, [], None;
    while |weeks| < 8
      invariant Progress(st, st', owner, index, weeks)
    {
      var next, more, stop := Advance(st, st', owner, index, weeks);
      if stop.Some? {
        return st, weeks, stop;
      }
      st', weeks := next, more;
    }
  }

  /** When the building already has every number 1 to 8, the index has them all. */
  lemma TakenIndexed(st: Store, owner: int, index: map<int, (int, Semaine)>)
    requires Covers(st, owner, index, 1)
    ensures (forall m :: 1 <= m <= 8 ==> SemaineRepository.KeyTaken(st.semaines, owner, m, None)) ==>
      forall m :: 1 <= m <= 8 ==> m in index
  {
    if forall m :: 1 <= m <= 8 ==> SemaineRepository.KeyTaken(st.semaines, owner, m, None) {
      forall m | 1 <= m <= 8
        ensures m in index
      {
        assert SemaineRepository.KeyTaken(st.semaines, owner, m, None);
        var id :| id in st.semaines.rows && st.semaines.rows[id].owner == owner && st.semaines.rows[id].numero == m;
      }
    }
  }

  /** The weeks 1 to 8 of building `owner`, in number order: the stored week of each number,
      or a week created for it without a weight. Each create is a write of its own, so the
      store is returned beside the answer. */
  method EnsureWeeks(st: Store, owner: int) returns (st': Store, r: Result<seq<(int, Semaine)>, AppError>)
    requires st.semaines.Valid()
    ensures Grows(st, st')
    ensures Consistent(st) ==> Consistent(st')
    // a created week is an empty week for a number 1 to 8 the building did not have
    ensures forall id :: id in st'.semaines.rows && id !in st.semaines.rows ==>
      && st'.semaines.rows[id].owner == owner && st'.semaines.rows[id].poids.Null?
      && 1 <= st'.semaines.rows[id].numero <= 8
      && !SemaineRepository.KeyTaken(st.semaines, owner, st'.semaines.rows[id].numero as int, None)
    // a building that has all eight weeks gets no write
    ensures (forall n :: 1 <= n <= 8 ==> SemaineRepository.KeyTaken(st.semaines, owner, n, None)) ==> st' == st
    // a weight stored as text fails the first read; otherwise the only failure is a missing
    // building; neither writes anything
    ensures SemaineRepository.TextWeight(st.semaines, owner) ==> st' == st && r == Failure(Database(InvalidColumnType))
    ensures r.Failure? && !SemaineRepository.TextWeight(st.semaines, owner) ==>
      st' == st && owner !in st.batiments.rows && r.error == ValidationError("bande_id", Missing)
    ensures owner in st.batiments.rows && !SemaineRepository.TextWeight(st.semaines, owner) ==> r.Success?
    ensures r.Success? ==> |r.value| == 8
    ensures r.Success? ==> forall k :: 0 <= k < |r.value| ==> r.value[k].1.numero as int == k + 1 && r.value[k].1.owner == owner
    ensures r.Success? ==> forall k :: 0 <= k < |r.value| ==>
      r.value[k].0 in st'.semaines.rows && st'.semaines.rows[r.value[k].0] == r.value[k].1
    // an existing week is the one used for its number
    ensures r.Success? && SemainesKeyed(st.semaines) ==>
      forall id :: id in st.semaines.rows && st.semaines.rows[id].owner == owner && 1 <= st.semaines.rows[id].numero <= 8 ==>
        r.value[st.semaines.rows[id].numero - 1].0 == id
  {
    var known, index, unread := ReadWeeks(st, owner);
    if unread.Some? {
      return st, Failure(unread.value);
    }
    TakenIndexed(st, owner, index);
    var weeks, failure;
    st', weeks, failure := WalkWeeks(st, owner, index);
    if failure.Some? {
      return st', Failure(failure.value);
    }
    r := Success(weeks);
    if Consistent(st) {
      AddedWeeksKeepConsistent(st, st', owner);
    }
  }

  /** Weeks added for distinct numbers, of an existing building, with numbers 1 to 8 it did
      not have, keep the week/day invariant. */
  lemma AddedWeeksKeepConsistent(st: Store, st': Store, owner: int)
    requires Consistent(st) && Grows(st, st')
    requires owner !in st.batiments.rows ==> st' == st
    requires forall id :: id in st'.semaines.rows && id !in st.semaines.rows ==>
      && st'.semaines.rows[id].owner == owner && st'.semaines.rows[id].poids.Null?
      && 1 <= st'.semaines.rows[id].numero <= 8
      && !SemaineRepository.KeyTaken(st.semaines, owner, st'.semaines.rows[id].numero as int, None)
    requires forall a, b :: a in st'.semaines.rows && a !in st.semaines.rows && b in st'.semaines.rows && b !in st.semaines.rows && a != b ==>
      st'.semaines.rows[a].numero != st'.semaines.rows[b].numero
    ensures Consistent(st')
  {
    var t := st'.semaines;
    forall a, b | a in t.rows && b in t.rows && a != b
      ensures t.rows[a].owner != t.rows[b].owner || t.rows[a].numero != t.rows[b].numero
    {
      if a !in st.semaines.rows && b in st.semaines.rows {
        assert !SemaineRepository.KeyTaken(st.semaines, owner, t.rows[a].numero as int, None);
      } else if b !in st.semaines.rows && a in st.semaines.rows {
        assert !SemaineRepository.KeyTaken(st.semaines, owner, t.rows[b].numero as int, None);
      }
    }
  }

  /** The grid of building `owner`: weeks 1 to 8, each with its seven day slots (see
      `EnsureWeeks` for the weeks). Days are never created here; the slots are read from the
      day table, which creating weeks does not touch. */
  method FullSemaines(st: Store, owner: int) returns (st': Store, r: Result<seq<WeekView>, AppError>)
    requires st.semaines.Valid()
    ensures Grows(st, st')
    ensures Consistent(st) ==> Consistent(st')
    ensures forall id :: id in st'.semaines.rows && id !in st.semaines.rows ==> st'.semaines.rows[id].poids.Null?
    ensures SemaineRepository.TextWeight(st.semaines, owner) ==> st' == st && r == Failure(Database(InvalidColumnType))
    ensures r.Failure? && !SemaineRepository.TextWeight(st.semaines, owner) ==>
      st' == st && owner !in st.batiments.rows && r.error == ValidationError("bande_id", Missing)
    ensures owner in st.batiments.rows && !SemaineRepository.TextWeight(st.semaines, owner) ==> r.Success?
    ensures r.Success? ==> |r.value| == 8
    ensures r.Success? ==> forall k :: 0 <= k < |r.value| ==>
      && r.value[k].week.numero as int == k + 1 && r.value[k].week.owner == owner
      && r.value[k].id in st'.semaines.rows && st'.semaines.rows[r.value[k].id] == r.value[k].week
    ensures r.Success? ==> forall k :: 0 <= k < |r.value| ==> ShowsWeek(st', r.value[k].id, k + 1, r.value[k].days)
    ensures (forall n :: 1 <= n <= 8 ==> SemaineRepository.KeyTaken(st.semaines, owner, n, None)) ==> st' == st
  {
    var weeks;
    st', weeks := EnsureWeeks(st, owner);
    if weeks.Failure? {
      return st', Failure(weeks.error);
    }
    var ws := weeks.value;
    var views: seq<WeekView> := [];
    while |views| < 8
      invariant |views| <= 8
      invariant forall k :: 0 <= k < |views| ==> views[k].id == ws[k].0 && views[k].week == ws[k].1
      invariant forall k :: 0 <= k < |views| ==> ShowsWeek(st', views[k].id, k + 1, views[k].days)
    {
      var k := |views|;
      var days := WeekDays(st', ws[k].0, k + 1);
      var view := WeekView(ws[k].0, ws[k].1, days);
      assert forall j :: 0 <= j < k ==> (views + [view])[j] == views[j];
      views := views + [view];
    }
    r := Success(views);
  }

  /** Showing the grid twice in a row: the first showing leaves the building with all eight
      weeks, each readable, so the second one writes nothing and answers too. */
  method FullSemainesTwice(st: Store, owner: int) returns (st1: Store, st2: Store, r: Result<seq<WeekView>, AppError>)
    requires st.semaines.Valid()
    ensures owner in st.batiments.rows && !SemaineRepository.TextWeight(st.semaines, owner) ==> st2 == st1 && r.Success?
  {
    var first;
    st1, first := FullSemaines(st, owner);
    if first.Success? {
      if !SemaineRepository.TextWeight(st.semaines, owner) {
        forall id | id in st1.semaines.rows && st1.semaines.rows[id].owner == owner
          ensures !st1.semaines.rows[id].poids.Text?
        {
          if id in st.semaines.rows {
            assert st1.semaines.rows[id] == st.semaines.rows[id];
          }
        }
      }
      forall n | 1 <= n <= 8
        ensures SemaineRepository.KeyTaken(st1.semaines, owner, n, None)
      {
        var w := first.value[n - 1];
        assert w.id in st1.semaines.rows && st1.semaines.rows[w.id] == w.week;
      }
    }
    st2, r := FullSemaines(st1, owner);
  }

  /** Sets a week's weight, keeping its building and number; the week is read first, so a
      weight stored as text fails the update. */
  function UpdatePoids(st: Store, id: int, poids: Option<real>): (r: Result<Write<Semaine>, AppError>)
    ensures id !in st.semaines.rows ==> r == Failure(NotFound(SemaineEntity, id))
    ensures id in st.semaines.rows && st.semaines.rows[id].poids.Text? ==> r == Failure(Database(InvalidColumnType))
    ensures id in st.semaines.rows && Consistent(st) ==> r.Success?
    ensures r.Success? ==> SemaineRepository.ReadPoids(r.value.row.poids) == Success(poids)
    ensures r.Success? ==>
      && r.value.id == id && r.value.row == st.semaines.rows[id].(poids := SemaineRepository.Bind(poids))
      && r.value.store == st.(semaines := r.value.store.semaines)
      && r.value.store.semaines.rows == st.semaines.rows[id := r.value.row]
  {
    match SemaineRepository.GetById(st, id)
    case Failure(e) => Failure(e)
    case Success(week) =>
      assert Consistent(st) ==> !SemaineRepository.KeyTaken(st.semaines, week.owner, week.numero as int, Some(id));
      SemaineRepository.Update(st, id, week.owner, week.numero, poids)
  }

  /** The numbers the listed weeks carry. */
  function Numbers(weeks: seq<(int, Semaine)>): set<int> {
    set k | 0 <= k < |weeks| :: weeks[k].1.numero as int
  }

  /** The state of the initializing loop before number `n`: only weeks were added, each an
      empty week of `owner` for a number below `n` the index lacked, and `created` lists them. */
  ghost predicate Gathered(st: Store, st': Store, owner: int, index: map<int, (int, Semaine)>, created: seq<(int, Semaine)>, n: int) {
    && 1 <= n <= 9
    && Grows(st, st') && Listed(st', owner, index) && Covers(st', owner, index, n)
    && (Consistent(st) ==> Consistent(st'))
    && (owner !in st.batiments.rows ==> st' == st)
    && ((forall m :: 1 <= m <= 8 ==> m in index) ==> st' == st)
    && CreatedWeeks(st, st', owner, index, created, n)
  }

  /** The weeks added since `st` are empty weeks of `owner` for numbers below `n` the index
      lacked; `created` lists exactly those weeks and covers every such number. */
  ghost predicate CreatedWeeks(st: Store, st': Store, owner: int, index: map<int, (int, Semaine)>, created: seq<(int, Semaine)>, n: int) {
    && (forall id :: id in st'.semaines.rows && id !in st.semaines.rows ==>
          && st'.semaines.rows[id].owner == owner && st'.semaines.rows[id].poids.Null?
          && 1 <= st'.semaines.rows[id].numero as int < n && st'.semaines.rows[id].numero as int !in index
          && (id, st'.semaines.rows[id]) in created)
    && (forall k :: 0 <= k < |created| ==>
          created[k].0 in st'.semaines.rows && st'.semaines.rows[created[k].0] == created[k].1 && created[k].1.owner == owner)
    && (forall m :: 1 <= m < n && m !in index ==> m in Numbers(created))
  }

  lemma StepCreated(st: Store, cur: Store, after: Store, owner: int, index: map<int, (int, Semaine)>,
                    created: seq<(int, Semaine)>, w: (int, Semaine), n: int)
    requires 1 <= n <= 8 && n !in index
    requires CreatedWeeks(st, cur, owner, index, created, n)
    requires forall id :: id in cur.semaines.rows ==> id in after.semaines.rows && after.semaines.rows[id] == cur.semaines.rows[id]
    requires forall id :: id in after.semaines.rows && id !in cur.semaines.rows ==>
      after.semaines.rows[id] == Semaine(owner, n as i32, Null) && w.0 == id
    requires w.0 !in cur.semaines.rows && w.0 in after.semaines.rows && after.semaines.rows[w.0] == w.1
    requires w.1.numero as int == n && w.1.owner == owner
    ensures CreatedWeeks(st, after, owner, index, created + [w], n + 1)
  {
    var created' := created + [w];
    assert created'[|created|] == w;
    assert forall k :: 0 <= k < |created| ==> created'[k] == created[k];
    forall k | 0 <= k < |created'|
      ensures created'[k].0 in after.semaines.rows && after.semaines.rows[created'[k].0] == created'[k].1
    {
      if k < |created| {
        var id := created[k].0;
        assert id in cur.semaines.rows;
        assert id in after.semaines.rows && after.semaines.rows[id] == cur.semaines.rows[id];
      }
    }
    forall id | id in after.semaines.rows && id !in st.semaines.rows
      ensures (id, after.semaines.rows[id]) in created'
    {
      if id in cur.semaines.rows {
        assert (id, cur.semaines.rows[id]) in created;
      } else {
        assert (id, after.semaines.rows[id]) == w;
      }
    }
    forall m | 1 <= m < n + 1 && m !in index
      ensures m in Numbers(created')
    {
      if m < n {
        var k :| 0 <= k < |created| && created[k].1.numero as int == m;
        assert created'[k] == created[k];
      } else {
        assert created'[|created|].1.numero as int == m;
      }
    }
  }

  /** One turn of the initializing loop: the week numbered `n` is created when the index lacks
      it, or the create fails. */
  method Gather(st: Store, cur: Store, owner: int, index: map<int, (int, Semaine)>, created: seq<(int, Semaine)>, n: int)
    returns (next: Store, created': seq<(int, Semaine)>, failure: Option<AppError>)
    requires n <= 8 && st.semaines.Valid() && Gathered(st, cur, owner, index, created, n)
    ensures failure.None? ==> Gathered(st, next, owner, index, created', n + 1)
    ensures failure.Some? ==>
      next == cur && owner !in st.batiments.rows && failure.value == ValidationError("bande_id", Missing)
  {
    if n in index {
      return cur, created, None;
    }
    var week;
    next, week := WeekFor(cur, owner, index, n);
    if week.Failure? {
      return next, created, Some(week.error);
    }
    assert forall id :: id in cur.semaines.rows ==> id in next.semaines.rows && next.semaines.rows[id] == cur.semaines.rows[id];
    StepCreated(st, cur, next, owner, index, created, week.value, n);
    GrowsTransitive(st, cur, next);
    created', failure := created + [week.value], None;
  }

  /** The weeks read before the loop and those it created are, in any order, exactly the
      building's stored weeks afterwards. */
  lemma GatheredStored(st: Store, st': Store, owner: int, existing: seq<(int, Semaine)>, created: seq<(int, Semaine)>,
                       sorted: seq<(int, Semaine)>, index: map<int, (int, Semaine)>)
    requires Gathered(st, st', owner, index, created, 9)
    requires forall k :: 0 <= k < |existing| ==>
      existing[k].0 in st.semaines.rows && st.semaines.rows[existing[k].0] == existing[k].1 && existing[k].1.owner == owner
    requires forall id :: id in st.semaines.rows && st.semaines.rows[id].owner == owner ==> (id, st.semaines.rows[id]) in existing
    requires multiset(sorted) == multiset(existing + created)
    ensures forall k :: 0 <= k < |sorted| ==>
      sorted[k].0 in st'.semaines.rows && st'.semaines.rows[sorted[k].0] == sorted[k].1 && sorted[k].1.owner == owner
    ensures forall id :: id in st'.semaines.rows && st'.semaines.rows[id].owner == owner ==> (id, st'.semaines.rows[id]) in sorted
  {
    var all := existing + created;
    SameElements(all, sorted);
    forall k | 0 <= k < |sorted|
      ensures sorted[k].0 in st'.semaines.rows && st'.semaines.rows[sorted[k].0] == sorted[k].1 && sorted[k].1.owner == owner
    {
      var j :| 0 <= j < |all| && all[j] == sorted[k];
      if j < |existing| {
        assert all[j] == existing[j];
        var id := existing[j].0;
        assert id in st.semaines.rows;
        assert id in st'.semaines.rows && st'.semaines.rows[id] == st.semaines.rows[id];
      } else {
        assert all[j] == created[j - |existing|];
        assert created[j - |existing|].0 in st'.semaines.rows;
      }
    }
    forall id | id in st'.semaines.rows && st'.semaines.rows[id].owner == owner
      ensures (id, st'.semaines.rows[id]) in all
    {
      if id in st.semaines.rows {
        var k :| 0 <= k < |existing| && existing[k] == (id, st.semaines.rows[id]);
        assert all[k] == existing[k];
      } else {
        var k :| 0 <= k < |created| && created[k] == (id, st'.semaines.rows[id]);
        assert all[|existing| + k] == created[k];
      }
    }
  }

  /** After the loop every number 1 to 8 occurs among the building's weeks. */
  lemma GatheredNumbers(st: Store, owner: int, index: map<int, (int, Semaine)>, existing: seq<(int, Semaine)>,
                        created: seq<(int, Semaine)>, sorted: seq<(int, Semaine)>)
    requires Listed(st, owner, index)
    requires forall id :: id in st.semaines.rows && st.semaines.rows[id].owner == owner ==> (id, st.semaines.rows[id]) in existing
    requires forall m :: 1 <= m < 9 && m !in index ==> m in Numbers(created)
    requires multiset(sorted) == multiset(existing + created)
    ensures forall n :: 1 <= n <= 8 ==> n in Numbers(sorted)
  {
    var all := existing + created;
    SameElements(all, sorted);
    forall m | 1 <= m <= 8
      ensures m in Numbers(all)
    {
      if m in index {
        var id := index[m].0;
        assert id in st.semaines.rows && st.semaines.rows[id] == index[m].1 && index[m].1.owner == owner;
        assert (id, st.semaines.rows[id]) in existing;
        assert (id, st.semaines.rows[id]) == index[m];
        var k :| 0 <= k < |existing| && existing[k] == index[m];
        assert all[k] == existing[k];
      } else {
        var k :| 0 <= k < |created| && created[k].1.numero as int == m;
        assert all[|existing| + k] == created[k];
      }
    }
    forall m | m in Numbers(all)
      ensures m in Numbers(sorted)
    {
      var k :| 0 <= k < |all| && all[k].1.numero as int == m;
      assert all[k] in sorted;
    }
  }

  /** The initializing loop over the numbers 1 to 8. */
  method CreateMissing(st: Store, owner: int, index: map<int, (int, Semaine)>)
    returns (st': Store, created: seq<(int, Semaine)>, failure: Option<AppError>)
    requires st.semaines.Valid() && Listed(st, owner, index) && Covers(st, owner, index, 1)
    ensures failure.None? ==> Gathered(st, st', owner, index, created, 9)
    ensures failure.Some? ==>
      st' == st && owner !in st.batiments.rows && failure.value == ValidationError("bande_id", Missing)
  {
    st', created, failure := st, [], None;
    var n := 1;
    while n <= 8
      invariant Gathered(st, st', owner, index, created, n)
    {
      var next, more, stop := Gather(st, st', owner, index, created, n);
      if stop.Some? {
        return st, created, stop;
      }
      st', created, n := next, more, n + 1;
    }
  }

  /** A week the loop created has a number the building did not have before. */
  lemma CreatedWereFree(st: Store, st': Store, owner: int, index: map<int, (int, Semaine)>, created: seq<(int, Semaine)>)
    requires Covers(st, owner, index, 1) && CreatedWeeks(st, st', owner, index, created, 9)
    ensures forall id :: id in st'.semaines.rows && id !in st.semaines.rows ==>
      !SemaineRepository.KeyTaken(st.semaines, owner, st'.semaines.rows[id].numero as int, None)
  {
  }

  /** Creates the weeks 1 to 8 the building lacks, each without a weight, and returns the
      building's weeks old and new, sorted by number (a stable sort). */
  method InitializeSemaines(st: Store, owner: int) returns (st': Store, r: Result<seq<(int, Semaine)>, AppError>)
    requires st.semaines.Valid()
    ensures Grows(st, st')
    ensures Consistent(st) ==> Consistent(st')
    // a created week is an empty week for a number 1 to 8 the building did not have
    ensures forall id :: id in st'.semaines.rows && id !in st.semaines.rows ==>
      && st'.semaines.rows[id].owner == owner && st'.semaines.rows[id].poids.Null?
      && 1 <= st'.semaines.rows[id].numero <= 8
      && !SemaineRepository.KeyTaken(st.semaines, owner, st'.semaines.rows[id].numero as int, None)
    ensures (forall n :: 1 <= n <= 8 ==> SemaineRepository.KeyTaken(st.semaines, owner, n, None)) ==> st' == st
    ensures SemaineRepository.TextWeight(st.semaines, owner) ==> st' == st && r == Failure(Database(InvalidColumnType))
    ensures r.Failure? && !SemaineRepository.TextWeight(st.semaines, owner) ==>
      st' == st && owner !in st.batiments.rows && r.error == ValidationError("bande_id", Missing)
    ensures owner in st.batiments.rows && !SemaineRepository.TextWeight(st.semaines, owner) ==> r.Success?
    // the answer is every week of the building, in number order, and numbers 1 to 8 all occur
    ensures r.Success? ==> SortedBy(r.value, (w: (int, Semaine)) => w.1.numero as int)
    ensures r.Success? ==> forall k :: 0 <= k < |r.value| ==>
      r.value[k].0 in st'.semaines.rows && st'.semaines.rows[r.value[k].0] == r.value[k].1 && r.value[k].1.owner == owner
    ensures r.Success? ==> forall id :: id in st'.semaines.rows && st'.semaines.rows[id].owner == owner ==>
      (id, st'.semaines.rows[id]) in r.value
    ensures r.Success? ==> forall n :: 1 <= n <= 8 ==> n in Numbers(r.value)
  {
    var existing, index, unread := ReadWeeks(st, owner);
    if unread.Some? {
      return st, Failure(unread.value);
    }
    TakenIndexed(st, owner, index);
    var created, failure;
    st', created, failure := CreateMissing(st, owner, index);
    if failure.Some? {
      return st', Failure(failure.value);
    }
    CreatedWereFree(st, st', owner, index, created);
    var sorted := SortBy(existing + created, (w: (int, Semaine)) => w.1.numero as int);
    GatheredStored(st, st', owner, existing, created, sorted, index);
    GatheredNumbers(st, owner, index, existing, created, sorted);
    r := Success(sorted);
  }
}
