/** The day-entry upsert (`upsert_suivi_quotidien_field`): the grid edits one field of the day
    at `(semaine_id, age)`, and the command finds or creates that day and sets the field from
    the text the user typed. */
module SuiviUpsert {
  import opened Wrappers
  import opened MachineInts
  import opened NumParse
  import opened Errors
  import opened Tables
  import opened Records
  import SuiviRepository

  /** The editable fields of a day. */
  datatype Field =
    | DecesParJour
    | DecesTotal
    | AlimentationParJour
    | AlimentationTotal
    | SoinsId
    | SoinsQuantite
    | Analyses
    | Remarques

  /** The name the user interface sends for a field. */
  function Name(f: Field): string {
    match f
    case DecesParJour => "deces_par_jour"
    case DecesTotal => "deces_total"
    case AlimentationParJour => "alimentation_par_jour"
    case AlimentationTotal => "alimentation_total"
    case SoinsId => "soins_id"
    case SoinsQuantite => "soins_quantite"
    case Analyses => "analyses"
    case Remarques => "remarques"
  }

  /** The field a name denotes, if any: the command's `match field.as_str()`. */
  function FieldNamed(name: string): (r: Option<Field>)
    ensures r.Some? ==> Name(r.value) == name
    ensures r.None? ==> forall f: Field :: Name(f) != name
  {
    if name == "deces_par_jour" then Some(DecesParJour)
    else if name == "deces_total" then Some(DecesTotal)
    else if name == "alimentation_par_jour" then Some(AlimentationParJour)
    else if name == "alimentation_total" then Some(AlimentationTotal)
    else if name == "soins_id" then Some(SoinsId)
    else if name == "soins_quantite" then Some(SoinsQuantite)
    else if name == "analyses" then Some(Analyses)
    else if name == "remarques" then Some(Remarques)
    else None
  }

  /** Field names and fields are in one-to-one correspondence. */
  lemma FieldNameRoundTrip(f: Field)
    ensures FieldNamed(Name(f)) == Some(f)
  {
  }

  /** The content of one field, whatever its column type. */
  datatype FieldValue =
    | Count(count: Option<i32>)
    | Amount(amount: Option<Float>)
    | Ref(ref: Option<int>)
    | Note(note: Option<string>)

  predicate Fits(f: Field, v: FieldValue) {
    match f
    case DecesParJour | DecesTotal => v.Count?
    case AlimentationParJour | AlimentationTotal => v.Amount?
    case SoinsId => v.Ref?
    case SoinsQuantite | Analyses | Remarques => v.Note?
  }

  function Get(row: Suivi, f: Field): (v: FieldValue)
    ensures Fits(f, v)
  {
    match f
    case DecesParJour => Count(row.decesParJour)
    case DecesTotal => Count(row.decesTotal)
    case AlimentationParJour => Amount(row.alimentationParJour)
    case AlimentationTotal => Amount(row.alimentationTotal)
    case SoinsId => Ref(row.soinsId)
    case SoinsQuantite => Note(row.soinsQuantite)
    case Analyses => Note(row.analyses)
    case Remarques => Note(row.remarques)
  }

  /** `row` with field `f` replaced: the value is read back and no other field moves. */
  function Set(row: Suivi, f: Field, v: FieldValue): (r: Suivi)
    requires Fits(f, v)
    ensures Get(r, f) == v
    ensures forall g :: g != f ==> Get(r, g) == Get(row, g)
    ensures r.semaineId == row.semaineId && r.age == row.age
  {
    match f
    case DecesParJour => row.(decesParJour := v.count)
    case DecesTotal => row.(decesTotal := v.count)
    case AlimentationParJour => row.(alimentationParJour := v.amount)
    case AlimentationTotal => row.(alimentationTotal := v.amount)
    case SoinsId => row.(soinsId := v.ref)
    case SoinsQuantite => row.(soinsQuantite := v.note)
    case Analyses => row.(analyses := v.note)
    case Remarques => row.(remarques := v.note)
  }

  /** Whether the repository writes the field's column (the running totals it does not). */
  predicate Persisted(f: Field) {
    f != DecesTotal && f != AlimentationTotal
  }

  /** What the column of field `g` keeps of a value written to it: a feed amount is bound, so
      NaN is kept as no value. */
  function StoredAs(g: Field, v: FieldValue): (r: FieldValue)
    ensures g != AlimentationParJour || !v.Amount? ==> r == v
    ensures g == AlimentationParJour && v.Amount? ==> r == Amount(SuiviRepository.BindReal(v.amount))
  {
    if g == AlimentationParJour && v.Amount? then Amount(SuiviRepository.BindReal(v.amount)) else v
  }

  /** Why the command refused. Its messages are plain strings; these name their cases. */
  datatype UpsertError =
    | SemaineMissing(semaineId: int)
    | SoinMissing(soinId: int)
    | UnknownField(name: string)
    | Repository(cause: AppError)

  /** Empty text clears a text field; any other text is stored as typed. */
  function OptionalText(value: string): (r: Option<string>)
    ensures r.None? <==> |value| == 0
    ensures r.Some? ==> r.value == value
  {
    if |value| == 0 then None else Some(value)
  }

  /** The value the command assigns to field `f` for the typed text. */
  function Decode(st: Store, f: Field, value: string): (r: Result<FieldValue, UpsertError>)
    ensures r.Success? ==> Fits(f, r.value)
    ensures f == DecesParJour || f == DecesTotal ==> r == Success(Count(ParseI32(value)))
    ensures f == AlimentationParJour || f == AlimentationTotal ==> r == Success(Amount(ParseF64(value)))
    ensures f == SoinsQuantite || f == Analyses || f == Remarques ==> r == Success(Note(OptionalText(value)))
    ensures f == SoinsId && (|value| == 0 || ParseI64(value).None?) ==> r == Success(Ref(None))
    ensures f == SoinsId && |value| > 0 && ParseI64(value).Some? ==>
      var id := ParseI64(value).value as int;
      (id in st.soins.rows ==> r == Success(Ref(Some(id)))) && (id !in st.soins.rows ==> r == Failure(SoinMissing(id)))
  {
    match f
    case DecesParJour | DecesTotal => Success(Count(ParseI32(value)))
    case AlimentationParJour | AlimentationTotal => Success(Amount(ParseF64(value)))
    case SoinsId =>
      if |value| == 0 then Success(Ref(None))
      else (
        match ParseI64(value)
        case Some(id) => if id as int in st.soins.rows then Success(Ref(Some(id as int))) else Failure(SoinMissing(id as int))
        case None => Success(Ref(None)))
    case SoinsQuantite | Analyses | Remarques => Success(Note(OptionalText(value)))
  }

  /** The id of the day stored at `(semaineId, age)`, looked up as the command's query does. */
  function FindDay(st: Store, semaineId: int, age: int): (r: Option<int>)
    ensures r.Some? ==> (r.value in st.suivis.rows
      && st.suivis.rows[r.value].semaineId == semaineId && st.suivis.rows[r.value].age == age)
    ensures st.suivis.Valid() && r.None? ==>
      forall id :: id in st.suivis.rows ==> st.suivis.rows[id].semaineId != semaineId || st.suivis.rows[id].age != age
  {
    var rows := Where(st.suivis, (d: Suivi) => d.semaineId == semaineId && d.age == age);
    if |rows| == 0 then None else Some(rows[0].0)
  }

  /** The row the command edits before handing it to the repository. */
  function Base(st: Store, semaineId: int, age: int): Suivi {
    match FindDay(st, semaineId, age)
    case Some(id) => st.suivis.rows[id]
    case None => EmptySuivi(semaineId, age)
  }

  function Upsert(st: Store, semaineId: int, age: i32, field: string, value: string): (r: Result<Write<Suivi>, UpsertError>)
    // the week must exist; then an unknown field name is refused on either path
    ensures semaineId !in st.semaines.rows <==> r == Failure(SemaineMissing(semaineId))
    ensures semaineId in st.semaines.rows && FieldNamed(field).None? ==> r == Failure(UnknownField(field))
    // the value's decoding errors are the command's errors
    ensures semaineId in st.semaines.rows && FieldNamed(field).Some? && Decode(st, FieldNamed(field).value, value).Failure? ==>
      r == Failure(Decode(st, FieldNamed(field).value, value).error)
    ensures r.Success? ==>
      var f := FieldNamed(field).value;
      var base := Base(st, semaineId, age);
      var row := r.value.row;
      && Decode(st, f, value).Success?
      // an existing day is rewritten in place, otherwise one new day is inserted
      && (FindDay(st, semaineId, age).Some? ==>
            r.value.id == FindDay(st, semaineId, age).value
            && r.value.store == st.(suivis := st.suivis.Put(r.value.id, row)))
      && (FindDay(st, semaineId, age).None? ==>
            r.value.store == st.(suivis := Table(st.suivis.rows[r.value.id := row], st.suivis.next + 1))
            && (st.suivis.Valid() ==> r.value.id !in st.suivis.rows))
      // the stored row is the base row, as its columns keep it, with only the named field changed
      && row.semaineId == semaineId && row.age == age
      && (forall g :: g != f ==> Get(row, g) == StoredAs(g, Get(base, g)))
      && (Persisted(f) ==> Get(row, f) == StoredAs(f, Decode(st, f, value).value))
      && (!Persisted(f) ==> Get(row, f) == Get(base, f))
  {
    if semaineId !in st.semaines.rows then Failure(SemaineMissing(semaineId))
    else
      match FieldNamed(field)
      case None => Failure(UnknownField(field))
      case Some(f) =>
        match Decode(st, f, value)
        case Failure(e) => Failure(e)
        case Success(v) =>
          var found := FindDay(st, semaineId, age);
          var draft := Set(Base(st, semaineId, age), f, v);
          var written := if found.Some? then SuiviRepository.Update(st, found.value, draft)
                         else SuiviRepository.Create(st, draft);
          match written
          case Failure(e) => Failure(Repository(e))
          case Success(w) =>
            WrittenFields(Base(st, semaineId, age), f, v, w.row);
            Success(w)
  }

  /** The repository's row for a draft that changes field `f` of `base`: an update keeps the
      base's totals, and an insert's base has none. */
  lemma WrittenFields(base: Suivi, f: Field, v: FieldValue, row: Suivi)
    requires Fits(f, v)
    requires || row == SuiviRepository.Updated(base, Set(base, f, v))
             || (row == SuiviRepository.Inserted(Set(base, f, v)) && base.decesTotal.None? && base.alimentationTotal.None?)
    ensures row.semaineId == base.semaineId && row.age == base.age
    ensures forall g :: g != f ==> Get(row, g) == StoredAs(g, Get(base, g))
    ensures Persisted(f) ==> Get(row, f) == StoredAs(f, v)
    ensures !Persisted(f) ==> Get(row, f) == Get(base, f)
  {
    var draft := Set(base, f, v);
    forall g | g != f
      ensures Get(row, g) == StoredAs(g, Get(base, g))
    {
      assert Get(draft, g) == Get(base, g);
    }
  }

  /** An upsert keeps the week/day invariant, so an address never holds two days. */
  lemma UpsertKeepsConsistent(st: Store, semaineId: int, age: i32, field: string, value: string)
    requires Consistent(st)
    requires Upsert(st, semaineId, age, field, value).Success?
    ensures Consistent(Upsert(st, semaineId, age, field, value).value.store)
  {
    var f := FieldNamed(field).value;
    var draft := Set(Base(st, semaineId, age), f, Decode(st, f, value).value);
    match FindDay(st, semaineId, age)
    case Some(id) => SuiviRepository.UpdateKeepsConsistent(st, id, draft);
    case None => SuiviRepository.CreateKeepsConsistent(st, draft);
  }

  /** In a consistent store, the day found at an address is the only day there. */
  lemma FindDayUnique(st: Store, semaineId: int, age: int, id: int)
    requires Consistent(st)
    requires id in st.suivis.rows && st.suivis.rows[id].semaineId == semaineId && st.suivis.rows[id].age == age
    ensures FindDay(st, semaineId, age) == Some(id)
  {
    var found := FindDay(st, semaineId, age);
    assert found.Some?;
    assert !(found.value != id);
  }

  /** Writing back the value a day already holds leaves the day as it is. */
  lemma RewriteSame(row: Suivi, f: Field, v: FieldValue)
    requires Fits(f, v)
    requires row.alimentationParJour != Some(NaN)
    requires Persisted(f) ==> Get(row, f) == StoredAs(f, v)
    ensures SuiviRepository.Updated(row, Set(row, f, v)) == row
  {
    match f
    case DecesParJour =>
    case DecesTotal =>
    case AlimentationParJour =>
    case AlimentationTotal =>
    case SoinsId =>
    case SoinsQuantite =>
    case Analyses =>
    case Remarques =>
  }

  /** In a consistent store, updating a day to its own content succeeds and changes nothing. */
  lemma UpdateUnchanged(st: Store, id: int, draft: Suivi)
    requires Consistent(st)
    requires id in st.suivis.rows
    requires draft.semaineId == st.suivis.rows[id].semaineId
    requires SuiviRepository.Updated(st.suivis.rows[id], draft) == st.suivis.rows[id]
    ensures SuiviRepository.Update(st, id, draft) == Success(Write(st, id, st.suivis.rows[id]))
  {
    var row := st.suivis.rows[id];
    assert !SuiviRepository.KeyTaken(st.suivis, row.semaineId, row.age, Some(id));
    assert st.suivis.Put(id, row) == st.suivis;
  }

  /** At an address whose day already holds the decoded value, an upsert rewrites that day
      with its own content. */
  lemma UpsertRewritesSame(st: Store, semaineId: int, age: i32, field: string, value: string, id: int)
    requires Consistent(st)
    requires semaineId in st.semaines.rows && FieldNamed(field).Some?
    requires Decode(st, FieldNamed(field).value, value).Success?
    requires id in st.suivis.rows && st.suivis.rows[id].semaineId == semaineId && st.suivis.rows[id].age == age as int
    requires Persisted(FieldNamed(field).value) ==>
      Get(st.suivis.rows[id], FieldNamed(field).value) == StoredAs(FieldNamed(field).value, Decode(st, FieldNamed(field).value, value).value)
    ensures Upsert(st, semaineId, age, field, value) == Success(Write(st, id, st.suivis.rows[id]))
  {
    var f := FieldNamed(field).value;
    var v := Decode(st, f, value).value;
    FindDayUnique(st, semaineId, age as int, id);
    RewriteSame(st.suivis.rows[id], f, v);
    UpdateUnchanged(st, id, Set(st.suivis.rows[id], f, v));
  }

  /** Repeating an edit changes nothing: the second upsert finds the day the first one wrote
      and rewrites it with the same content. */
  lemma UpsertIdempotent(st: Store, semaineId: int, age: i32, field: string, value: string)
    requires Consistent(st)
    requires Upsert(st, semaineId, age, field, value).Success?
    ensures Upsert(Upsert(st, semaineId, age, field, value).value.store, semaineId, age, field, value)
         == Success(Write(Upsert(st, semaineId, age, field, value).value.store,
                          Upsert(st, semaineId, age, field, value).value.id,
                          Upsert(st, semaineId, age, field, value).value.row))
  {
    UpsertAgain(st, semaineId, age, field, value, Upsert(st, semaineId, age, field, value).value);
  }

  lemma UpsertAgain(st: Store, semaineId: int, age: i32, field: string, value: string, w: Write<Suivi>)
    requires Consistent(st)
    requires Upsert(st, semaineId, age, field, value) == Success(w)
    ensures Upsert(w.store, semaineId, age, field, value) == Success(w)
  {
    UpsertKeepsConsistent(st, semaineId, age, field, value);
    UpsertWroteDay(st, semaineId, age, field, value, w);
    UpsertRewritesSame(w.store, semaineId, age, field, value, w.id);
  }

  /** After a successful upsert the written day sits at its address, holding the decoded
      value as its column keeps it. */
  lemma UpsertWroteDay(st: Store, semaineId: int, age: i32, field: string, value: string, w: Write<Suivi>)
    requires Upsert(st, semaineId, age, field, value) == Success(w)
    ensures semaineId in w.store.semaines.rows && FieldNamed(field).Some?
    ensures Decode(w.store, FieldNamed(field).value, value) == Decode(st, FieldNamed(field).value, value)
    ensures Decode(st, FieldNamed(field).value, value).Success?
    ensures w.id in w.store.suivis.rows && w.store.suivis.rows[w.id] == w.row
    ensures w.row.semaineId == semaineId && w.row.age == age as int
    ensures Persisted(FieldNamed(field).value) ==>
      Get(w.row, FieldNamed(field).value) == StoredAs(FieldNamed(field).value, Decode(st, FieldNamed(field).value, value).value)
  {
    var f := FieldNamed(field).value;
    assert Decode(w.store, f, value) == Decode(st, f, value);
  }
}
