/** The rows of every table the core touches, and the store that holds them. Ids live in the
    tables' keys, so a record carries only its columns. `created_at` columns are left out. */
module Records {
  import opened Wrappers
  import opened MachineInts
  import opened NumParse
  import opened Tables

  datatype Ferme = Ferme(nom: string, nbrMeuble: int)

  datatype Personnel = Personnel(nom: string, telephone: string)

  datatype Soin = Soin(nom: string, unite: string)

  datatype Poussin = Poussin(nom: string)

  datatype Maladie = Maladie(nom: string)

  /** A flock. `notes` is stored as the empty text when absent; `contour` is the running feed
      ledger (`alimentation_contour`). */
  datatype Bande = Bande(
    dateEntree: string,
    quantite: i32,
    fermeId: int,
    numeroBatiment: string,
    typePoussin: string,
    personnelId: int,
    notes: string,
    contour: real)

  datatype Batiment = Batiment(
    bandeId: int,
    numero: string,
    poussinId: int,
    personnelId: int,
    quantite: i32)

  /** What a column of REAL affinity holds: SQLite converts text that reads as a number,
      and keeps any other text, the empty text included, as text. */
  datatype Cell = Null | Number(value: real) | Text(text: string)

  /** A week of a building's rearing; `owner` is the building, `poids` the weight column as
      stored. */
  datatype Semaine = Semaine(owner: int, numero: i32, poids: Cell)

  /** One day of a week (`suivi_quotidien`). */
  datatype Suivi = Suivi(
    semaineId: int,
    age: int,
    decesParJour: Option<i32>,
    decesTotal: Option<i32>,
    alimentationParJour: Option<Float>,
    alimentationTotal: Option<Float>,
    soinsId: Option<int>,
    soinsQuantite: Option<string>,
    analyses: Option<string>,
    remarques: Option<string>)

  /** A day slot with nothing recorded yet. */
  function EmptySuivi(semaineId: int, age: int): (r: Suivi)
    ensures r.semaineId == semaineId && r.age == age
    ensures r.decesParJour.None? && r.decesTotal.None? && r.alimentationParJour.None?
    ensures r.alimentationTotal.None? && r.soinsId.None? && r.soinsQuantite.None?
    ensures r.analyses.None? && r.remarques.None?
  {
    Suivi(semaineId, age, None, None, None, None, None, None, None, None)
  }

  /** A feed movement (`alimentation_history`); the quantity may be negative. */
  datatype FeedRecord = FeedRecord(bandeId: int, quantite: real)

  /** A row of `batiment_maladies`. */
  datatype Link = Link(batimentId: int, maladieId: int)

  datatype Store = Store(
    fermes: Table<Ferme>,
    personnel: Table<Personnel>,
    soins: Table<Soin>,
    poussins: Table<Poussin>,
    maladies: Table<Maladie>,
    bandes: Table<Bande>,
    batiments: Table<Batiment>,
    semaines: Table<Semaine>,
    suivis: Table<Suivi>,
    history: Table<FeedRecord>,
    links: set<Link>)

  /** What a successful write hands back: the new store, and the id and row written. */
  datatype Write<T> = Write(store: Store, id: int, row: T)

  ghost predicate TablesValid(st: Store) {
    st.fermes.Valid() && st.personnel.Valid() && st.soins.Valid() && st.poussins.Valid()
    && st.maladies.Valid() && st.bandes.Valid() && st.batiments.Valid() && st.semaines.Valid()
    && st.suivis.Valid() && st.history.Valid()
  }

  /** `CHECK (numero_semaine BETWEEN 1 AND 9)` and `UNIQUE(owner, numero_semaine)`. */
  ghost predicate SemainesKeyed(t: Table<Semaine>) {
    (forall id :: id in t.rows ==> 1 <= t.rows[id].numero <= 9)
    && (forall a, b :: a in t.rows && b in t.rows && a != b ==>
          t.rows[a].owner != t.rows[b].owner || t.rows[a].numero != t.rows[b].numero)
  }

  /** `CHECK (age > 0)` and `UNIQUE(semaine_id, age)`. */
  ghost predicate SuivisKeyed(t: Table<Suivi>) {
    (forall id :: id in t.rows ==> t.rows[id].age > 0)
    && (forall a, b :: a in t.rows && b in t.rows && a != b ==>
          t.rows[a].semaineId != t.rows[b].semaineId || t.rows[a].age != t.rows[b].age)
  }

  /** Every stored weight reads back as `Option<f64>`: none is text. */
  ghost predicate WeightsReadable(t: Table<Semaine>) {
    forall id :: id in t.rows ==> !t.rows[id].poids.Text?
  }

  /** No stored feed amount is NaN: SQLite stores a NaN it is given as NULL. */
  ghost predicate FeedNotNaN(t: Table<Suivi>) {
    forall id :: id in t.rows ==> t.rows[id].alimentationParJour != Some(NaN) && t.rows[id].alimentationTotal != Some(NaN)
  }

  /** The foreign keys of the week/day hierarchy: a day's week exists, a week's building
      exists, and a day's treatment, when set, exists. */
  ghost predicate HierarchyLinked(st: Store) {
    (forall id :: id in st.suivis.rows ==> st.suivis.rows[id].semaineId in st.semaines.rows)
    && (forall id :: id in st.semaines.rows ==> st.semaines.rows[id].owner in st.batiments.rows)
    && (forall id :: id in st.suivis.rows && st.suivis.rows[id].soinsId.Some? ==>
          st.suivis.rows[id].soinsId.value in st.soins.rows)
  }

  /** The store-level invariant of the week/day hierarchy. */
  ghost predicate Consistent(st: Store) {
    && TablesValid(st) && SemainesKeyed(st.semaines) && SuivisKeyed(st.suivis) && HierarchyLinked(st)
    && WeightsReadable(st.semaines) && FeedNotNaN(st.suivis)
  }

  function EmptyStore(): (st: Store)
    ensures Consistent(st)
  {
    Store(EmptyTable(), EmptyTable(), EmptyTable(), EmptyTable(), EmptyTable(), EmptyTable(),
          EmptyTable(), EmptyTable(), EmptyTable(), EmptyTable(), {})
  }
}
