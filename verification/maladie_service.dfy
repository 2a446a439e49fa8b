/** The disease service: the name rules the `maladies` repository leaves out. A name must
    not be blank, must fit in 255 bytes, and must differ, ignoring case, from every other
    disease's name. The program's messages are plain strings; here they are `AppError`s. */
module MaladieService {
  import opened Wrappers
  import opened Errors
  import opened Tables
  import opened Records
  import opened Text
  import MaladieRepository

  /** The checks create and update run before the duplicate check. */
  function CheckName(nom: string): (r: Option<AppError>)
    ensures r.None? <==> !IsBlank(nom) && Utf8Len(nom) <= 255
    ensures IsBlank(nom) ==> r == Some(ValidationError("nom", Blank))
    ensures !IsBlank(nom) && Utf8Len(nom) > 255 ==> r == Some(ValidationError("nom", TooLong))
  {
    if IsBlank(nom) then Some(ValidationError("nom", Blank))
    else if Utf8Len(nom) > 255 then Some(ValidationError("nom", TooLong))
    else None
  }

  /** Whether a disease other than `self` has, lower-cased, the lower-cased trimmed input:
      the stored name is lower-cased but not trimmed. */
  predicate NameTaken(t: Table<Maladie>, nom: string, self: Option<int>) {
    exists id :: id in t.rows && Some(id) != self && ToLower(t.rows[id].nom) == ToLower(Trim(nom))
  }

  /** The names are distinct even ignoring case. */
  ghost predicate NamesDistinct(t: Table<Maladie>) {
    forall a, b :: a in t.rows && b in t.rows && a != b ==> ToLower(t.rows[a].nom) != ToLower(t.rows[b].nom)
  }

  /** Every stored name is already trimmed. */
  ghost predicate NamesTrimmed(t: Table<Maladie>) {
    forall id :: id in t.rows ==> Trim(t.rows[id].nom) == t.rows[id].nom
  }

  /** `create_maladie` as the program writes it: the duplicate check trims the input, but the
      repository stores the name untrimmed. */
  function CreateAsWritten(st: Store, nom: string): (r: Result<Write<Maladie>, AppError>)
    ensures CheckName(nom).Some? ==> r == Failure(CheckName(nom).value)
    ensures r.Success? <==> CheckName(nom).None? && !NameTaken(st.maladies, nom, None)
    ensures r.Success? ==> r.value.row.nom == nom && r.value.id == st.maladies.next
  {
    match CheckName(nom)
    case Some(e) => Failure(e)
    case None =>
      if NameTaken(st.maladies, nom, None) then Failure(ValidationError("nom", Duplicate))
      else Success(MaladieRepository.Create(st, nom))
  }

  /** A letter followed by a space trims to the letter alone. */
  lemma TrimLetterSpace(c: char)
    requires 'a' <= c <= 'z'
    ensures Trim([c, ' ']) == [c]
  {
    var n := [c, ' '];
    assert TrimStart(n) == n;
    assert n[..|n| - 1] == [c];
    assert TrimEnd([c]) == [c];
  }

  lemma LowerLetterSpace(c: char)
    requires 'a' <= c <= 'z'
    ensures ToLower([c, ' ']) == [c, ' '] && ToLower([c]) == [c]
  {
  }

  lemma WidthLetterSpace(c: char)
    requires 'a' <= c <= 'z'
    ensures Utf8Len([c, ' ']) == 2
  {
    var n := [c, ' '];
    assert n[1..] == [' '];
    assert [' '][1..] == [];
  }

  /** A lower-case letter followed by a space passes the name checks, and lower-casing
      leaves both it and the letter alone unchanged. */
  lemma LetterSpace(c: char)
    requires 'a' <= c <= 'z'
    ensures Trim([c, ' ']) == [c] && CheckName([c, ' ']).None?
    ensures ToLower([c, ' ']) == [c, ' '] && ToLower([c]) == [c]
  {
    TrimLetterSpace(c);
    WidthLetterSpace(c);
    LowerLetterSpace(c);
  }

  /** The same name with a trailing space, created twice from an empty store, is accepted
      both times: the stored "a " lower-cases to "a ", which is not the trimmed "a". */
  lemma CreateAsWrittenAdmitsTwins()
    ensures var w1 := CreateAsWritten(EmptyStore(), "a ");
      && w1.Success?
      && var w2 := CreateAsWritten(w1.value.store, "a ");
      && w2.Success?
      && w2.value.store.maladies.rows.Keys == {1, 2}
      && w2.value.store.maladies.rows[1].nom == w2.value.store.maladies.rows[2].nom
      && !NamesDistinct(w2.value.store.maladies)
  {
    var n := "a ";
    LetterSpace('a');
    assert n == ['a', ' '];
    var st := EmptyStore();
    assert !NameTaken(st.maladies, n, None);
    var w1 := CreateAsWritten(st, n).value;
    var t1 := w1.store.maladies;
    assert t1.rows == map[1 := Maladie(n)];
    assert !NameTaken(t1, n, None) by {
      forall id | id in t1.rows ensures ToLower(t1.rows[id].nom) != ToLower(Trim(n)) {
        assert t1.rows[id].nom == n;
      }
    }
    var t2 := CreateAsWritten(w1.store, n).value.store.maladies;
    assert t2.rows == map[1 := Maladie(n), 2 := Maladie(n)];
    assert 1 in t2.rows && 2 in t2.rows && ToLower(t2.rows[1].nom) == ToLower(t2.rows[2].nom);
  }

  /** `create_maladie` as intended: the name that was checked, the trimmed one, is stored. */
  function Create(st: Store, nom: string): (r: Result<Write<Maladie>, AppError>)
    ensures CheckName(nom).Some? ==> r == Failure(CheckName(nom).value)
    ensures CheckName(nom).None? && NameTaken(st.maladies, nom, None) ==> r == Failure(ValidationError("nom", Duplicate))
    ensures r.Success? <==> CheckName(nom).None? && !NameTaken(st.maladies, nom, None)
    ensures r.Success? ==>
      && r.value.row == Maladie(Trim(nom)) && r.value.id == st.maladies.next
      && r.value.store == st.(maladies := Table(st.maladies.rows[r.value.id := r.value.row], st.maladies.next + 1))
  {
    match CheckName(nom)
    case Some(e) => Failure(e)
    case None =>
      if NameTaken(st.maladies, nom, None) then Failure(ValidationError("nom", Duplicate))
      else Success(MaladieRepository.Create(st, Trim(nom)))
  }

  /** `update_maladie` as the program writes it: the checks of create, the duplicate check
      ignoring the disease itself, then the repository's update of the untrimmed name. */
  function UpdateAsWritten(st: Store, id: int, nom: string): (r: Result<Store, AppError>)
    ensures r.Success? <==> CheckName(nom).None? && !NameTaken(st.maladies, nom, Some(id)) && id in st.maladies.rows
    ensures r.Success? ==> r.value.maladies.rows == st.maladies.rows[id := Maladie(nom)]
  {
    match CheckName(nom)
    case Some(e) => Failure(e)
    case None =>
      if NameTaken(st.maladies, nom, Some(id)) then Failure(ValidationError("nom", Duplicate))
      else MaladieRepository.Update(st, id, nom)
  }

  /** Renaming disease 1 of a store holding "a" and "b " to "b " is accepted, leaving two
      diseases named "b ". */
  lemma UpdateAsWrittenAdmitsTwins()
    ensures var st := EmptyStore().(maladies := Table(map[1 := Maladie("a"), 2 := Maladie("b ")], 3));
      && UpdateAsWritten(st, 1, "b ").Success?
      && !NamesDistinct(UpdateAsWritten(st, 1, "b ").value.maladies)
  {
    var n := "b ";
    LetterSpace('b');
    assert n == ['b', ' '];
    var st := EmptyStore().(maladies := Table(map[1 := Maladie("a"), 2 := Maladie(n)], 3));
    assert !NameTaken(st.maladies, n, Some(1)) by {
      forall k | k in st.maladies.rows && Some(k) != Some(1)
        ensures ToLower(st.maladies.rows[k].nom) != ToLower(Trim(n))
      {
        assert k == 2;
      }
    }
    var t := UpdateAsWritten(st, 1, n).value.maladies;
    assert t.rows[1] == Maladie(n) && t.rows[2] == Maladie(n);
  }

  /** `update_maladie` as intended: the trimmed name is stored. */
  function Update(st: Store, id: int, nom: string): (r: Result<Store, AppError>)
    ensures CheckName(nom).Some? ==> r == Failure(CheckName(nom).value)
    ensures CheckName(nom).None? && NameTaken(st.maladies, nom, Some(id)) ==> r == Failure(ValidationError("nom", Duplicate))
    ensures CheckName(nom).None? && !NameTaken(st.maladies, nom, Some(id)) && id !in st.maladies.rows ==>
      r == Failure(NotFound(MaladieEntity, id))
    ensures r.Success? <==> CheckName(nom).None? && !NameTaken(st.maladies, nom, Some(id)) && id in st.maladies.rows
    ensures r.Success? ==>
      && r.value == st.(maladies := r.value.maladies)
      && r.value.maladies.rows == st.maladies.rows[id := Maladie(Trim(nom))]
      && r.value.maladies.next == st.maladies.next
  {
    match CheckName(nom)
    case Some(e) => Failure(e)
    case None =>
      if NameTaken(st.maladies, nom, Some(id)) then Failure(ValidationError("nom", Duplicate))
      else MaladieRepository.Update(st, id, Trim(nom))
  }

  /** `delete_maladie` passes straight through to the repository. */
  function Delete(st: Store, id: int): (r: Result<Store, AppError>)
    ensures r.Failure? <==> id !in st.maladies.rows
    ensures r.Failure? ==> r.error == NotFound(MaladieEntity, id)
    ensures r.Success? ==> id !in r.value.maladies.rows && r.value == st.(maladies := r.value.maladies)
  {
    MaladieRepository.Delete(st, id)
  }

  /** A created disease keeps the names distinct ignoring case, and trimmed. */
  lemma CreateKeepsNamesDistinct(st: Store, nom: string)
    requires st.maladies.Valid() && NamesDistinct(st.maladies) && NamesTrimmed(st.maladies)
    requires Create(st, nom).Success?
    ensures NamesDistinct(Create(st, nom).value.store.maladies)
    ensures NamesTrimmed(Create(st, nom).value.store.maladies)
  {
    var w := Create(st, nom).value;
    var t := w.store.maladies;
    assert !NameTaken(st.maladies, nom, None);
    TrimIdempotent(nom);
    forall a, b | a in t.rows && b in t.rows && a != b
      ensures ToLower(t.rows[a].nom) != ToLower(t.rows[b].nom)
    {
      if a == w.id {
        assert t.rows[b] == st.maladies.rows[b];
      } else if b == w.id {
        assert t.rows[a] == st.maladies.rows[a];
      }
    }
  }

  /** Writing a trimmed name that no other disease holds, ignoring case, keeps the names
      distinct and trimmed. */
  lemma PutKeepsNamesDistinct(t: Table<Maladie>, id: int, nom: string)
    requires id in t.rows && NamesDistinct(t) && NamesTrimmed(t)
    requires !NameTaken(t, nom, Some(id))
    ensures NamesDistinct(t.Put(id, Maladie(Trim(nom))))
    ensures NamesTrimmed(t.Put(id, Maladie(Trim(nom))))
  {
    PutKeepsKeysDistinct(t, id, Trim(nom));
    PutKeepsNamesTrimmed(t, id, nom);
  }

  lemma PutKeepsNamesTrimmed(t: Table<Maladie>, id: int, nom: string)
    requires id in t.rows && NamesTrimmed(t)
    ensures NamesTrimmed(t.Put(id, Maladie(Trim(nom))))
  {
    TrimIdempotent(nom);
  }

  /** Writing a name whose lower case no other disease's name has keeps the names distinct. */
  lemma PutKeepsKeysDistinct(t: Table<Maladie>, id: int, nom: string)
    requires id in t.rows && NamesDistinct(t)
    requires forall k :: k in t.rows && k != id ==> ToLower(t.rows[k].nom) != ToLower(nom)
    ensures NamesDistinct(t.Put(id, Maladie(nom)))
  {
    var t' := t.Put(id, Maladie(nom));
    forall a, b | a in t'.rows && b in t'.rows && a != b
      ensures ToLower(t'.rows[a].nom) != ToLower(t'.rows[b].nom)
    {
      if a == id {
        assert ToLower(t.rows[b].nom) != ToLower(nom);
      } else if b == id {
        assert ToLower(t.rows[a].nom) != ToLower(nom);
      } else {
        assert t'.rows[a] == t.rows[a] && t'.rows[b] == t.rows[b];
      }
    }
  }

  /** A renamed disease keeps the names distinct ignoring case, and trimmed. */
  lemma UpdateKeepsNamesDistinct(st: Store, id: int, nom: string)
    requires NamesDistinct(st.maladies) && NamesTrimmed(st.maladies)
    requires Update(st, id, nom).Success?
    ensures NamesDistinct(Update(st, id, nom).value.maladies)
    ensures NamesTrimmed(Update(st, id, nom).value.maladies)
  {
    PutKeepsNamesDistinct(st.maladies, id, nom);
  }
}
