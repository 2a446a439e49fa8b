/** The farm service: business checks in front of the farm repository. Name lengths are
    counted in UTF-8 bytes on the name as typed; the repository then receives it trimmed. */
module FermeService {
  import opened Wrappers
  import opened Errors
  import opened Tables
  import opened Records
  import opened Text
  import FermeRepository

  /** The length rule, measured before trimming. */
  function CheckLength(nom: string): (r: Option<AppError>)
    ensures r.None? <==> 2 <= Utf8Len(nom) <= 100
    ensures Utf8Len(nom) < 2 ==> r == Some(BusinessLogic("nom", TooShort))
    ensures Utf8Len(nom) > 100 ==> r == Some(BusinessLogic("nom", TooLong))
  {
    if Utf8Len(nom) < 2 then Some(BusinessLogic("nom", TooShort))
    else if Utf8Len(nom) > 100 then Some(BusinessLogic("nom", TooLong))
    else None
  }

  function CreateFerme(st: Store, nom: string, nbrMeuble: int): (r: Result<Write<Ferme>, AppError>)
    ensures CheckLength(nom).Some? ==> r == Failure(CheckLength(nom).value)
    ensures CheckLength(nom).None? ==> r == FermeRepository.Create(st, Trim(nom), nbrMeuble)
    ensures r.Success? ==> r.value.row.nom == Trim(r.value.row.nom) && 2 <= Utf8Len(nom) <= 100
  {
    match CheckLength(nom)
    case Some(e) => Failure(e)
    case None =>
      TrimIdempotent(nom);
      FermeRepository.Create(st, Trim(nom), nbrMeuble)
  }

  function GetFermeById(st: Store, id: int): (r: Result<Ferme, AppError>)
    ensures id <= 0 ==> r == Failure(ValidationError("id", NotPositive))
    ensures id > 0 ==> r == FermeRepository.GetById(st, id)
  {
    if id <= 0 then Failure(ValidationError("id", NotPositive)) else FermeRepository.GetById(st, id)
  }

  /** The id guard comes before the length rule. */
  function UpdateFerme(st: Store, id: int, nom: string, nbrMeuble: int): (r: Result<Write<Ferme>, AppError>)
    ensures id <= 0 ==> r == Failure(ValidationError("id", NotPositive))
    ensures id > 0 && CheckLength(nom).Some? ==> r == Failure(CheckLength(nom).value)
    ensures id > 0 && CheckLength(nom).None? ==> r == FermeRepository.Update(st, id, Trim(nom), nbrMeuble)
    ensures r.Success? ==> r.value.row.nom == Trim(r.value.row.nom) && r.value.id == id
  {
    if id <= 0 then Failure(ValidationError("id", NotPositive))
    else match CheckLength(nom)
      case Some(e) => Failure(e)
      case None =>
        TrimIdempotent(nom);
        FermeRepository.Update(st, id, Trim(nom), nbrMeuble)
  }

  /** The farm is read first, so an absent one is NotFound even when flocks point at its id. */
  function DeleteFerme(st: Store, id: int): (r: Result<Store, AppError>)
    ensures id <= 0 ==> r == Failure(ValidationError("id", NotPositive))
    ensures id > 0 && id !in st.fermes.rows ==> r == Failure(NotFound(FermeEntity, id))
    ensures id > 0 && id in st.fermes.rows ==> r == FermeRepository.Delete(st, id)
  {
    if id <= 0 then Failure(ValidationError("id", NotPositive))
    else match FermeRepository.GetById(st, id)
      case Failure(e) => Failure(e)
      case Success(_) => FermeRepository.Delete(st, id)
  }

  /** The farms whose name matches `%term%` under SQLite's `LIKE`, in rowid order (the
      repository's `ORDER BY nom` is not modelled). */
  function SearchByName(st: Store, term: string): (r: seq<(int, Ferme)>)
    ensures forall k :: 0 <= k < |r| ==> r[k].0 in st.fermes.rows && r[k].1 == st.fermes.rows[r[k].0]
    ensures forall k :: 0 <= k < |r| ==> Like(ContainsPattern(term), r[k].1.nom)
    ensures st.fermes.Valid() ==> forall id :: id in st.fermes.rows && Like(ContainsPattern(term), st.fermes.rows[id].nom) ==>
      (id, st.fermes.rows[id]) in r
  {
    Where(st.fermes, (f: Ferme) => Like(ContainsPattern(term), f.nom))
  }

  /** `search_fermes`: a blank term, then a term shorter than 2 bytes, are refused; the
      repository searches the trimmed term. */
  function SearchFermes(st: Store, term: string): (r: Result<seq<(int, Ferme)>, AppError>)
    ensures IsBlank(term) ==> r == Failure(ValidationError("nom", Blank))
    ensures !IsBlank(term) && Utf8Len(term) < 2 ==> r == Failure(ValidationError("nom", TooShort))
    ensures r.Success? <==> !IsBlank(term) && Utf8Len(term) >= 2
    ensures r.Success? ==> r.value == SearchByName(st, Trim(term))
  {
    if IsBlank(term) then Failure(ValidationError("nom", Blank))
    else if Utf8Len(term) < 2 then Failure(ValidationError("nom", TooShort))
    else Success(SearchByName(st, Trim(term)))
  }

  /** A farm whose name contains the trimmed term (with no `%` in it) is found. */
  lemma SearchFindsContaining(st: Store, term: string, id: int, pre: string, post: string)
    requires st.fermes.Valid()
    requires SearchFermes(st, term).Success?
    requires forall k :: 0 <= k < |Trim(term)| ==> Trim(term)[k] != '%'
    requires id in st.fermes.rows && st.fermes.rows[id].nom == pre + Trim(term) + post
    ensures (id, st.fermes.rows[id]) in SearchFermes(st, term).value
  {
    SubstringMatchesContainsPattern(Trim(term), pre, post);
  }
}
