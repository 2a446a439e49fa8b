# A verified model of the poultry-farm store

This project models, in Dafny, the core of a desktop application for running poultry farms.
The application keeps its data in SQLite behind a Rust back end. The data is a hierarchy:

- farms (`fermes`);
- flocks (`bandes`), each on one farm and led by one staff member (`personnel`);
- buildings (`batiments`), each belonging to one flock;
- weeks (`semaines`) 1 to 9 of a building;
- daily records (`suivi_quotidien`), one per week and age.

Around the hierarchy sit catalogues: care products (`soins`), chick types (`poussins`),
diseases (`maladies`) and users. There is also a feed ledger. Each feed movement is written
to `alimentation_history`, and each flock keeps a running total `alimentation_contour`.

The whole database is one immutable `Store` (`records.dfy`). Each table is a map from ids to
rows plus the next AUTOINCREMENT id (`tables.dfy`). Every repository and service operation is
a pure function from a store to `Result<…, AppError>`. An error means nothing was written.
Operations with loops are methods: the grid materializer in the week service, and the flock
service's seeding.

The schema's constraints are stated as predicates:

- the UNIQUE keys;
- the CHECKs on week number and age;
- the foreign keys: RESTRICT, CASCADE and SET NULL.

Lemmas prove that each operation keeps these predicates, and they prove the feed-ledger
conservation law.

Layout, one module per source file or component:

- **Shared modules:** `wrappers`, `errors`, `machine_ints`, `text` (trim, UTF-8 length, the one-to-one part of `char::to_lowercase`, SQL `LIKE`), `num_parse` (Rust's `str::parse` for `i32`, `i64` and `f64`), `tables`, `records`, `ledger`, `pagination`.
- **One module per repository:** `ferme_repository`, `bande_repository`, `batiment_repository`, `semaine_repository`, `suivi_repository`, `alimentation_repository`, `soin_repository`, `poussin_repository`, `maladie_repository`, `personnel_repository`.
- **One module per service:** `ferme_service`, `bande_service`, `semaine_service`, `maladie_service`, `auth_service`.
- **The week service as written:** `semaine_as_written`, the week service's turns with a missing weight stored as the empty text, as its source does; the rest of the model uses the corrected NULL binding.
- **The upsert command:** `suivi_upsert`, which updates one field of a daily record by its (week, age) address.

Where the sources disagree with each other, the model follows the code that runs:

- **Owner of a week.** `semaine_repository.rs` and the schema name a week's parent `bande_id`. But the week service, the flock service, the building cascade delete and the deaths aggregate all use a building id there. The model gives `Semaine` an `owner` that is a building id, and the parent check asks for that building.
- **Care-product unit column.** The schema's column is `unit`, but the repository reads and writes `unite_defaut`. The model follows the repository.
- **Furniture count of a farm.** Only `ferme_repository.rs` knows a `nbr_meuble` column: it checks it (line 236), inserts it (line 261) and reads it back. The schema's `fermes` table (`database/mod.rs:67-70`) has only `id` and `nom`, and the `CreateFerme`/`UpdateFerme` records (`models/ferme.rs:18-19`) carry no count, so the service (`ferme_service.rs:48-50`, `:110-113`) never supplies one. The model follows the repository: `Ferme` has the count, and the service passes it through as a parameter.
- **Building number uniqueness.** It is checked the way the code checks it (`batiment_repository.rs:60`): the input is parsed with `parse::<i64>().unwrap_or(0)`, and the stored text is compared with the parsed input's decimal form.

## Model

| member | source | states |
|---|---|---|
| `SuiviUpsert.Upsert` | src-tauri/src/commands/suivi_quotidien_commands.rs:145-285 | A missing week is an error with no write. An unknown field name is an error on both paths. A value that fails to decode is the command's error. Otherwise an existing (week, age) day is rewritten in place, else exactly one new row is inserted under a fresh id. Only the named field differs from the base row (the stored day, or the all-empty day), and every column holds what it keeps of the value written: a NaN feed amount as none. |
| `SuiviUpsert.Decode` | src-tauri/src/commands/suivi_quotidien_commands.rs:196-227 | Numeric fields take `parse().ok()`, so empty or unparsable input clears them. Text fields map `""` to none. For `soins_id`, empty or non-integer input gives none, an id of an absent product is an error, and an existing id is kept. |
| `SuiviUpsert.FieldNamed` | src-tauri/src/commands/suivi_quotidien_commands.rs:181-193 | A field name is recognised exactly when it is the name of a field, and it yields that field. |
| `SuiviUpsert.FieldNameRoundTrip` | src-tauri/src/commands/suivi_quotidien_commands.rs:196-227 | Every field's own name is recognised as that field. |
| `SuiviUpsert.Set` | src-tauri/src/commands/suivi_quotidien_commands.rs:196-227 | Setting one field changes that field only; the address and every other field keep their values. |
| `SuiviUpsert.FindDay` | src-tauri/src/commands/suivi_quotidien_commands.rs:167-177 | A found day has the requested week and age. Under a valid table, finding none means no stored day has that address. |
| `SuiviUpsert.FindDayUnique` | src-tauri/src/commands/suivi_quotidien_commands.rs:167-177 | Under the (week, age) UNIQUE key, a stored day at that address is the one the lookup finds. |
| `SuiviUpsert.UpsertKeepsConsistent` | src-tauri/src/commands/suivi_quotidien_commands.rs:232-284 | An upsert keeps every schema constraint, so a (week, age) address never holds two rows. |
| `SuiviUpsert.RewriteSame` | src-tauri/src/commands/suivi_quotidien_commands.rs:196-227 | Re-setting a field to the value it already holds, then updating, gives back the stored row. |
| `SuiviUpsert.UpdateUnchanged` | src-tauri/src/repositories/suivi_quotidien_repository.rs:142-194 | An update whose stored result equals the current row leaves the store as it was. |
| `SuiviUpsert.UpsertRewritesSame` | src-tauri/src/commands/suivi_quotidien_commands.rs:177-231 | When the day at the address already holds the value the text decodes to, the upsert succeeds on that day and leaves the store as it was. |
| `SuiviUpsert.WrittenFields` | src-tauri/src/repositories/suivi_quotidien_repository.rs:159-176 | The row written for a one-field draft keeps the base's week and age. Every other column holds what it keeps of the base's value. The named column holds what it keeps of the new value, or the base's value when the update does not write that column. |
| `SuiviUpsert.UpsertWroteDay` | src-tauri/src/commands/suivi_quotidien_commands.rs:232-284 | After a successful upsert the written day is stored at its address, with the decoded value as its column keeps it. |
| `SuiviUpsert.UpsertIdempotent` | src-tauri/src/commands/suivi_quotidien_commands.rs:177-231 | Applying the same (week, age, field, value) a second time changes nothing and answers the same row. |
| `SuiviUpsert.OptionalText` | src-tauri/src/commands/suivi_quotidien_commands.rs:205-225 | Empty text is stored as none; any other text is kept as given. |
| `SemaineService.FullSemaines` | src-tauri/src/services/semaine_service.rs:41-123 | Corrected (a missing weight bound as NULL): A weight of the building stored as text fails the first read with `InvalidColumnType`, writing nothing. Otherwise, for an existing building, the answer is exactly weeks 1 to 8 in order, each a stored row of that building, and only missing weeks are added. Each week shows its seven day slots. A missing building is an error that writes nothing. If all eight weeks already exist, nothing is written. A created week has a NULL weight. Store consistency is kept. |
| `SemaineService.FullSemainesTwice` | src-tauri/src/services/semaine_service.rs:58-71 | Corrected (a missing weight bound as NULL): For an existing building whose weights are readable, a second showing right after the first creates no week and succeeds too. |
| `SemaineService.EnsureWeeks` | src-tauri/src/services/semaine_service.rs:52-71 | Corrected (a missing weight bound as NULL): An existing week is reused for its number. A week is created only for a number 1 to 8 the building lacked, with a NULL weight. Exactly eight weeks are answered, numbered 1 to 8. A weight stored as text fails the read before any write; otherwise only a missing building fails. |
| `SemaineService.WeekDays` | src-tauri/src/services/semaine_service.rs:76-108 | A week numbered n gets seven slots with ages (n-1)*7+1 to (n-1)*7+7 in increasing order. A slot with an id is the stored day of that week and age. A slot without one is the all-empty day. |
| `SemaineService.Slots` | src-tauri/src/services/semaine_service.rs:86-105 | Each slot carries the requested week and consecutive ages. A slot holds a stored day when it has an id, else an all-empty virtual day. |
| `SemaineService.SlotsVirtualOnlyWhenAbsent` | src-tauri/src/services/semaine_service.rs:86-105 | When the fetched days are all of the week's days, a virtual slot means no stored day has that age. |
| `SemaineService.Day` | src-tauri/src/services/semaine_service.rs:86-105 | One slot: the stored day for that age if fetched, otherwise the all-empty day for that address. |
| `SemaineService.FirstAged` | src-tauri/src/services/semaine_service.rs:86-90 | The lookup finds a fetched day with the requested age exactly when one exists. |
| `SemaineService.Index` | src-tauri/src/services/semaine_service.rs:46-55 | The map by number holds every listed week under its own number; a later duplicate number wins. |
| `SemaineService.ReadWeeks` | src-tauri/src/services/semaine_service.rs:46-55 | The read fails, with `InvalidColumnType`, exactly when a week of the building holds a weight stored as text. Otherwise the building's weeks are read completely and in number order, and under the UNIQUE key the index maps each number to its stored week. |
| `SemaineService.WeekFor` | src-tauri/src/services/semaine_service.rs:58-71 | Corrected (a missing weight bound as NULL): A week already indexed is reused with no write. A missing one is created once, empty, and only for an existing building. |
| `SemaineAsWritten.WeekForAsWritten` | src-tauri/src/services/semaine_service.rs:58-71 | As written: a missing week of an existing building is created with its weight stored as the empty text, so the building now holds a text weight. An indexed week is reused with no write. |
| `SemaineAsWritten.TextWeightGrows` | src-tauri/src/repositories/semaine_repository.rs:165-174 | Adding weeks never removes a text weight the building already holds. |
| `SemaineAsWritten.ShowingAfterAsWrittenWeek` | src-tauri/src/services/semaine_service.rs:41-123 | As written: once a showing has created a missing week of an existing building, every store grown from there holds a text weight for it, and the next showing fails with `InvalidColumnType` and writes nothing. |
| `SemaineService.AddedWeeksKeepConsistent` | src-tauri/src/database/mod.rs:115-125 | Adding, for an existing building, weeks with free and distinct numbers in 1..8 keeps the week table's CHECK and UNIQUE constraints. |
| `SemaineService.UpdatePoids` | src-tauri/src/services/semaine_service.rs:133-148 | Corrected (a missing weight bound as NULL): Setting the weight changes only the weight, keeps the owner and number, and the stored weight reads back as the one given. An unknown id is NotFound; a week whose weight is stored as text fails its read with `InvalidColumnType`. On a consistent store a known id always succeeds. |
| `SemaineAsWritten.UpdatePoidsAsWritten` | src-tauri/src/services/semaine_service.rs:133-148 | As written: it succeeds exactly when the corrected update does and agrees with it for a given weight. Clearing the weight stores the empty text, and the week can no longer be read. |
| `SemaineService.InitializeSemaines` | src-tauri/src/services/semaine_service.rs:157-182 | Corrected (a missing weight bound as NULL): A weight stored as text fails the first read, writing nothing. Otherwise only missing numbers in 1..8 are created, with NULL weights, and every existing week is kept. The answer is every week of the building, sorted by number, with 1..8 all present. |
| `SemaineService.CreatedWereFree` | src-tauri/src/services/semaine_service.rs:164-176 | Every week the initializer creates has a number the building did not already use. |
| `SemaineService.GatheredNumbers` | src-tauri/src/services/semaine_service.rs:161-181 | Corrected (a missing weight bound as NULL): The weeks read before the loop and those it created, concatenated and sorted (not read again), carry every number 1 to 8. |
| `SemaineService.GatheredStored` | src-tauri/src/services/semaine_service.rs:161-181 | Corrected (a missing weight bound as NULL): The weeks read before the loop and those it created, concatenated and sorted (not read again), are exactly the building's stored weeks after the writes. |
| `AlimentationRepository.Create` | src-tauri/src/repositories/alimentation_repository.rs:11-65 | A missing flock is a validation error with no write. Otherwise one movement is recorded, and only that flock's total grows, by the quantity. |
| `AlimentationRepository.Update` | src-tauri/src/repositories/alimentation_repository.rs:119-188 | A missing target flock is a validation error; a missing movement is NotFound. Moving a movement takes its old quantity off the old flock and adds the new one to the new flock. Within one flock the total changes by new minus old. |
| `AlimentationRepository.Delete` | src-tauri/src/repositories/alimentation_repository.rs:190-226 | An unknown movement is NotFound. Otherwise its quantity is taken off its flock's total. |
| `AlimentationRepository.GetContour` | src-tauri/src/repositories/alimentation_repository.rs:228-244 | An unknown flock is NotFound. Under the ledger invariant, the answer is the sum of the flock's movements. |
| `AlimentationRepository.DeleteByBande` | src-tauri/src/repositories/alimentation_repository.rs:246-262 | Exactly that flock's movements are removed. Its total is reset to 0, other flocks are untouched, and the answer is the number removed. |
| `AlimentationRepository.CreateBalanced` | src-tauri/src/repositories/alimentation_repository.rs:41-47 | Creating a movement keeps every total equal to the sum of its flock's movements. |
| `AlimentationRepository.UpdateBalanced` | src-tauri/src/repositories/alimentation_repository.rs:167-184 | Rewriting a movement, within a flock or across flocks, keeps that equality. |
| `AlimentationRepository.DeleteBalanced` | src-tauri/src/repositories/alimentation_repository.rs:219-222 | Deleting a movement keeps that equality. |
| `AlimentationRepository.DeleteByBandeBalanced` | src-tauri/src/repositories/alimentation_repository.rs:250-260 | Clearing a flock's history together with its total keeps that equality. |
| `Ledger.TotalInsert` | src-tauri/src/repositories/alimentation_repository.rs:31-47 | A new movement adds its quantity to its own flock's sum, and to no other. |
| `Ledger.TotalPut` | src-tauri/src/repositories/alimentation_repository.rs:160-184 | Rewriting a movement swaps its old share of a flock's sum for the new share. |
| `Ledger.TotalRemove` | src-tauri/src/repositories/alimentation_repository.rs:209-222 | Deleting a movement takes its share off its flock's sum. |
| `BatimentRepository.CreateCheck` | src-tauri/src/repositories/batiment_repository.rs:17-69 | The checks run in order: flock, staff member, chick type, then a number already used in the flock. Each gives its own validation error, and all pass exactly when none applies. |
| `BatimentRepository.Create` | src-tauri/src/repositories/batiment_repository.rs:12-95 | A refused building writes nothing. An accepted one is stored under a fresh id with the given fields, and no other table changes. |
| `BatimentRepository.CanonicalNumberTaken` | src-tauri/src/repositories/batiment_repository.rs:57-69 | For a number in canonical decimal form, the clash check is plain equality with the stored numbers of the flock. |
| `BatimentRepository.NonNumericNumberTaken` | src-tauri/src/repositories/batiment_repository.rs:57-69 | A non-numeric number is treated as 0, so it clashes with any stored "0" of the flock. |
| `BatimentRepository.Probe` | src-tauri/src/repositories/batiment_repository.rs:57-60 | The compared key is the number's integer value printed back, or "0" when it does not parse. |
| `BatimentRepository.UpdateCheck` | src-tauri/src/repositories/batiment_repository.rs:167-203 | Update checks flock, chick type, then staff member, each with its own validation error. |
| `BatimentRepository.Update` | src-tauri/src/repositories/batiment_repository.rs:161-232 | After the checks, an unknown building is NotFound. Otherwise only that building's row is replaced. |
| `BatimentRepository.Delete` | src-tauri/src/repositories/batiment_repository.rs:234-287 | An absent building is NotFound with nothing removed. Otherwise the delete removes the building, its weeks, every daily record of those weeks, and its disease links. Every other row and table is unchanged. |
| `BatimentRepository.DeleteKeepsConsistent` | src-tauri/src/repositories/batiment_repository.rs:242-276 | The cascade leaves no week or daily record without its parent. |
| `BatimentRepository.AvailableNumbers` | src-tauri/src/repositories/batiment_repository.rs:289-313 | A missing farm is a validation error; otherwise the answer is "1" to "20" in order. |
| `BatimentRepository.AvailableNumbersParse` | src-tauri/src/repositories/batiment_repository.rs:309-311 | Every offered number parses back to its position and is already in the canonical form the clash check compares. |
| `BatimentRepository.AddMaladie` | src-tauri/src/repositories/batiment_repository.rs:315-347 | A missing building or disease is NotFound. Otherwise the link is added and nothing else changes. |
| `BatimentRepository.AddMaladieIdempotent` | src-tauri/src/repositories/batiment_repository.rs:321-343 | Linking the same disease to the same building twice equals linking it once. |
| `BatimentRepository.AddMaladieToBande` | src-tauri/src/repositories/batiment_repository.rs:349-373 | A missing disease is NotFound. Otherwise every building of the flock gets the link, and existing links stay. Only links to this disease for buildings of the flock are added, and the count answered is the number of new links. |
| `BatimentRepository.AddMaladieToBandeIdempotent` | src-tauri/src/repositories/batiment_repository.rs:355-371 | A second call adds nothing and answers 0. |
| `SuiviRepository.Constraints` | src-tauri/src/database/mod.rs:128-146 | A daily record is accepted exactly when its age is positive, its (week, age) address is free, and its care product, if any, exists. |
| `SuiviRepository.Create` | src-tauri/src/repositories/suivi_quotidien_repository.rs:27-76 | A missing week is a validation error. Otherwise the row is stored under a fresh id exactly when the constraints hold. |
| `SuiviRepository.BindReal` | src-tauri/src/repositories/suivi_quotidien_repository.rs:52-56 | A bound feed amount is kept as given, except NaN, which SQLite stores as NULL. |
| `SuiviRepository.Inserted` | src-tauri/src/repositories/suivi_quotidien_repository.rs:45-61 | Create stores every field given except the two totals, which stay empty; a NaN feed amount is stored as none. |
| `SuiviRepository.Updated` | src-tauri/src/repositories/suivi_quotidien_repository.rs:160-177 | Update writes every field given except the two totals, which keep their stored values; a NaN feed amount is stored as none. |
| `SuiviRepository.GetById` | src-tauri/src/repositories/suivi_quotidien_repository.rs:110-140 | Answers the stored row, or NotFound when it is absent. |
| `SuiviRepository.Update` | src-tauri/src/repositories/suivi_quotidien_repository.rs:142-194 | A missing week is a validation error, then a missing row is NotFound. Otherwise only that row is rewritten. |
| `SuiviRepository.Delete` | src-tauri/src/repositories/suivi_quotidien_repository.rs:196-209 | Exactly the given row is removed; an absent id is NotFound. |
| `SuiviRepository.GetBySemaine` | src-tauri/src/repositories/suivi_quotidien_repository.rs:211-243 | Only that week's rows are answered, all of them under a valid table, ordered by age. |
| `SuiviRepository.CreateKeepsConsistent` | src-tauri/src/database/mod.rs:128-146 | Create keeps the daily-record constraints and the parent links. |
| `SuiviRepository.UpdateKeepsConsistent` | src-tauri/src/database/mod.rs:128-146 | Update keeps them too. |
| `SemaineRepository.Constraints` | src-tauri/src/database/mod.rs:115-125 | A week is accepted exactly when its number is in 1..9 and its (owner, number) key is free. |
| `SemaineRepository.ReadPoids` | src-tauri/src/repositories/semaine_repository.rs:88-93 | Reading the weight as `Option<f64>` gives none for NULL and the number for a number, and fails with `InvalidColumnType` exactly on text. |
| `SemaineRepository.Bind` | src-tauri/src/repositories/semaine_repository.rs:45-52 | Corrected binding: the weight reads back as the one given, a missing weight included. |
| `SemaineRepository.BindAsWritten` | src-tauri/src/repositories/semaine_repository.rs:45-52 | As written: a weight is bound as its text, which the REAL column turns back into the number, and a missing weight as the empty text, which stays text and cannot be read. |
| `SemaineRepository.Create` | src-tauri/src/repositories/semaine_repository.rs:27-62 | A missing parent is a validation error. Otherwise the given number and the weight, NULL when missing, are stored under a fresh id when the constraints allow. |
| `SemaineRepository.CreateAsWritten` | src-tauri/src/repositories/semaine_repository.rs:45-52 | As written: the same checks, and the weight bound as text. |
| `SemaineRepository.CreateThenGet` | src-tauri/src/repositories/semaine_repository.rs:27-100 | A week created with the corrected binding reads back, with the weight it was given. |
| `SemaineRepository.CreateAsWrittenUnreadable` | src-tauri/src/repositories/semaine_repository.rs:45-100 | As written, a week created without a weight cannot be read back: the read fails with `InvalidColumnType`. |
| `SemaineRepository.GetById` | src-tauri/src/repositories/semaine_repository.rs:82-100 | Answers the stored week, NotFound when it is absent, and `InvalidColumnType` when its weight is stored as text. |
| `SemaineRepository.Update` | src-tauri/src/repositories/semaine_repository.rs:102-140 | The parent is checked first, then an absent row is NotFound. Only that row changes, its weight NULL when missing. |
| `SemaineRepository.UpdateAsWritten` | src-tauri/src/repositories/semaine_repository.rs:120-128 | As written: the same checks, and the weight bound as text. |
| `SemaineRepository.UpdateThenGet` | src-tauri/src/repositories/semaine_repository.rs:102-140 | A week updated with the corrected binding reads back, with the weight it was given. |
| `SemaineRepository.UpdateAsWrittenUnreadable` | src-tauri/src/repositories/semaine_repository.rs:120-128 | As written, clearing a week's weight makes the week unreadable. |
| `SemaineRepository.Delete` | src-tauri/src/repositories/semaine_repository.rs:142-156 | An absent week is NotFound. Otherwise the week and, by cascade, exactly its daily records are removed. |
| `SemaineRepository.Listing` | src-tauri/src/repositories/semaine_repository.rs:161-163 | Only the owner's rows are listed, all of them under a valid table, ordered by number. |
| `SemaineRepository.GetByOwner` | src-tauri/src/repositories/semaine_repository.rs:158-177 | The read fails with `InvalidColumnType` when one of the owner's weeks holds a weight stored as text, and under a valid table exactly then. Otherwise it answers the listing, every weight readable. |
| `SemaineRepository.TextListed` | src-tauri/src/repositories/semaine_repository.rs:165-174 | A text weight appears in the listing of the owner's weeks exactly when one of the owner's stored weeks has one. |
| `SemaineRepository.CreateKeepsConsistent` | src-tauri/src/database/mod.rs:115-125 | Create keeps the week constraints and the parent links. |
| `SemaineRepository.UpdateKeepsConsistent` | src-tauri/src/database/mod.rs:115-125 | Update keeps them. |
| `SemaineRepository.DeleteKeepsConsistent` | src-tauri/src/database/mod.rs:140 | Delete with its cascade leaves no orphan daily record. |
| `BandeRepository.Parents` | src-tauri/src/repositories/bande_repository.rs:32-56 | A missing farm, then a missing staff member, is a validation error. |
| `BandeRepository.Create` | src-tauri/src/repositories/bande_repository.rs:28-85 | With both parents present, the flock is stored under a fresh id with a zero feed total. Otherwise it fails with the parent check's error. |
| `BandeRepository.GetById` | src-tauri/src/repositories/bande_repository.rs:120-151 | Answers the flock with its farm's and staff member's names. An absent flock is NotFound. |
| `BandeRepository.Update` | src-tauri/src/repositories/bande_repository.rs:153-213 | Same parent checks, then NotFound for an absent flock. Otherwise the fields are replaced and the feed total is kept. |
| `BandeRepository.Delete` | src-tauri/src/repositories/bande_repository.rs:215-229 | An absent flock is NotFound. Otherwise the flock and, by cascade, exactly its buildings go. The farms, staff and feed history are untouched. |
| `BandeRepository.Cut` | src-tauri/src/database/mod.rs:115-146 | Removing buildings cascades to exactly their weeks, those weeks' daily records, and their disease links. |
| `BandeRepository.CreateBalanced` | src-tauri/src/repositories/bande_repository.rs:28-85 | A new flock starts with a feed total equal to its (empty) history, and the ledger stays balanced. |
| `BandeRepository.UpdateBalanced` | src-tauri/src/repositories/bande_repository.rs:153-213 | Updating a flock keeps the ledger balanced. |
| `BandeRepository.DeleteBalanced` | src-tauri/src/repositories/bande_repository.rs:215-229 | Deleting a flock keeps the ledger balanced for the flocks that remain. |
| `BandeRepository.DeleteKeepsConsistent` | src-tauri/src/database/mod.rs:98-146 | Deleting a flock leaves no orphan building, week or daily record. |
| `BandeService.CheckBuilding` | src-tauri/src/services/bande_service.rs:86-105 | A building needs a positive quantity, a non-blank number and a non-negative chick type. The first failing check gives its validation error. |
| `BandeService.CreateWithBuildings` | src-tauri/src/services/bande_service.rs:58-148 | Corrected (every write on the transaction's connection, a missing weight bound as NULL): An empty building list is a validation error, then the flock's parents are checked. On success the flock is stored under a fresh id. Each building is stored under the new flock with week 1, weight none, and seven empty days. |
| `BandeService.PlantAll` | src-tauri/src/services/bande_service.rs:82-141 | Corrected (every write on the transaction's connection, a missing weight bound as NULL): Every building of the list passed its checks and was planted in order, each with its own week and days. |
| `BandeService.PlantOne` | src-tauri/src/services/bande_service.rs:86-140 | Corrected (every write on the transaction's connection, a missing weight bound as NULL): One building: checks, the building row with the flock's id, week 1, and its seven days. |
| `BandeService.SeedDays` | src-tauri/src/services/bande_service.rs:125-140 | Corrected (every write on the transaction's connection): The days of the first week are stored under fresh ids, one per age, each with every metric empty. |
| `BandeService.PlantedDaysDistinct` | src-tauri/src/services/bande_service.rs:125-140 | Corrected (every write on the transaction's connection): The seven seeded days of a building are seven different rows. |
| `BandeService.WeekElsewhere` | src-tauri/src/repositories/semaine_repository.rs:27-52 | The week insert on another pooled connection, with the flock's transaction open: a building that connection cannot see fails the parent check, and one it can see makes the INSERT fail on the write lock. |
| `BandeService.CreateWithBuildingsAsWritten` | src-tauri/src/services/bande_service.rs:58-147 | As written: the creation always fails. An empty list, the flock's parents and the first building's checks give their errors as before; past them, the first week's insert fails and the transaction is rolled back. |
| `BandeService.CreateWithBuildingsAsWrittenFails` | src-tauri/src/services/bande_service.rs:72-139 | Wherever the creation with every write on the transaction's connection succeeds, the creation as written fails because the first week finds no building. |
| `BandeService.GetById` | src-tauri/src/services/bande_service.rs:156-167 | An id of 0 or less is a validation error. Otherwise the repository's answer is given. |
| `BandeService.Update` | src-tauri/src/services/bande_service.rs:182-194 | An id of 0 or less is a validation error. Otherwise the repository's update is applied. |
| `BandeService.Delete` | src-tauri/src/services/bande_service.rs:196-214 | An id of 0 or less is a validation error. An absent flock is NotFound. Otherwise the repository's cascade delete is applied. |
| `Records.EmptySuivi` | src-tauri/src/services/bande_service.rs:125-140 | A seeded or virtual day has its address and every metric empty. |
| `FermeRepository.CheckFields` | src-tauri/src/repositories/ferme_repository.rs:229-241 | A blank (trimmed) name, then a negative furniture count, is a validation error. |
| `FermeRepository.Create` | src-tauri/src/repositories/ferme_repository.rs:225-272 | After the field checks, an existing name is a duplicate error. Otherwise the farm is stored under a fresh id. |
| `FermeRepository.GetById` | src-tauri/src/repositories/ferme_repository.rs:291-308 | Answers the stored farm, or NotFound when it is absent. |
| `FermeRepository.Update` | src-tauri/src/repositories/ferme_repository.rs:310-359 | The same field checks apply. A name held by a different farm is a duplicate, and the farm's own name is allowed. Then an absent id is NotFound. |
| `FermeRepository.Delete` | src-tauri/src/repositories/ferme_repository.rs:361-388 | While any flock references the farm, delete is a constraint violation. Otherwise an absent id is NotFound, and a present farm is removed. |
| `FermeRepository.CreateKeepsNamesUnique` | src-tauri/src/database/mod.rs:67-73 | Creating a farm keeps farm names unique. |
| `FermeRepository.UpdateKeepsNamesUnique` | src-tauri/src/database/mod.rs:67-73 | Updating a farm keeps farm names unique. |
| `FermeRepository.DeleteKeepsBandesAnchored` | src-tauri/src/database/mod.rs:107 | After a delete, every flock still has its farm. |
| `FermeRepository.DeathsForBande` | src-tauri/src/repositories/ferme_repository.rs:518-534 | The answer is the sum of deaths per day over the daily records of the weeks of the flock's buildings, with empty values ignored, read as an `i32`. A sum outside `i64` is an overflow error. |
| `FermeRepository.DeathsSumNoBuildings` | src-tauri/src/repositories/ferme_repository.rs:522-530 | A flock without buildings has 0 deaths. |
| `FermeRepository.DeathsAfterInsert` | src-tauri/src/repositories/ferme_repository.rs:522-530 | Recording a new day adds exactly its deaths to its flock's sum. |
| `Errors.CheckId` | src-tauri/src/services/ferme_service.rs:71-76 | The services' id guard refuses an id exactly when it is 0 or less, as a validation error on field `id`. |
| `FermeService.CheckLength` | src-tauri/src/services/ferme_service.rs:35-45 | A name is refused when its byte length, before trimming, is under 2 or over 100. |
| `FermeService.CreateFerme` | src-tauri/src/services/ferme_service.rs:33-53 | The length check runs first, then the repository gets the trimmed name, so a stored name is already trimmed. |
| `FermeService.GetFermeById` | src-tauri/src/services/ferme_service.rs:70-86 | An id of 0 or less is a validation error. |
| `FermeService.UpdateFerme` | src-tauri/src/services/ferme_service.rs:88-115 | The id check, then the length check, then a repository update with the trimmed name. |
| `FermeService.DeleteFerme` | src-tauri/src/services/ferme_service.rs:125-144 | The id check, then NotFound for an absent farm, before the repository's guarded delete. |
| `FermeService.SearchFermes` | src-tauri/src/services/ferme_service.rs:146-166 | A blank term, or one shorter than 2 bytes, is a validation error. Otherwise the trimmed term is searched. |
| `FermeService.SearchByName` | src-tauri/src/repositories/ferme_repository.rs:390-408 | Only stored farms whose name matches `%term%` are answered, and under a valid table all of them are. |
| `FermeService.SearchFindsContaining` | src-tauri/src/services/ferme_service.rs:147-161 | A farm whose name contains the trimmed term is found. |
| `SoinRepository.ValidateUnit` | src-tauri/src/repositories/soin_repository.rs:87-98 | A unit is valid exactly when its lower-case form is one of l, ml, kg, g, mg, dose, comprimé, ml/l, g/l. |
| `Text.ToLowerBeyondLatin1` | src-tauri/src/repositories/soin_repository.rs:87-98 | The Kelvin sign followed by g lower-cases to "kg", Œ and œ lower-case alike, and Cyrillic capitals fold to their small letters. |
| `SoinRepository.ValidateUnitIgnoresCase` | src-tauri/src/repositories/soin_repository.rs:87-98 | Validity does not depend on letter case. |
| `SoinRepository.CheckFields` | src-tauri/src/repositories/soin_repository.rs:106-120 | The checks, in order: a blank name, a blank unit, then an invalid unit. |
| `SoinRepository.Create` | src-tauri/src/repositories/soin_repository.rs:102-165 | After the field checks, an existing name is a duplicate. Otherwise the product is stored under a fresh id. |
| `SoinRepository.GetById` | src-tauri/src/repositories/soin_repository.rs:256-284 | Answers the stored product, or NotFound when it is absent. |
| `SoinRepository.Update` | src-tauri/src/repositories/soin_repository.rs:286-351 | The field checks run first. A name held by another id is a duplicate, then an absent id is NotFound. |
| `SoinRepository.Delete` | src-tauri/src/repositories/soin_repository.rs:353-380 | While any daily record references the product, delete is refused. Otherwise an absent id is NotFound. |
| `SoinRepository.DeleteSettingNull` | src-tauri/src/database/mod.rs:141 | Deleting a product without the guard would clear the reference in exactly the daily records that named it. |
| `SoinRepository.DeleteNeverSetsNull` | src-tauri/src/repositories/soin_repository.rs:357-377 | Because of the guard, the schema's SET NULL never has a row to act on. |
| `SoinRepository.CreateKeepsNamesUnique` | src-tauri/src/database/mod.rs:87-95 | Creating a product keeps product names unique. |
| `SoinRepository.UpdateKeepsNamesUnique` | src-tauri/src/database/mod.rs:87-95 | Updating a product keeps product names unique. |
| `SoinRepository.DeleteKeepsConsistent` | src-tauri/src/database/mod.rs:141 | A guarded delete leaves no daily record naming a missing product. |
| `SoinRepository.GetAll` | src-tauri/src/repositories/soin_repository.rs:167-254 | The page holds matching products only, at most `per_page` of them, with `has_next` = page < total_pages and `has_prev` = page > 1. |
| `SoinRepository.GetAllTotal` | src-tauri/src/repositories/soin_repository.rs:196-206 | The total is the number of products that match both search terms. |
| `Pagination.Offset` | src-tauri/src/repositories/soin_repository.rs:209 | The offset is max(page-1, 0) times per_page, wrapped to 32 bits. |
| `Pagination.TotalPages` | src-tauri/src/repositories/soin_repository.rs:210 | The page count is 1 when there is nothing to list. Otherwise it is the ceiling of total / per_page, saturating at `u32::MAX`, which per_page 0 reaches. |
| `Pagination.Paginate` | src-tauri/src/repositories/soin_repository.rs:245-253 | The page is a window of the matching rows, at most `per_page` long, with `has_next` = page < total_pages and `has_prev` = page > 1. |
| `Pagination.PageHoldsRow` | src-tauri/src/repositories/soin_repository.rs:209-221 | Row i appears on page i / per_page + 1 at position i mod per_page. |
| `Pagination.PagesUpToCountAreFilled` | src-tauri/src/repositories/soin_repository.rs:245-253 | Every page up to total_pages is non-empty, and only the last has no next. |
| `Pagination.Term` | src-tauri/src/repositories/soin_repository.rs:174-194 | A search term counts only when it is non-blank once trimmed, and it is used trimmed. |
| `Pagination.BlankSearchKeepsAll` | src-tauri/src/repositories/poussin_repository.rs:74-80 | A blank or absent search term adds no condition. |
| `PoussinRepository.Create` | src-tauri/src/repositories/poussin_repository.rs:37-65 | The chick type is stored under a fresh id. |
| `PoussinRepository.Update` | src-tauri/src/repositories/poussin_repository.rs:147-177 | An absent id is NotFound; otherwise only that row is renamed. |
| `PoussinRepository.Delete` | src-tauri/src/repositories/poussin_repository.rs:179-192 | An absent id is NotFound; otherwise exactly that row is removed. |
| `PoussinRepository.GetAll` | src-tauri/src/repositories/poussin_repository.rs:67-145 | Only matching rows, at most `per_page` of them, with the shared `has_next` and `has_prev` rules. |
| `PoussinRepository.GetAllTotal` | src-tauri/src/repositories/poussin_repository.rs:82-98 | The total counts the rows matching the name term. |
| `MaladieRepository.Create` | src-tauri/src/repositories/maladie_repository.rs:37-66 | The disease is stored under a fresh id with the name as given. |
| `MaladieRepository.Update` | src-tauri/src/repositories/maladie_repository.rs:148-178 | An absent id is NotFound; otherwise only that row is renamed. |
| `MaladieRepository.Delete` | src-tauri/src/repositories/maladie_repository.rs:180-193 | An absent id is NotFound; otherwise exactly that row is removed. |
| `MaladieRepository.GetAll` | src-tauri/src/repositories/maladie_repository.rs:68-146 | Only matching rows, at most `per_page` of them, with the shared `has_next` and `has_prev` rules. |
| `MaladieRepository.GetAllTotal` | src-tauri/src/repositories/maladie_repository.rs:83-99 | The total counts the rows matching the name term. |
| `PersonnelRepository.Create` | src-tauri/src/repositories/personnel_repository.rs:34-63 | A name or phone number already held trips the UNIQUE constraint. Otherwise the member is stored under a fresh id. |
| `PersonnelRepository.Update` | src-tauri/src/repositories/personnel_repository.rs:154-185 | An absent id is NotFound. A name or number held by another member trips UNIQUE. Otherwise only that row changes. |
| `PersonnelRepository.Delete` | src-tauri/src/repositories/personnel_repository.rs:187-199 | An absent id is NotFound. A member a flock still names is refused by the RESTRICT key. |
| `PersonnelRepository.CreateKeepsUnique` | src-tauri/src/database/mod.rs:76-84 | Create keeps names and phone numbers unique. |
| `PersonnelRepository.UpdateKeepsUnique` | src-tauri/src/database/mod.rs:76-84 | Update keeps them unique. |
| `PersonnelRepository.DeleteKeepsBandesStaffed` | src-tauri/src/database/mod.rs:108 | After a delete, every flock still has its staff member. |
| `PersonnelRepository.GetAll` | src-tauri/src/repositories/personnel_repository.rs:65-152 | Only rows matching both the name and the phone term (ignoring blank terms), at most `per_page` of them, with the shared page rules. |
| `PersonnelRepository.GetAllTotal` | src-tauri/src/repositories/personnel_repository.rs:72-104 | The total counts the rows matching both terms. |
| `MaladieService.CheckName` | src-tauri/src/services/maladie_service.rs:20-26 | A blank name, then a name over 255 bytes, is refused. |
| `MaladieService.CreateAsWritten` | src-tauri/src/services/maladie_service.rs:18-37 | As written: the duplicate check compares the trimmed input, case-insensitively, but the name is stored untrimmed. |
| `MaladieService.CreateAsWrittenAdmitsTwins` | src-tauri/src/services/maladie_service.rs:29-35 | Creating "a " twice from an empty catalogue succeeds both times and leaves two diseases with the same name. |
| `MaladieService.UpdateAsWritten` | src-tauri/src/services/maladie_service.rs:52-71 | As written: the update stores the untrimmed name after the same check, excluding its own id. |
| `MaladieService.UpdateAsWrittenAdmitsTwins` | src-tauri/src/services/maladie_service.rs:63-69 | Renaming "a" to "b " beside a stored "b " succeeds and leaves twins. |
| `MaladieService.Create` | src-tauri/src/services/maladie_service.rs:18-37 | Corrected: the same checks and errors, with the trimmed name stored. |
| `MaladieService.Update` | src-tauri/src/services/maladie_service.rs:52-71 | Corrected: the same checks, its own id excluded from the duplicate check, then NotFound, with the trimmed name stored. |
| `MaladieService.Delete` | src-tauri/src/services/maladie_service.rs:74-77 | An absent id is NotFound; otherwise only the disease row goes. |
| `MaladieService.CreateKeepsNamesDistinct` | src-tauri/src/services/maladie_service.rs:29-35 | With the correction, disease names stay trimmed and distinct ignoring case. |
| `MaladieService.UpdateKeepsNamesDistinct` | src-tauri/src/services/maladie_service.rs:63-69 | With the correction, updates keep them trimmed and distinct ignoring case. |
| `AuthService.ValidateProfileData` | src-tauri/src/services/auth_service.rs:179-199 | Profile data is valid exactly when the user name is 3 to 50 bytes, the email contains '@', and the email is at most 255 bytes. Each failure has its own error, checked in that order. |
| `AuthService.CheckPassword` | src-tauri/src/services/auth_service.rs:121-127 | A password is accepted exactly when it is 6 to 255 bytes long. |
| `AuthService.ValidateUserData` | src-tauri/src/services/auth_service.rs:147-176 | User data applies the profile rules, then the password rule. |
| `AuthService.UserDataIsProfileAndPassword` | src-tauri/src/services/auth_service.rs:147-199 | User data is valid exactly when the profile data and the password are. |
| `AuthService.GenerateToken` | src-tauri/src/services/auth_service.rs:136-144 | The new token maps to the user's id, and every other token keeps its mapping. |
| `AuthService.FreshTokenAddsOneSession` | src-tauri/src/services/auth_service.rs:136-144 | A fresh token adds exactly one session. |
| `AuthService.Register` | src-tauri/src/services/auth_service.rs:27-55 | The checks run in order: a wrong registration code, a user name or email already taken, then field validation. On success the user is stored with the hashed password, and a token is issued for the new id. |
| `AuthService.FindByUsername` | src-tauri/src/services/auth_service.rs:58-73 | The lookup finds the first user with that name, or none exactly when no user has it. |
| `AuthService.Login` | src-tauri/src/services/auth_service.rs:58-73 | Login succeeds exactly when the named user exists and the password matches the stored hash, and then a token is issued. Otherwise the credentials error is returned. |
| `AuthService.Logout` | src-tauri/src/services/auth_service.rs:76-82 | The token is removed, an unknown token is not an error, and other sessions are untouched. |
| `AuthService.VerifyToken` | src-tauri/src/services/auth_service.rs:85-99 | Answers the user exactly when the token is mapped and that user exists. |
| `AuthService.RegisterThenVerify` | src-tauri/src/services/auth_service.rs:43-55 | The token a registration returns verifies to the new user. |
| `AuthService.LoginThenVerify` | src-tauri/src/services/auth_service.rs:58-73 | The token a login returns verifies to that user. |
| `AuthService.LogoutThenVerify` | src-tauri/src/services/auth_service.rs:76-99 | After logout the token no longer verifies, and every other token verifies as before. |
| `AuthService.LogoutIdempotent` | src-tauri/src/services/auth_service.rs:76-82 | Logging out twice equals logging out once. |
| `AuthService.UpdateProfile` | src-tauri/src/services/auth_service.rs:102-113 | Profile validation runs first, then an unknown user is NotFound. Otherwise the name and email change and the hash is kept. |
| `AuthService.UpdatePassword` | src-tauri/src/services/auth_service.rs:116-133 | The new password's length check runs first, then an unknown user is NotFound, then a wrong current password is refused. Otherwise only the hash changes. |
| `AuthService.UpdateProfileThenFind` | src-tauri/src/services/auth_service.rs:102-113 | After a profile update, looking up the new name finds the updated user, with the new name and email and the old hash, unless a user with a lower id already has that name. Sessions are untouched. |
| `AuthService.FindAfterPut` | src-tauri/src/services/auth_service.rs:58-73 | Rewriting a user without renaming it leaves the lookup by name finding that same user, with its new content. |
| `AuthService.UpdatePasswordThenLogin` | src-tauri/src/services/auth_service.rs:116-133 | After a password change, logging in with the new password succeeds. |

## Left out

- I/O: the connection pool, PRAGMAs and index creation. SQL text is left out too: filters are predicates over rows, and the LIKE pattern is modelled as a matcher.
- Transactions and atomicity. Each repository operation is atomic: on an error the caller keeps the old store. The flock service writes the flock and its buildings inside a transaction on one connection, but the weeks and days through repositories that take other pooled connections (`bande_service.rs:33-34`, `:119`, `:139`). In WAL mode those connections do not see the uncommitted building, so the week's insert fails, the `?` returns early and the dropped transaction rolls everything back. `BandeService.CreateWithBuildingsAsWritten` models that; `BandeService.CreateWithBuildings` and its helpers model the evidently intended creation, with every write on the transaction's connection (see Findings). The rollback itself is modelled by answering an error, after which the caller keeps the old store.
- Clocks and time: `created_at` and `updated_at` columns, chrono timestamp parsing, and the year-filtered farm statistics.
- Floating point. Feed quantities and weights are `real`. Rounding, the float percentages of the statistics, and SQLite's floating `SUM` are left out. `f64` parsing is modelled as an exact decimal value with infinities and NaN kept as tags.
- `Pagination.TotalPages`: the source computes the page count with `f64` division and `ceil`. The model uses integer ceiling division, exact below `u32::MAX`, and saturates there as Rust's cast does.
- SoinRepository.GetAll: lists in id order, not `ORDER BY nom`. Its contract does not say which window of the matching rows the page is; `Pagination.PageHoldsRow` states the window once for all four listings.
- PoussinRepository.GetAll: id order, not `ORDER BY nom`, and the same unstated window.
- MaladieRepository.GetAll: id order, not `ORDER BY nom`, and the same unstated window.
- PersonnelRepository.GetAll: id order, not `ORDER BY nom`, and the same unstated window.
- The flocks' and buildings' list queries, including `ORDER BY date_entree DESC`, are left out.
- The `unwrap_or(0)` fallback on a failed count query.
- Listing helpers that only read whole tables: `get_poussin_list`, `get_maladies_list`, the care-product name search and most-used query, feed history `get_by_bande` and `get_by_id`, and the farm listings. They add no rule beyond the filters already modelled.
- `MaladieService.Create` and `MaladieService.Update`: the service skips its duplicate check when listing the catalogue fails (`if let Ok`). A failed listing is not modelled.
- Diseases, chick types, buildings, building–disease links and users have no DDL in the schema code. The model gives diseases, chick types and users no key, and deleting a disease leaves its building links in place.
- Users: bcrypt hashing and verification are the caller-supplied `hash` and `matches` functions. Token UUIDs are a token parameter, fresh by assumption. The `Mutex` around the token map is left out: the map is a plain value. Each command builds a new service with an empty map, so the map does not outlive one command. The model keeps one map across calls, which is what the service's own methods promise. The user repository's SQL wrappers are part of the service steps.
- Errors: the disease service returns `String` errors. They are modelled as `AppError` values that name the field and the kind of failure, not the French text.
- `SemaineService.FullSemaines`: the service reads a building's weeks via a repository function that does not exist under that name. The model reads them via `SemaineRepository.GetByOwner`.
- `AlimentationRepository.Create` and the other ledger operations do not model the `f64` rounding of `alimentation_contour`.
- `BandeRepository.Delete`: the feed history is not cascaded, because the schema shown has no feed-history table. A deleted flock's movements stay, and the ledger invariant is stated over existing flocks.
- ValidateUnit (`SoinRepository.ValidateUnit`): lower-casing covers the letters `char::to_lowercase` maps to one other letter in Basic Latin, Latin-1, Latin Extended-A and Additional, the Greek capitals U+0386–U+03AB, the Cyrillic block U+0400–U+052F, Armenian, the Kelvin, Ångström and Ohm signs and the full-width Latin capitals. Left as they are, though Rust lowers them: the other Greek capitals (U+0370, U+0372, U+0376, U+037F, U+03CF, U+03D8–U+03EE, U+03F4, U+03F7, U+03F9, U+03FA, U+03FD–U+03FF) and Greek Extended (U+1F08 and the rest); Latin Extended-B, -C and -D; Cyrillic Extended; Georgian, Cherokee, Glagolitic, Coptic, Deseret, Osage and Adlam; U+2132, the Roman numerals U+2160–U+216F and the circled letters U+24B6–U+24CF; U+0130, which lower-cases to two characters; and the final-sigma rule, which lower-cases Σ to ς at the end of a word.
- ValidateUnitIgnoresCase (`SoinRepository.ValidateUnitIgnoresCase`): stated for the lower-casing above, so it is weaker than Rust's for the characters listed there as left as they are.
- CreateAsWritten (`MaladieService.CreateAsWritten`): its duplicate check compares names under the lower-casing above, not the full `to_lowercase`.
- UpdateAsWritten (`MaladieService.UpdateAsWritten`): the same partial lower-casing in its duplicate check.
- Create (`MaladieService.Create`): the same partial lower-casing in its duplicate check.
- Update (`MaladieService.Update`): the same partial lower-casing in its duplicate check.
- CreateKeepsNamesDistinct (`MaladieService.CreateKeepsNamesDistinct`): the names are distinct under the partial lower-casing, which is weaker than distinct under Rust's `to_lowercase`.
- UpdateKeepsNamesDistinct (`MaladieService.UpdateKeepsNamesDistinct`): the same as for create.
- CreateFerme (`FermeService.CreateFerme`): the furniture count is a free parameter, because the service's input record carries none and the schema has no such column (see above).
- UpdateFerme (`FermeService.UpdateFerme`): the same free furniture count.
- SearchByName (`FermeService.SearchByName`): the matches are answered in id order, not in the `ORDER BY nom` order of `ferme_repository.rs:395`; the contract states which farms are found, not their order.
- Create (`BandeRepository.Create`): a new flock's feed total starts at 0.0. The INSERT (`bande_repository.rs:60-61`) does not write `alimentation_contour`, and the schema's `bandes` table (`database/mod.rs:98-109`) has no such column. Where the column exists with a default of 0.0 the model is exact; with no default the total would be NULL, the ledger's `+` would keep it NULL, and reading it as `f64` would fail.
- CreateBalanced (`BandeRepository.CreateBalanced`): rests on the same zero start.
- Offset (`Pagination.Offset`): the 32-bit wrap-around is that of a release build. A debug build panics on the overflow instead.
- Bind (`SemaineRepository.Bind`): a weight is a finite `real`. The NaN and infinite `f64` values, whose `to_string` text SQLite would keep as text, are not modelled.
- WeekFor (`SemaineService.WeekFor`): creates a missing week with a NULL weight, the corrected binding. As written the weight is the empty text; `SemaineAsWritten.WeekForAsWritten` models that turn.
- EnsureWeeks (`SemaineService.EnsureWeeks`): promises NULL weights for the weeks it creates, through the corrected `WeekFor`.
- FullSemaines (`SemaineService.FullSemaines`): the same corrected weeks. As written, a showing that creates a week leaves it unreadable.
- FullSemainesTwice (`SemaineService.FullSemainesTwice`): the second success holds only under the corrected binding. As written, the second showing fails with `InvalidColumnType` after a first one that created a week (`SemaineAsWritten.ShowingAfterAsWrittenWeek`).
- InitializeSemaines (`SemaineService.InitializeSemaines`): creates weeks with NULL weights, the corrected binding; as written they are stored as the empty text.
- GatheredNumbers (`SemaineService.GatheredNumbers`): stated for the corrected initializer.
- GatheredStored (`SemaineService.GatheredStored`): stated for the corrected initializer.
- UpdatePoids (`SemaineService.UpdatePoids`): a cleared weight reads back as none only under the corrected binding. As written, the week becomes unreadable (`SemaineAsWritten.UpdatePoidsAsWritten`).
- CreateWithBuildings (`BandeService.CreateWithBuildings`): models every write on the transaction's connection. As written, every creation past the checks fails and is rolled back (`BandeService.CreateWithBuildingsAsWritten`).
- PlantAll (`BandeService.PlantAll`): the corrected planting, on the transaction's store; as written, the first building's week fails.
- PlantOne (`BandeService.PlantOne`): the corrected planting. Its week 1 has a NULL weight, and its insert sees the transaction's building; as written it would do neither.
- SeedDays (`BandeService.SeedDays`): the corrected seeding on the transaction's store. As written, the day inserts are never reached, because the week before them fails.
- PlantedDaysDistinct (`BandeService.PlantedDaysDistinct`): stated for the corrected creation.
- `BatimentRepository.Delete`: the source deletes child rows explicitly, in dependency order, inside one transaction. The model states only the final result.

## Findings

| source | as written | input that shows it | evidently intended | confidence | as-written member | corrected member |
|---|---|---|---|---|---|---|
| src-tauri/src/repositories/semaine_repository.rs:45-52 | Every parameter is bound as text, and a missing weight as `unwrap_or_default()`, the empty text. The `poids REAL` column keeps the empty text as text, and every read of the week (`row.get(3)` as `Option<f64>`) then fails with `InvalidColumnType`. | Create a week without a weight, as the flock service and the week service do for every week they add, then read it by id: the read fails. | Bind a missing weight as NULL, so that it reads back as none. | not executed | `SemaineRepository.CreateAsWrittenUnreadable` | `SemaineRepository.CreateThenGet` |
| src-tauri/src/repositories/semaine_repository.rs:120-128 | The update binds the weight the same way. | Update a week with no weight: the week can no longer be read, and its building's grid fails. | Bind a missing weight as NULL on update too. | not executed | `SemaineRepository.UpdateAsWrittenUnreadable` | `SemaineRepository.UpdateThenGet` |
| src-tauri/src/services/bande_service.rs:72-139 | The flock and its buildings are written inside a transaction on one pooled connection, but the first week and its days through repositories that each take another connection. In WAL mode that connection cannot see the uncommitted building, so the week's parent check fails, `?` returns, and the transaction is rolled back. | Create a flock whose farm and staff member exist, with one valid building: the week insert fails with the `bande_id` validation error and nothing is stored. | Write the weeks and days on the transaction's connection, so that the flock, its buildings, their first weeks and their days are created together. | not executed | `BandeService.CreateWithBuildingsAsWrittenFails` | `BandeService.CreateWithBuildings` |
| src-tauri/src/services/semaine_service.rs:62-67 | The grid creates each missing week with `poids: None`, which the repository stores as the empty text. | Show the grid of an existing building that lacks a week, then show it again: the second showing's read fails with `InvalidColumnType`. | Store a missing weight as NULL, so that the grid can be shown again. | not executed | `SemaineAsWritten.ShowingAfterAsWrittenWeek` | `SemaineService.FullSemainesTwice` |
| src-tauri/src/services/maladie_service.rs:29-35 | The duplicate check compares the trimmed, lower-cased input with each stored name lower-cased, but the repository stores the untrimmed input. A stored name with surrounding spaces never equals a trimmed input. | Creating "a " twice on an empty catalogue: both succeed, leaving two diseases named "a ". | Store the trimmed name, so case-insensitive uniqueness of the trimmed names holds. | not executed | `MaladieService.CreateAsWrittenAdmitsTwins` | `MaladieService.CreateKeepsNamesDistinct` |
| src-tauri/src/services/maladie_service.rs:63-69 | The update path has the same mismatch. | With "a" (id 1) and "b " (id 2) stored, renaming id 1 to "b " succeeds and leaves two "b " names. | Store the trimmed name on update. | not executed | `MaladieService.UpdateAsWrittenAdmitsTwins` | `MaladieService.UpdateKeepsNamesDistinct` |
