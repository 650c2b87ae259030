# Pet service and example helpers, modelled in Dafny

This project models the in-memory demo REST service of the repository, `api_pet_service/main.py`. The service stores Pet resources in a dict keyed by id. It issues ids from a counter, keeps an idempotency store for `POST /pets`, and checks a version token on `PUT` and `PATCH`: the reply carries `ETag: W/"<version>"` and the request sends it back as `If-Match`. `GET /pets` pages through the pets with a cursor. The project also models two helpers from `examples/examples.py`: `dedup`, which keeps one event per key, and `assert_no_overlap`, which checks that two pages share no key.

Files:

- `wrappers.dfy`: the `Option` type.
- `pet_model.dfy`: the pydantic models as datatypes, and their `model_dump()` as far as `json.dumps` is concerned. Their field constraints become types: a non-empty name, three statuses, and non-negative category and tag ids. The file also holds the partial-update body, the merge that applies it, the HTTP error outcomes, and the keyword-argument collision in the PATCH handler.
- `etag.dfy`: the ETag format, and `If-Match` parsing as `int(if_match.strip('W/"'))`. This covers `str.strip` with a character set, and Python `int()` on ASCII text: surrounding whitespace, an optional sign, and digits with single underscores between them, at most 4300 digits (CPython's default `int_max_str_digits`). It also holds the If-Match check.
- `listing.dfy`: `list_pets`, plus a model of a client that follows `next` until it is absent.
- `service.dfy`: class `Service`. Handlers whose reply carries a pet come in two forms, as written and as evidently intended (see Findings). Its fields are the id counter, `PETS`, `IDEMP_STORE` and `VALID_TOKENS`. There is one method per handler that writes state (`login`, `create_pet`, `replace_pet`, `update_pet`, `delete_pet`) and one function per handler that only reads it (`get_current_user`, `get_pet`, `list_pets`).
- `examples.dfy`: `dedup` as a method with a loop over a map plus its insertion order; `assert_no_overlap` as a predicate.

Modelling choices:

- **Canonical body.** `_canonical_body` is sorted-key JSON of the validated request model, with defaults filled in. Two such strings are equal exactly when the models are equal. The idempotency store therefore keeps the `PetBody` value and compares it with `==`.
- **Sorting in `list_pets`.** The handler sorts `PETS.values()` by id. `Service.Valid` keeps every pet under its own id and every id in `[1, counter)`. Under that invariant, the sorted list is the ids met when counting up from 1 to the counter. `Listing.ListPetsIgnoresCounter` proves that any counter bound gives the same page.
- **Stale idempotency records.** The code overwrites the key's record with the new id (main.py:148). `Service.Create` models it that way, although a recreate could also be described as adding a second record.
- **`dedup`'s dict.** The Python dict becomes a map plus the sequence of its keys in insertion order. `list(best.values())` walks that order. The source's dict key is the 1-tuple `(e["key"],)`, which compares like the key itself.

## Model

| member | source | states |
|---|---|---|
| PetModel.MergePatch | api_pet_service/main.py:217-219 | The merge succeeds exactly when the patch sends no explicit null for name, status or photoUrls. On success, id, created_at and version are kept, each field the patch sends takes the sent value, and every other field keeps its stored value. |
| PetModel.MergeEmptyPatch | api_pet_service/main.py:218-219 | A patch that sends no field leaves the pet unchanged. |
| PetModel.MergeIdempotent | api_pet_service/main.py:217-219 | Applying the same patch a second time changes nothing more. |
| PetModel.MergeFullPatchIsReplace | api_pet_service/main.py:195 | A patch that sends every field of a body has the same effect on the fields as a full replace with that body. |
| PetModel.PatchKeys | api_pet_service/main.py:218 | The keys `model_dump(exclude_unset=True)` produces are among the keys of a pet dump. |
| PetModel.KeywordCall | api_pet_service/main.py:220 | A call `f(**data, k=...)` fails exactly when a name arrives both splatted and explicitly. Otherwise f receives the union of the names. |
| PetModel.UpdateCallCollides | api_pet_service/main.py:217-220 | `Pet(**data, version=...)` always receives `version` twice, whatever the patch, so it raises. |
| PetModel.PetDumpKeys | api_pet_service/main.py:74-94 | The keys of `Pet.model_dump()` are exactly the eight field names of `PetBase` and `Pet`, the names the PATCH handler splats. |
| PetModel.PetDumpSerializable | api_pet_service/main.py:109-112 | `json.dumps` accepts a pet's dump exactly when it is taken in JSON mode. The default dump keeps `created_at` as a `datetime` and is refused. |
| ETag.NatToString | api_pet_service/main.py:111 | `str(n)` is a non-empty string of decimal digits whose value is n, with no leading zero: it starts with `0` exactly when n is 0. |
| ETag.LStrip | api_pet_service/main.py:189 | `lstrip(chars)` gives a suffix of the input; every character it drops is in the set, and the result does not start with one. |
| ETag.RStrip | api_pet_service/main.py:189 | `rstrip(chars)` gives a prefix of the input; every character it drops is in the set, and the result does not end with one. |
| ETag.StripPadding | api_pet_service/main.py:189 | `strip(chars)` removes exactly the padding around text that starts and ends outside the stripped set. |
| ETag.ParseSignedIntToString | api_pet_service/main.py:189 | The decimal text of any integer `str()` can print, sign included, parses as a signed numeral back to that integer. |
| ETag.ParseIntToString | api_pet_service/main.py:189 | `int(str(i)) == i` for every integer of at most 4300 digits, the ones `str()` prints. |
| ETag.ParseIfMatchIgnoresQuoting | api_pet_service/main.py:189 | Any run of `W`, `/` and `"` on either side of `str(v)` is stripped, so `W/"2"`, `"2"` and a bare `2` all parse as 2. |
| ETag.ETagRoundTrip | api_pet_service/main.py:111 | The ETag `W/"<v>"` formatted for a printable version parses back to v. |
| ETag.CheckIfMatch | api_pet_service/main.py:187-193 | No header passes. A header that does not parse, including one with more than 4300 digits, gives BadRequest. A header that parses passes exactly when it equals the version, and otherwise gives PreconditionFailed. |
| ETag.CheckEchoedETag | api_pet_service/main.py:187-193 | Echoing the ETag of a printable version `sent` passes when `sent` is the current version. Otherwise it gives PreconditionFailed, never BadRequest. |
| ETag.TooManyDigitsUnparsable | api_pet_service/main.py:189 | `int()` refuses a run of more than 4300 digits, whatever its value. |
| ETag.TooManyDigitsRefused | api_pet_service/main.py:187-191 | An If-Match header `W/"<digits>"` with more than 4300 digits gives BadRequest, even when the digits are zeros before a 1. |
| Listing.MatchingBetweenMeaning | api_pet_service/main.py:165-166 | The scan lists each stored pet whose status matches the filter, within the id range, exactly once and in ascending id order. |
| Listing.AboveMeaning | api_pet_service/main.py:167-168 | Filtering with `id > cursor` keeps exactly the ids above the cursor and keeps ascending order. |
| Listing.CandidatesMeaning | api_pet_service/main.py:165-168 | Before the cut to `limit`, the ids are exactly the stored pets that match the status and, when the cursor is present and non-zero, lie above it. They are strictly ascending. |
| Listing.ListPets | api_pet_service/main.py:161-174 | The page's ids are the first `limit` candidates. `next` is the last id when the page holds `limit` items and is absent otherwise. |
| Listing.PageContents | api_pet_service/main.py:165-170 | A page holds at most `limit` stored pets with strictly ascending ids. Each one matches the status filter and lies above an applying cursor. `next` is present exactly when the page is full, and is then the last id. |
| Listing.ListPetsIgnoresCounter | api_pet_service/main.py:165-166 | Any counter above every stored id gives the same page, so the scan of issued ids is the sort of the stored pets by id. |
| Listing.AboveElement | api_pet_service/main.py:167-168 | In an ascending id list, keeping the ids above one of its elements keeps exactly the elements after it. |
| Listing.AboveTwice | api_pet_service/main.py:167-168 | Filtering above c and then above n >= c is filtering above n. |
| Listing.NextCandidates | api_pet_service/main.py:167-170 | After a full page, the returned `next` used as the cursor selects exactly the candidates that did not fit on the page. |
| Listing.Walk | api_pet_service/main.py:167-170 | Following `next` from a cursor, with the store unchanged, ends. The first page of the walk is the reply to that cursor. |
| Listing.WalkListsCandidates | api_pet_service/main.py:165-170 | The pages of a walk list every candidate of the starting cursor once, in order: no gap and no repeat. |
| Listing.WalkStopsAtLastPage | api_pet_service/main.py:170 | Every page of a walk except the last carries `next`, and the last one does not. |
| Listing.WalkListsEachMatchOnce | api_pet_service/main.py:165-170 | Starting without a cursor, the pages list each stored pet that matches the status filter exactly once, in ascending id order, and list nothing else. |
| Listing.ConsecutivePagesDoNotOverlap | examples/examples.py:59-61 | A page and the page its `next` leads to pass `assert_no_overlap` on `id`. |
| PetService.RespondETagEchoes | api_pet_service/main.py:109-112 | In the intended reply (the one `_pet_to_response` fails to send as written, see Findings), the ETag reads as the version of the pet, so sending it back passes the If-Match check while that version is current. |
| PetService.Send | api_pet_service/main.py:109-112 | `_pet_to_response` on a handler's outcome: an error passes through. A pet is answered with its ETag when its dump is encoded in JSON mode, and with a 500 when the default dump is used, as the code does. |
| PetService.BearerToken | api_pet_service/main.py:41-42 | A token is found exactly when the header starts with `Bearer `. The header is then `Bearer ` followed by the token. |
| PetService.Service.constructor | api_pet_service/main.py:98-101 | At startup the counter is 1 and the pets, records and tokens are empty. The invariant holds. |
| PetService.Service.Login | api_pet_service/main.py:50-56 | The test credentials add `test-token` to the valid tokens and return it, and `Bearer test-token` is then authorized. Any other credentials give 401 and add nothing. |
| PetService.Service.StoreNew | api_pet_service/main.py:143-148 | The writes of a create: a pet of version 1 under the counter's value, which is above every stored id; the counter advances by 1; a non-empty key points at the new id. The invariant holds. |
| PetService.Service.Create | api_pet_service/main.py:120-150 | Intended behaviour. An unauthorized request gives 401. A replay returns the stored pet with 200 and the replay flag. A key reused with a different body gives 409. These three change nothing. Otherwise the pet is stored under the counter's value, which is above every stored id, with version 1, the given time and the body's fields. The counter advances by 1, a non-empty key is pointed at the new id, and the reply is the 201 the route declares. |
| PetService.Service.CreateAsWritten | api_pet_service/main.py:120-150 | As the code stands: 401 and 409 as in `Create`, and both a replay and a fresh create answer 500. The replay changes nothing; the fresh create still stores the pet, advances the counter and records the key. |
| PetService.Service.Get | api_pet_service/main.py:153-158 | Intended behaviour: returns the stored pet with 200 and the ETag of its version when the id is present, and NotFound otherwise. |
| PetService.Service.GetAsWritten | api_pet_service/main.py:153-158 | As the code stands: a present id answers 500, and an absent one NotFound. |
| PetService.Service.WriteGuard | api_pet_service/main.py:181-193 | The order of the checks: the token first, then the pet's presence, then If-Match against the stored version. The write goes ahead exactly when all three pass. |
| PetService.Service.StoreReplacement | api_pet_service/main.py:195-196 | The write of a replace: the body under the same id and created_at, one version up, and no other entry changed. The invariant holds. |
| PetService.Service.Replace | api_pet_service/main.py:177-197 | Intended behaviour. A failed check returns its error and changes nothing. Otherwise the body replaces every field except id and created_at, the version goes up by 1, the new pet is returned with 200, no other entry of `PETS` changes, and the counter and records are untouched. |
| PetService.Service.ReplaceAsWritten | api_pet_service/main.py:177-197 | As the code stands: a failed check returns its error and changes nothing; a replace that passes is stored, one version up, and answers 500. |
| PetService.Service.UpdateAsWritten | api_pet_service/main.py:200-222 | As the code stands, a failed check returns its error and every request that passes gives a 500. No state changes. |
| PetService.Service.Update | api_pet_service/main.py:200-222 | Intended behaviour: a failed check returns its error. A patch that nulls a required field gives a 500 and changes nothing. Otherwise the sent fields overwrite the stored ones, id and created_at are kept, and the version goes up by 1. |
| PetService.Service.Delete | api_pet_service/main.py:225-230 | An unauthorized request gives 401 and an absent id gives NotFound, both with no change. Otherwise exactly that entry is removed, and a later get or write on the id gives NotFound. |
| PetService.LostUpdatePrevented | api_pet_service/main.py:187-197 | Two clients replace the same pet with the ETag they both read. When the two requests are handled one after the other, with the intended replies, the first succeeds and bumps the version, and the second gets 412 and its body is not stored. |
| Examples.BestIndex | examples/examples.py:49-52 | The index of the event the loop holds for a key is -1, or an event with that key. |
| Examples.BestIndexIsFirstMaximal | examples/examples.py:51-52 | The held event exists exactly when the key occurs. No event with that key has a greater ts, and every earlier event with that key has a smaller ts, so ties go to the first. |
| Examples.FirstKeysCharacterised | examples/examples.py:48-53 | The dict's key order lists every key of the input exactly once, in order of first occurrence. |
| Examples.LoopStep | examples/examples.py:49-52 | One turn of the loop keeps the loop invariant. The event replaces the held one exactly when its key is new or its ts is strictly greater. |
| Examples.Dedup | examples/examples.py:46-53 | Returns one event per distinct input key and no other keys, in first-occurrence order. Each returned event is an input event with the greatest ts for its key, the earliest among ties. |
| Examples.WinnersMeaning | examples/examples.py:53 | What `dedup` returns means the same when stated without the loop's helper functions. |
| Examples.NoOverlapIff | examples/examples.py:59-61 | `assert_no_overlap` passes exactly when no item of the first page shares its key with an item of the second. |

## Left out

- `ETag.FormatETag`: CPython's `str()` also refuses integers of more than 4300 digits. The model formats every integer, and the round-trip lemmas require the version to be `Printable`. A version grows by one per write, so no reachable state gets there.
- HTTP framing is not modelled: FastAPI routing, header and query extraction, the bytes `JSONResponse` sends, and the 422 replies of pydantic validation. Of `JSONResponse` only whether `json.dumps` accepts the content is modelled. Requests are modelled as already-validated datatypes.
- `/health`, `/slow` and `/` are left out: they do time and I/O and contain no logic.
- The clock is not modelled: `created_at` is the parameter `now` of `Service.Create`.
- Concurrency between requests is not modelled. The model assumes the requests are handled one after the other, each handler as one atomic step on the state. The service runs its handlers on a thread pool with no lock, so two replaces with the same `If-Match` can both pass the check before either stores; `LostUpdatePrevented` does not cover that.
- `ETag.ParseInt` handles only ASCII: it does not accept the Unicode digits and Unicode whitespace that Python's `int()` also accepts.
- `ETag.CheckIfMatch`: any exception from the parse becomes BadRequest. The model has only the `ValueError` case, because the header is always a string.
- `Service.List` reads the state without changing it. What it returns is stated by the `Listing` lemmas, not by an `ensures` of its own.
- The byte-level JSON of `_canonical_body` is not modelled. Equality of the validated bodies stands in for equality of the JSON strings.
- `examples.fetch` and `examples.get_user_ok` are not part of this model: they do network I/O, sleep, and use random back-off.
- The two HTTP client wrappers, the UI helpers and the test suites are not part of this model.

## Findings

| source | as written | input that shows it | evidently intended | confidence | as-written member | corrected member |
|---|---|---|---|---|---|---|
| api_pet_service/main.py:217-220 | `data = pet.model_dump()` already holds `version`, so `Pet(**data, version=pet.version + 1)` raises `TypeError` (multiple values for keyword `version`). The PATCH ends in a 500 and nothing is stored. `PetModel.UpdateCallCollides` shows this for every patch. | An authorized `PATCH /pets/1` with body `{"status": "sold"}` and no `If-Match`, with pet 1 stored. | The fields sent overwrite the stored ones, id and created_at are kept, the version goes up by 1, and the reply is 200 with the new ETag. | high; not executed | PetService.Service.UpdateAsWritten | PetService.Service.Update |
| api_pet_service/main.py:109-112 | `_pet_to_response` passes `pet.model_dump()` to `JSONResponse`. That dump keeps `created_at` as a `datetime`, and `JSONResponse` renders with plain `json.dumps`, which raises `TypeError` on it. `PetModel.PetDumpSerializable` shows the dump of every pet is refused. | `GET /pets/1` with pet 1 stored. | The pet is encoded as JSON, for example with `model_dump(mode="json")`, and sent with its ETag. | high; not executed | PetService.Service.GetAsWritten | PetService.Service.Get |
| api_pet_service/main.py:143-150 | `create_pet` stores the pet, advances the counter and records the key, then fails in `_pet_to_response`, so the client sees a 500 for a create that happened. A replay fails the same way at line 136. | An authorized `POST /pets` with body `{"name": "a"}` on a fresh service: pet 1 is stored, the counter moves to 2, and the reply is 500. | The new pet with 201, the code the route declares at line 120, and a replay with 200. | high; not executed | PetService.Service.CreateAsWritten | PetService.Service.Create |
| api_pet_service/main.py:195-197 | `replace_pet` stores the new version, then fails in `_pet_to_response`, so the client sees a 500 and never receives the new ETag. | An authorized `PUT /pets/1` with a valid body and no `If-Match`, with pet 1 stored: version 2 is stored and the reply is 500. | The new pet with 200 and the ETag of the new version. | high; not executed | PetService.Service.ReplaceAsWritten | PetService.Service.Replace |
