/**
 * The in-memory Pet service: the id counter, the `PETS` map, the idempotency store and
 * the set of issued tokens, with one method per handler that changes them and one
 * function per handler that only reads them.
 *
 * The model assumes that requests are handled one after the other, each handler as one
 * atomic step on the fields. The service itself gives no such guarantee: its handlers
 * are plain functions run on a thread pool, and no lock guards the dicts.
 *
 * Every handler that answers with a pet ends in `_pet_to_response`, which hands
 * `pet.model_dump()` to `JSONResponse`. That dump keeps `created_at` as a `datetime`,
 * which `json.dumps` refuses, so as written each of those replies is a 500 sent after
 * the handler's writes. The `...AsWritten` members model that; the others model the
 * replies evidently intended, with the pet encoded as JSON.
 */
module PetService {
  import opened Wrappers
  import opened PetModel
  import opened ETag
  import Listing

  /** The reply of a handler that returns a pet: the pet, the status code, the ETag header, and `Idempotency-Replayed`. */
  datatype Response = Response(pet: Pet, code: nat, etag: string, replayed: bool)

  datatype Reply = Ok(response: Response) | NoContent | Err(error: Error)

  datatype LoginReply = Token(accessToken: string) | Refused(error: Error)

  /** An `IDEMP_STORE` entry: the canonical body of the first request and the id it created. */
  datatype IdempotencyRecord = IdempotencyRecord(body: PetBody, petId: int)

  /** The reply `_pet_to_response` is meant to build: the pet with its version as the weak ETag `W/"<version>"`. */
  function Respond(pet: Pet, code: nat, replayed: bool): Response {
    Response(pet, code, FormatETag(pet.version), replayed)
  }

  /**
   * The ETag of a reply, sent back as `If-Match`, reads as the version of the pet in
   * that reply, so it passes the If-Match check while that version is current. The
   * version has to be one `str()` can print, which a counter bumped once per write
   * never outgrows.
   */
  lemma RespondETagEchoes(pet: Pet, code: nat, replayed: bool)
    requires Printable(pet.version)
    ensures ParseIfMatch(Respond(pet, code, replayed).etag) == Some(pet.version)
    ensures CheckIfMatch(Some(Respond(pet, code, replayed).etag), pet.version) == None
  {
    ETagRoundTrip(pet.version);
  }

  /** What a handler that answers with a pet has decided before it calls `_pet_to_response`. */
  datatype Outcome = Failed(error: Error) | Answer(pet: Pet, code: nat, replayed: bool)

  /**
   * The reply once `_pet_to_response` has run on the outcome: the pet's dump in the
   * given mode goes through `json.dumps`, and a failure to encode it propagates as a 500.
   * The default dump never encodes, the JSON-mode dump always does.
   */
  function Send(outcome: Outcome, mode: DumpMode): (reply: Reply)
    ensures outcome.Failed? ==> reply == Err(outcome.error)
    ensures outcome.Answer? && mode == JsonMode ==> reply == Ok(Respond(outcome.pet, outcome.code, outcome.replayed))
    ensures outcome.Answer? && mode == PythonMode ==> reply == Err(InternalError)
  {
    match outcome
    case Failed(error) => Err(error)
    case Answer(pet, code, replayed) =>
      PetDumpSerializable(pet, mode);
      if Serializable(Dict(PetDump(pet, mode))) then Ok(Respond(pet, code, replayed)) else Err(InternalError)
  }

  /** The token of an `Authorization` header that starts with `Bearer `, the text after the first space. */
  function BearerToken(authorization: string): (token: Option<string>)
    ensures token.Some? <==> |authorization| >= 7 && authorization[..7] == "Bearer "
    ensures token.Some? ==> authorization == "Bearer " + token.value
  {
    if |authorization| >= 7 && authorization[..7] == "Bearer " then Some(authorization[7..]) else None
  }

  /** `if idempotency_key:` holds for a header that is present and not empty. */
  predicate HasKey(key: Option<string>) {
    key.Some? && key.value != ""
  }

  const TEST_USERNAME: string := "test"
  const TEST_PASSWORD: string := "test"
  const TEST_TOKEN: string := "test-token"

  /**
   * Every stored pet sits under its own id, which was issued (1 <= id < nextId), and has
   * a version of at least 1; every idempotency record names an issued id, whose pet may
   * since have been deleted.
   */
  ghost predicate Consistent(nextId: int, pets: map<int, Pet>, idempotency: map<string, IdempotencyRecord>) {
    && nextId >= 1
    && Listing.Issued(pets, nextId)
    && (forall k :: k in pets ==> pets[k].version >= 1)
    && (forall key :: key in idempotency ==> 1 <= idempotency[key].petId < nextId)
  }

  /** Storing a pet of version at least 1 under its own, already issued, id keeps the invariant. */
  lemma ConsistentAfterStore(nextId: int, pets: map<int, Pet>, idempotency: map<string, IdempotencyRecord>, pet: Pet)
    requires Consistent(nextId, pets, idempotency)
    requires 1 <= pet.id < nextId && pet.version >= 1
    ensures Consistent(nextId, pets[pet.id := pet], idempotency)
  {
  }

  /** Removing an entry keeps the invariant. */
  lemma ConsistentAfterRemove(nextId: int, pets: map<int, Pet>, idempotency: map<string, IdempotencyRecord>, id: int)
    requires Consistent(nextId, pets, idempotency)
    ensures Consistent(nextId, pets - {id}, idempotency)
  {
  }

  /** Issuing the counter's value to a new pet, and maybe recording it under a key, keeps the invariant. */
  lemma ConsistentAfterCreate(nextId: int, pets: map<int, Pet>, idempotency: map<string, IdempotencyRecord>,
                              pet: Pet, record: Option<(string, IdempotencyRecord)>)
    requires Consistent(nextId, pets, idempotency)
    requires pet.id == nextId && pet.version >= 1
    requires record.Some? ==> record.value.1.petId == nextId
    ensures nextId !in pets
    ensures Consistent(nextId + 1, pets[nextId := pet],
                       if record.Some? then idempotency[record.value.0 := record.value.1] else idempotency)
  {
  }

  class Service {
    /** The next value `next(_id_counter)` returns. */
    var nextId: int
    var pets: map<int, Pet>
    var idempotency: map<string, IdempotencyRecord>
    var validTokens: set<string>

    /** The invariant of the state; see `Consistent`. */
    ghost predicate Valid()
      reads this
    {
      Consistent(nextId, pets, idempotency)
    }

    /** The state when the module is loaded: the counter at 1, everything empty. */
    constructor ()
      ensures Valid()
      ensures nextId == 1 && pets == map[] && idempotency == map[] && validTokens == {}
    {
      nextId := 1;
      pets := map[];
      idempotency := map[];
      validTokens := {};
    }

    /** `get_current_user` succeeds: a Bearer token that `login` has issued. */
    predicate Authorized(authorization: string)
      reads this
    {
      var token := BearerToken(authorization);
      token.Some? && token.value in validTokens
    }

    /** `login`: the one test account receives the fixed token, which from then on is valid. */
    method Login(username: string, password: string) returns (reply: LoginReply)
      modifies this`validTokens
      ensures username == TEST_USERNAME && password == TEST_PASSWORD ==>
        && reply == Token(TEST_TOKEN)
        && validTokens == old(validTokens) + {TEST_TOKEN}
        && Authorized("Bearer " + TEST_TOKEN)
      ensures !(username == TEST_USERNAME && password == TEST_PASSWORD) ==>
        reply == Refused(Unauthorized) && validTokens == old(validTokens)
    {
      if username == TEST_USERNAME && password == TEST_PASSWORD {
        validTokens := validTokens + {TEST_TOKEN};
        reply := Token(TEST_TOKEN);
        assert ("Bearer " + TEST_TOKEN)[..7] == "Bearer ";
      } else {
        reply := Refused(Unauthorized);
      }
    }

    /** The key names a record with an equal body whose pet is still stored: the request is a replay. */
    predicate IsReplay(key: Option<string>, body: PetBody)
      reads this
    {
      && HasKey(key)
      && key.value in idempotency
      && idempotency[key.value].body == body
      && idempotency[key.value].petId in pets
    }

    /** The key names a record with a different body. */
    predicate IsConflict(key: Option<string>, body: PetBody)
      reads this
    {
      && HasKey(key)
      && key.value in idempotency
      && idempotency[key.value].body != body
    }

    /**
     * The checks `create_pet` makes before it stores anything, in their order: the
     * token, a replay of a recorded request, a key reused with another body. None when
     * the request goes on to store a new pet (no key, an empty key, a new key, or a
     * record whose pet was deleted).
     */
    function CreateGate(authorization: string, body: PetBody, key: Option<string>): Option<Outcome>
      reads this
    {
      if !Authorized(authorization) then Some(Failed(Unauthorized))
      else if IsReplay(key, body) then Some(Answer(pets[idempotency[key.value].petId], 200, true))
      else if IsConflict(key, body) then Some(Failed(Conflict))
      else None
    }

    /**
     * The writes of `create_pet` once its checks pass: the counter's value goes to a new
     * pet of version 1, the counter advances, and a non-empty key is pointed at the new
     * id, replacing any stale record.
     */
    method StoreNew(body: PetBody, key: Option<string>, now: nat) returns (pet: Pet)
      requires Valid()
      modifies this`nextId, this`pets, this`idempotency
      ensures Valid()
      ensures pet == Pet(old(nextId), now, 1, body)
      ensures old(nextId) !in old(pets) && (forall k :: k in old(pets) ==> k < pet.id)
      ensures pets == old(pets)[pet.id := pet] && nextId == old(nextId) + 1
      ensures idempotency == if HasKey(key) then old(idempotency)[key.value := IdempotencyRecord(body, pet.id)]
                             else old(idempotency)
    {
      pet := Pet(nextId, now, 1, body);
      var record := if HasKey(key) then Some((key.value, IdempotencyRecord(body, pet.id))) else None;
      ConsistentAfterCreate(nextId, pets, idempotency, pet, record);
      nextId := nextId + 1;
      pets := pets[pet.id := pet];
      if HasKey(key) {
        idempotency := idempotency[key.value := IdempotencyRecord(body, pet.id)];
      }
    }

    /**
     * `create_pet` as evidently intended. A replay returns the stored pet with 200 and
     * changes nothing; a key reused with another body is a `Conflict` and changes
     * nothing; anything else stores a fresh pet under the counter's value and answers
     * with the 201 the route declares. (A returned `JSONResponse` would keep its own
     * default of 200; the declared code is taken as the intent.)
     */
    method Create(authorization: string, body: PetBody, key: Option<string>, now: nat) returns (reply: Reply)
      requires Valid()
      modifies this`nextId, this`pets, this`idempotency
      ensures Valid()
      ensures !old(Authorized(authorization)) ==> reply == Err(Unauthorized) && unchanged(this)
      ensures old(Authorized(authorization)) && old(IsReplay(key, body)) ==>
        && reply == Ok(Respond(old(pets[idempotency[key.value].petId]), 200, true))
        && unchanged(this)
      ensures old(Authorized(authorization)) && old(IsConflict(key, body)) ==>
        reply == Err(Conflict) && unchanged(this)
      ensures old(Authorized(authorization)) && !old(IsReplay(key, body)) && !old(IsConflict(key, body)) ==>
        var pet := Pet(old(nextId), now, 1, body);
        && reply == Ok(Respond(pet, 201, false))
        && old(nextId) !in old(pets)
        && (forall k :: k in old(pets) ==> k < pet.id)
        && pets == old(pets)[pet.id := pet]
        && nextId == old(nextId) + 1
        && idempotency == if HasKey(key) then old(idempotency)[key.value := IdempotencyRecord(body, pet.id)]
                          else old(idempotency)
    {
      var gate := CreateGate(authorization, body, key);
      if gate.Some? {
        return Send(gate.value, JsonMode);
      }
      var pet := StoreNew(body, key, now);
      reply := Send(Answer(pet, 201, false), JsonMode);
    }

    /**
     * `create_pet` as written: the same checks and the same writes as `Create`, but
     * every reply that carries a pet fails to encode, so a replay and a fresh create
     * both answer 500. The fresh pet, the counter and the key's record stay written.
     */
    method CreateAsWritten(authorization: string, body: PetBody, key: Option<string>, now: nat) returns (reply: Reply)
      requires Valid()
      modifies this`nextId, this`pets, this`idempotency
      ensures Valid()
      ensures !old(Authorized(authorization)) ==> reply == Err(Unauthorized) && unchanged(this)
      ensures old(Authorized(authorization)) && old(IsReplay(key, body)) ==>
        reply == Err(InternalError) && unchanged(this)
      ensures old(Authorized(authorization)) && old(IsConflict(key, body)) ==>
        reply == Err(Conflict) && unchanged(this)
      ensures old(Authorized(authorization)) && !old(IsReplay(key, body)) && !old(IsConflict(key, body)) ==>
        var pet := Pet(old(nextId), now, 1, body);
        && reply == Err(InternalError)
        && pets == old(pets)[pet.id := pet]
        && nextId == old(nextId) + 1
        && idempotency == if HasKey(key) then old(idempotency)[key.value := IdempotencyRecord(body, pet.id)]
                          else old(idempotency)
    {
      var gate := CreateGate(authorization, body, key);
      if gate.Some? {
        return Send(gate.value, PythonMode);
      }
      var pet := StoreNew(body, key, now);
      reply := Send(Answer(pet, 201, false), PythonMode);
    }

    /** `get_pet` as evidently intended: the stored pet with 200 and its ETag, or `NotFound`. */
    function Get(id: int): (r: Reply)
      reads this
      ensures r.Ok? <==> id in pets
      ensures r.Ok? ==> r.response == Respond(pets[id], 200, false)
      ensures !r.Ok? ==> r == Err(NotFound)
    {
      if id in pets then Send(Answer(pets[id], 200, false), JsonMode) else Err(NotFound)
    }

    /** `get_pet` as written: a stored pet fails to encode, so only an absent id gets a proper reply. */
    function GetAsWritten(id: int): (r: Reply)
      reads this
      ensures id in pets ==> r == Err(InternalError)
      ensures id !in pets ==> r == Err(NotFound)
    {
      if id in pets then Send(Answer(pets[id], 200, false), PythonMode) else Err(NotFound)
    }

    /** `list_pets` over the current store. */
    function List(status: Option<Status>, limit: Listing.Limit, cursor: Option<int>): Listing.Page
      reads this
      requires Valid()
    {
      Listing.ListPets(pets, nextId, status, limit, cursor)
    }

    /**
     * The checks replace and update make before writing, in their order: the token, then
     * the pet's presence, then the If-Match header against the stored version. None when
     * the write may go ahead.
     */
    function WriteGuard(authorization: string, id: int, ifMatch: Option<string>): (r: Option<Error>)
      reads this
      ensures !Authorized(authorization) ==> r == Some(Unauthorized)
      ensures Authorized(authorization) && id !in pets ==> r == Some(NotFound)
      ensures Authorized(authorization) && id in pets ==> r == CheckIfMatch(ifMatch, pets[id].version)
      ensures r == None <==>
        Authorized(authorization) && id in pets && (ifMatch.None? || ParseIfMatch(ifMatch.value) == Some(pets[id].version))
    {
      if !Authorized(authorization) then Some(Unauthorized)
      else if id !in pets then Some(NotFound)
      else CheckIfMatch(ifMatch, pets[id].version)
    }

    /**
     * The write of `replace_pet` once its checks pass: the body replaces every field but
     * the id and the creation time, and the version goes up by one.
     */
    method StoreReplacement(id: int, body: PetBody) returns (pet: Pet)
      requires Valid() && id in pets
      modifies this`pets
      ensures Valid()
      ensures pet == Pet(id, old(pets[id]).createdAt, old(pets[id]).version + 1, body)
      ensures pets == old(pets)[id := pet]
    {
      var before := pets[id];
      pet := Pet(id, before.createdAt, before.version + 1, body);
      ConsistentAfterStore(nextId, pets, idempotency, pet);
      pets := pets[id := pet];
    }

    /**
     * `replace_pet` as evidently intended: after the guard, the replacement is stored and
     * returned with 200 and its new ETag. Nothing else changes.
     */
    method Replace(authorization: string, id: int, body: PetBody, ifMatch: Option<string>) returns (reply: Reply)
      requires Valid()
      modifies this`pets
      ensures Valid()
      ensures old(WriteGuard(authorization, id, ifMatch)).Some? ==>
        reply == Err(old(WriteGuard(authorization, id, ifMatch)).value) && unchanged(this)
      ensures old(WriteGuard(authorization, id, ifMatch)).None? ==>
        var before := old(pets[id]);
        var pet := Pet(id, before.createdAt, before.version + 1, body);
        && reply == Ok(Respond(pet, 200, false))
        && pets == old(pets)[id := pet]
    {
      var guard := WriteGuard(authorization, id, ifMatch);
      if guard.Some? {
        return Err(guard.value);
      }
      var pet := StoreReplacement(id, body);
      reply := Send(Answer(pet, 200, false), JsonMode);
    }

    /**
     * `replace_pet` as written: the same guard and the same write as `Replace`, after
     * which the reply fails to encode, so a replace that is stored answers 500.
     */
    method ReplaceAsWritten(authorization: string, id: int, body: PetBody, ifMatch: Option<string>) returns (reply: Reply)
      requires Valid()
      modifies this`pets
      ensures Valid()
      ensures old(WriteGuard(authorization, id, ifMatch)).Some? ==>
        reply == Err(old(WriteGuard(authorization, id, ifMatch)).value) && unchanged(this)
      ensures old(WriteGuard(authorization, id, ifMatch)).None? ==>
        var before := old(pets[id]);
        && reply == Err(InternalError)
        && pets == old(pets)[id := Pet(id, before.createdAt, before.version + 1, body)]
    {
      var guard := WriteGuard(authorization, id, ifMatch);
      if guard.Some? {
        return Err(guard.value);
      }
      var pet := StoreReplacement(id, body);
      reply := Send(Answer(pet, 200, false), PythonMode);
    }

    /**
     * `update_pet` as written: the call `Pet(**data, version=...)` receives `version`
     * twice, since `data` is a dump of the stored pet, so it raises `TypeError` before
     * anything is stored. Every request that passes the guard ends in a 500.
     */
    method UpdateAsWritten(authorization: string, id: int, patch: PetUpdate, ifMatch: Option<string>) returns (reply: Reply)
      ensures WriteGuard(authorization, id, ifMatch).Some? ==> reply == Err(WriteGuard(authorization, id, ifMatch).value)
      ensures WriteGuard(authorization, id, ifMatch).None? ==> reply == Err(InternalError)
    {
      var guard := WriteGuard(authorization, id, ifMatch);
      if guard.Some? {
        return Err(guard.value);
      }
      UpdateCallCollides(patch);
      if KeywordCall(PET_DUMP_KEYS + PatchKeys(patch), {"version"}).None? {
        reply := Err(InternalError);
      } else {
        assert false;
      }
    }

    /**
     * `update_pet` as evidently intended: after the guard, the fields the patch sends
     * overwrite the stored ones and the version goes up by one. A patch that sends null
     * for a field a pet requires fails the pet's validation: a 500, with nothing stored.
     */
    method Update(authorization: string, id: int, patch: PetUpdate, ifMatch: Option<string>) returns (reply: Reply)
      requires Valid()
      modifies this`pets
      ensures Valid()
      ensures old(WriteGuard(authorization, id, ifMatch)).Some? ==>
        reply == Err(old(WriteGuard(authorization, id, ifMatch)).value) && unchanged(this)
      ensures old(WriteGuard(authorization, id, ifMatch)).None? && MergePatch(old(pets[id]), patch).None? ==>
        reply == Err(InternalError) && unchanged(this)
      ensures old(WriteGuard(authorization, id, ifMatch)).None? && MergePatch(old(pets[id]), patch).Some? ==>
        var merged := MergePatch(old(pets[id]), patch).value;
        var pet := merged.(version := merged.version + 1);
        && pet.id == id && pet.createdAt == old(pets[id].createdAt) && pet.version == old(pets[id].version) + 1
        && reply == Ok(Respond(pet, 200, false))
        && pets == old(pets)[id := pet]
    {
      var guard := WriteGuard(authorization, id, ifMatch);
      if guard.Some? {
        return Err(guard.value);
      }
      var merged := MergePatch(pets[id], patch);
      if merged.None? {
        return Err(InternalError);
      }
      var pet := merged.value.(version := merged.value.version + 1);
      ConsistentAfterStore(nextId, pets, idempotency, pet);
      pets := pets[id := pet];
      reply := Ok(Respond(pet, 200, false));
    }

    /**
     * `delete_pet`: removes exactly the entry for `id`; the counter and the idempotency
     * records stay, so the id is never issued again and a record may go stale.
     */
    method Delete(authorization: string, id: int) returns (reply: Reply)
      requires Valid()
      modifies this`pets
      ensures Valid()
      ensures !old(Authorized(authorization)) ==> reply == Err(Unauthorized) && unchanged(this)
      ensures old(Authorized(authorization)) && id !in old(pets) ==> reply == Err(NotFound) && unchanged(this)
      ensures old(Authorized(authorization)) && id in old(pets) ==>
        && reply == NoContent
        && pets == old(pets) - {id}
        && Get(id) == Err(NotFound)
        && WriteGuard(authorization, id, None) == Some(NotFound)
    {
      if !Authorized(authorization) {
        return Err(Unauthorized);
      }
      if id !in pets {
        return Err(NotFound);
      }
      ConsistentAfterRemove(nextId, pets, idempotency, id);
      pets := pets - {id};
      reply := NoContent;
    }
  }

  /**
   * Two clients read the same pet and both send a replace with the ETag they read. When
   * the two replaces are handled one after the other, with the intended replies, the
   * first one wins and bumps the version, and the second is refused with 412 and its
   * body is not stored.
   */
  method LostUpdatePrevented(service: Service, authorization: string, id: int, first: PetBody, second: PetBody)
    returns (one: Reply, two: Reply)
    requires service.Valid() && service.Authorized(authorization) && id in service.pets
    requires Printable(service.pets[id].version)
    modifies service
    ensures service.Valid()
    ensures one.Ok? && one.response.pet.body == first && one.response.pet.version == old(service.pets[id].version) + 1
    ensures two == Err(PreconditionFailed)
    ensures service.pets == old(service.pets)[id := one.response.pet]
  {
    var read := service.Get(id);
    var version := read.response.pet.version;
    var etag := read.response.etag;
    assert etag == FormatETag(version);
    CheckEchoedETag(version, version);
    CheckEchoedETag(version + 1, version);
    one := service.Replace(authorization, id, first, Some(etag));
    assert service.pets[id].version == version + 1;
    assert service.Authorized(authorization) && id in service.pets;
    assert service.WriteGuard(authorization, id, Some(etag)) == Some(PreconditionFailed);
    two := service.Replace(authorization, id, second, Some(etag));
  }
}
