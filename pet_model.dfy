/**
 * The Pet resource of the demo service: the validated request bodies, the stored
 * record, the partial-update body and the merge that applies it, and the error
 * outcomes the handlers raise.
 *
 * The pydantic field constraints are carried by the types: a name has at least one
 * character, a status is one of three values, category and tag ids are non-negative.
 */
module PetModel {
  import opened Wrappers

  datatype Status = Available | Pending | Sold

  datatype Category = Category(id: Option<nat>, name: Option<string>)

  datatype Tag = Tag(id: Option<nat>, name: Option<string>)

  /** `name: str = Field(..., min_length=1)` */
  type Name = s: string | |s| >= 1 witness "?"

  /**
   * The fields of `PetBase`, which is also the whole of a create or replace body.
   * Two bodies have the same canonical (sorted-key JSON) form exactly when they are
   * equal as values, so the idempotency comparison is equality of `PetBody` values.
   */
  datatype PetBody = PetBody(
    name: Name,
    status: Status,
    category: Option<Category>,
    photoUrls: seq<string>,
    tags: Option<seq<Tag>>)

  /** A stored pet: the body fields plus the server-assigned id, creation time and version. */
  datatype Pet = Pet(id: int, createdAt: nat, version: int, body: PetBody)

  /**
   * One field of a partial-update body as `model_dump(exclude_unset=True)` sees it:
   * either absent from the request, or sent, possibly as an explicit JSON null.
   */
  datatype Field<T> = Unset | Set(value: T)

  /** `PetUpdate`: every field is optional and nullable. */
  datatype PetUpdate = PetUpdate(
    name: Field<Option<Name>>,
    status: Field<Option<Status>>,
    category: Field<Option<Category>>,
    photoUrls: Field<Option<seq<string>>>,
    tags: Field<Option<seq<Tag>>>)

  /**
   * The failures the handlers raise: 401, 404, 409, 400, 412, and 500 for an exception
   * the handler does not catch.
   */
  datatype Error = Unauthorized | NotFound | Conflict | BadRequest | PreconditionFailed | InternalError

  /** `after` is what `dict.update` leaves for one key: the patch value when sent, else `before`. */
  predicate Merged<T(==)>(f: Field<T>, before: T, after: T) {
    if f.Set? then after == f.value else after == before
  }

  function MergeRequired<T>(f: Field<Option<T>>, current: T): Option<T> {
    match f
    case Unset => Some(current)
    case Set(v) => v
  }

  function MergeNullable<T>(f: Field<Option<T>>, current: Option<T>): Option<T> {
    match f
    case Unset => current
    case Set(v) => v
  }

  /**
   * The intended effect of a PATCH: the stored pet's dump updated with the fields the
   * request sent, then validated again as a `Pet`. Validation fails (None) when the
   * patch sends an explicit null for a field `Pet` requires: name, status or photoUrls.
   * The version is left alone here; the handler bumps it.
   */
  function MergePatch(pet: Pet, patch: PetUpdate): (r: Option<Pet>)
    ensures r.Some? <==> patch.name != Set(None) && patch.status != Set(None) && patch.photoUrls != Set(None)
    ensures r.Some? ==> r.value.id == pet.id && r.value.createdAt == pet.createdAt && r.value.version == pet.version
    ensures r.Some? ==>
      && Merged(patch.name, Some(pet.body.name), Some(r.value.body.name))
      && Merged(patch.status, Some(pet.body.status), Some(r.value.body.status))
      && Merged(patch.category, pet.body.category, r.value.body.category)
      && Merged(patch.photoUrls, Some(pet.body.photoUrls), Some(r.value.body.photoUrls))
      && Merged(patch.tags, pet.body.tags, r.value.body.tags)
  {
    var name := MergeRequired(patch.name, pet.body.name);
    var status := MergeRequired(patch.status, pet.body.status);
    var photoUrls := MergeRequired(patch.photoUrls, pet.body.photoUrls);
    if name.None? || status.None? || photoUrls.None? then None
    else
      var body := PetBody(name.value, status.value, MergeNullable(patch.category, pet.body.category),
                          photoUrls.value, MergeNullable(patch.tags, pet.body.tags));
      Some(pet.(body := body))
  }

  /** The patch with no field sent. */
  const EMPTY_PATCH: PetUpdate := PetUpdate(Unset, Unset, Unset, Unset, Unset)

  /** The patch that sends every field of `body`. */
  function FullPatch(body: PetBody): PetUpdate {
    PetUpdate(Set(Some(body.name)), Set(Some(body.status)), Set(body.category),
              Set(Some(body.photoUrls)), Set(body.tags))
  }

  /** A patch that sends nothing leaves the pet as it is. */
  lemma MergeEmptyPatch(pet: Pet)
    ensures MergePatch(pet, EMPTY_PATCH) == Some(pet)
  {
  }

  /** Applying the same patch a second time changes nothing more. */
  lemma MergeIdempotent(pet: Pet, patch: PetUpdate)
    ensures MergePatch(pet, patch).Some? ==> MergePatch(MergePatch(pet, patch).value, patch) == MergePatch(pet, patch)
  {
  }

  /** A patch that sends every field of a body has the effect of a full replace with that body. */
  lemma MergeFullPatchIsReplace(pet: Pet, body: PetBody)
    ensures MergePatch(pet, FullPatch(body)) == Some(pet.(body := body))
  {
  }

  /** The keyword names of `Pet.model_dump()`. */
  const PET_DUMP_KEYS: set<string> :=
    {"name", "status", "category", "photoUrls", "tags", "id", "created_at", "version"}

  /** The keyword names a patch contributes through `model_dump(exclude_unset=True)`. */
  function PatchKeys(patch: PetUpdate): (keys: set<string>)
    ensures keys <= PET_DUMP_KEYS
  {
    (if patch.name.Set? then {"name"} else {})
    + (if patch.status.Set? then {"status"} else {})
    + (if patch.category.Set? then {"category"} else {})
    + (if patch.photoUrls.Set? then {"photoUrls"} else {})
    + (if patch.tags.Set? then {"tags"} else {})
  }

  /**
   * A Python call `f(**data, k=...)` with `splatted` the keys of `data` and `explicit`
   * the names passed directly: the keyword names f receives, or None when a name
   * arrives twice, where Python raises `TypeError` before f runs.
   */
  function KeywordCall(splatted: set<string>, explicit: set<string>): (r: Option<set<string>>)
    ensures r.None? <==> splatted * explicit != {}
    ensures r.Some? ==> r.value == splatted + explicit
  {
    if splatted * explicit == {} then Some(splatted + explicit) else None
  }

  /**
   * `Pet(**data, version=...)` in the PATCH handler, where `data` is the stored pet's
   * dump updated with the patch: `data` already holds "version", so the call always
   * raises `TypeError`, whatever the patch.
   */
  lemma UpdateCallCollides(patch: PetUpdate)
    ensures KeywordCall(PET_DUMP_KEYS + PatchKeys(patch), {"version"}).None?
  {
    assert "version" in (PET_DUMP_KEYS + PatchKeys(patch)) * {"version"};
  }

  /**
   * The values a `model_dump()` holds, as far as `json.dumps` is concerned. In the
   * default Python mode a `datetime` field stays a `DateTime` object; in JSON mode it
   * becomes its ISO 8601 text, `IsoTime`, whose characters are not modelled.
   */
  datatype DumpValue =
    | Null
    | Int(i: int)
    | Str(s: string)
    | List(items: seq<DumpValue>)
    | Dict(entries: seq<(string, DumpValue)>)
    | DateTime(instant: nat)
    | IsoTime(instant: nat)

  /** `model_dump()` or `model_dump(mode="json")`. */
  datatype DumpMode = PythonMode | JsonMode

  /**
   * `json.dumps` accepts the value: nothing in it is a `datetime`, on which the default
   * encoder raises `TypeError`. A `str`-based enum member is encoded as its text.
   */
  predicate Serializable(v: DumpValue) {
    match v
    case List(items) => forall i :: 0 <= i < |items| ==> Serializable(items[i])
    case Dict(entries) => forall i :: 0 <= i < |entries| ==> Serializable(entries[i].1)
    case DateTime(_) => false
    case _ => true
  }

  function NatOrNull(o: Option<nat>): DumpValue {
    if o.Some? then Int(o.value) else Null
  }

  function StrOrNull(o: Option<string>): DumpValue {
    if o.Some? then Str(o.value) else Null
  }

  function StatusText(status: Status): string {
    match status
    case Available => "available"
    case Pending => "pending"
    case Sold => "sold"
  }

  function CategoryDump(c: Category): DumpValue {
    Dict([("id", NatOrNull(c.id)), ("name", StrOrNull(c.name))])
  }

  function TagDump(t: Tag): DumpValue {
    Dict([("id", NatOrNull(t.id)), ("name", StrOrNull(t.name))])
  }

  function StrList(items: seq<string>): DumpValue {
    List(seq(|items|, i requires 0 <= i < |items| => Str(items[i])))
  }

  function TagList(tags: seq<Tag>): DumpValue {
    List(seq(|tags|, i requires 0 <= i < |tags| => TagDump(tags[i])))
  }

  /** `pet.model_dump()` in the given mode: the `PetBase` fields first, then the `Pet` ones. */
  function PetDump(pet: Pet, mode: DumpMode): seq<(string, DumpValue)> {
    [ ("name", Str(pet.body.name)),
      ("status", Str(StatusText(pet.body.status))),
      ("category", if pet.body.category.Some? then CategoryDump(pet.body.category.value) else Null),
      ("photoUrls", StrList(pet.body.photoUrls)),
      ("tags", if pet.body.tags.Some? then TagList(pet.body.tags.value) else Null),
      ("id", Int(pet.id)),
      ("created_at", if mode == PythonMode then DateTime(pet.createdAt) else IsoTime(pet.createdAt)),
      ("version", Int(pet.version)) ]
  }

  /** The keys of a pet dump are exactly the keyword names the PATCH handler splats. */
  lemma PetDumpKeys(pet: Pet, mode: DumpMode)
    ensures forall k :: k in PET_DUMP_KEYS <==> exists i :: 0 <= i < |PetDump(pet, mode)| && PetDump(pet, mode)[i].0 == k
  {
    var d := PetDump(pet, mode);
    assert d[0].0 == "name" && d[1].0 == "status" && d[2].0 == "category" && d[3].0 == "photoUrls";
    assert d[4].0 == "tags" && d[5].0 == "id" && d[6].0 == "created_at" && d[7].0 == "version";
  }

  /**
   * The default dump of a pet cannot be encoded by `json.dumps`, because `created_at`
   * is a `datetime`; the JSON-mode dump of every pet can.
   */
  lemma PetDumpSerializable(pet: Pet, mode: DumpMode)
    ensures Serializable(Dict(PetDump(pet, mode))) <==> mode == JsonMode
  {
    var d := PetDump(pet, mode);
    if mode == PythonMode {
      assert d[6].1 == DateTime(pet.createdAt);
    } else {
      if pet.body.category.Some? {
        assert Serializable(CategoryDump(pet.body.category.value));
      }
      if pet.body.tags.Some? {
        var tags := pet.body.tags.value;
        assert forall i :: 0 <= i < |tags| ==> Serializable(TagDump(tags[i]));
      }
      assert forall i :: 0 <= i < |d| ==> Serializable(d[i].1);
    }
  }
}
