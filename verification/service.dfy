/**
 The university service functions other than the listing: create, get,
 update, soft-delete and bookmark toggle by id. Identifier-format checking
 (`ObjectId.isValid`) and URL checking (`validator.isURL`) are parameters.
 */
module UniversityService {
  import opened Wrappers
  import opened JsText
  import opened Errors
  import opened Universities

  /** The fields of a request body the schema knows. `None` is an absent key;
      for `deletedAt`, `Some(None)` is a key holding `null`. */
  datatype Patch = Patch(
    name: Option<string>,
    country: Option<string>,
    webpages: Option<seq<string>>,
    isBookmark: Option<bool>,
    isActive: Option<bool>,
    deletedAt: Option<Option<Time>>)

  /** `delete data.deletedAt`. */
  function WithoutDeletedAt(p: Patch): Patch {
    p.(deletedAt := None)
  }

  /** The paths whose validators reject `u`, filed under `self`, when it is
      saved. `name` and `country` are required, so both are checked on every
      save; the name's uniqueness only when the name was modified; `webpages`
      only when set. */
  function Violations(s: Store, self: Id, u: University, nameModified: bool, webpagesSet: bool,
                      isUrl: string -> bool): (bad: set<Field>)
    ensures bad == {} <==> && u.name != "" && NameValidator(s, self, u.name, nameModified)
                           && u.country != ""
                           && (webpagesSet ==> WebpagesValid(u.webpages, isUrl))
  {
    (if u.name == "" || !NameValidator(s, self, u.name, nameModified) then {Name} else {})
    + (if u.country == "" then {Country} else {})
    + (if webpagesSet && !WebpagesValid(u.webpages, isUrl) then {Webpages} else {})
  }

  /** The unique index on `name` compares names ignoring case. */
  predicate NameTakenIgnoringCase(s: Store, self: Id, name: string) {
    exists k :: k in s && k != self && Lower(s[k].name) == Lower(name)
  }

  /** The document `new University(data)` builds: setters applied, defaults
      filled in for the absent fields, `deletedAt` always null. */
  function Build(id: Id, data: Patch, now: Time): (u: University)
    ensures u.id == id && u.created == now
    ensures u.deletedAt == None && Consistent(u)
    ensures u.name == (if data.name.Some? then NormaliseName(data.name.value) else "")
    ensures u.country == (if data.country.Some? then Trim(data.country.value) else "")
    ensures data.webpages.Some? ==> u.webpages == data.webpages.value
    ensures data.isBookmark.Some? ==> u.isBookmark == data.isBookmark.value
    ensures data.isActive.Some? ==> u.isActive == data.isActive.value
    ensures data.isBookmark.None? ==> !u.isBookmark
    ensures data.isActive.None? ==> u.isActive
    ensures data.webpages.None? ==> u.webpages == []
  {
    var d := WithoutDeletedAt(data);
    University(
      id,
      if d.name.Some? then NormaliseName(d.name.value) else "",
      if d.country.Some? then Trim(d.country.value) else "",
      if d.webpages.Some? then d.webpages.value else [],
      if d.isBookmark.Some? then d.isBookmark.value else false,
      if d.isActive.Some? then d.isActive.value else true,
      None,   // the key was dropped, so the schema default applies
      now)
  }

  /** `createUniversity`: validation failures are 400, a unique-index
      violation (the name ignoring case, or the identifier) is 409. The
      identifier is the one the storage assigns, or the caller's. */
  function Create(s: Store, id: Id, data: Patch, now: Time, isUrl: string -> bool)
    : (r: Result<Saved, ServiceError>)
    ensures r.Failure? ==> r.error.status == 400 || r.error == ServiceError(409, DuplicateKey)
    ensures var u := Build(id, data, now);
            var invalid := u.name == "" || u.country == "" || !NameFree(s, id, u.name)
                           || !WebpagesValid(u.webpages, isUrl);
            && (r.Failure? && r.error.status == 400 <==> invalid)
            && (r.Success? <==> !invalid && id !in s && !NameTakenIgnoringCase(s, id, u.name))
    ensures r.Success? ==>
      && id !in s
      && r.value.store == s[id := r.value.record]
      && r.value.record == Build(id, data, now)
      && r.value.record.deletedAt == None
      && r.value.record.name != "" && r.value.record.country != ""
      && (forall w :: w in r.value.record.webpages ==> isUrl(w))
      && (forall k :: k in s ==> Lower(s[k].name) != r.value.record.name)
  {
    var u := Build(id, data, now);
    var bad := Violations(s, id, u, true, true, isUrl);
    if bad != {} then Failure(ServiceError(400, Invalid(bad)))
    else if id in s || NameTakenIgnoringCase(s, id, u.name) then Failure(ServiceError(409, DuplicateKey))
    else Success(Saved(s[id := u], u))
  }

  /** A new record whose name matches a stored one up to letter case and
      surrounding white space is rejected by the name validator. */
  lemma {:induction false} CreateRejectsCaseVariant(s: Store, id: Id, data: Patch, now: Time,
                                                    isUrl: string -> bool, other: Id)
    requires other in s && other != id
    requires data.name.Some?
    requires s[other].name == NormaliseName(data.name.value)
    ensures Create(s, id, data, now, isUrl).Failure?
    ensures Create(s, id, data, now, isUrl).error.status == 400
    ensures Name in Create(s, id, data, now, isUrl).error.cause.fields
  {
    var u := Build(id, data, now);
    assert !NameFree(s, id, u.name);
  }

  /** Lower-casing the requested name changes nothing about creation. */
  lemma {:induction false} CreateIgnoresNameCase(s: Store, id: Id, data: Patch, now: Time,
                                                 isUrl: string -> bool)
    requires data.name.Some?
    ensures Create(s, id, data, now, isUrl)
            == Create(s, id, data.(name := Some(Lower(data.name.value))), now, isUrl)
  {
    LowerIdempotent(data.name.value);
    CaseVariantsCollide(data.name.value, Lower(data.name.value));
  }

  /** A `deletedAt` in the request body has no effect on creation. */
  lemma CreateIgnoresDeletedAt(s: Store, id: Id, data: Patch, now: Time, isUrl: string -> bool)
    ensures Create(s, id, data, now, isUrl) == Create(s, id, WithoutDeletedAt(data), now, isUrl)
  {
  }

  /** `getUniversityById`. */
  function GetById(s: Store, id: Id, isValidId: Id -> bool): (r: Result<University, ServiceError>)
    ensures !isValidId(id) ==> r == Failure(ServiceError(400, InvalidId))
    ensures isValidId(id) && id !in s ==> r == Failure(ServiceError(404, NotFound))
    ensures isValidId(id) && id in s ==> r == Success(s[id])
  {
    if !isValidId(id) then Failure(ServiceError(400, InvalidId))
    else if id !in s then Failure(ServiceError(404, NotFound))
    else Success(s[id])
  }

  /** Copies each key of the patch onto the record through the setters. */
  function Apply(u: University, p: Patch): University {
    u.(
      name := if p.name.Some? then NormaliseName(p.name.value) else u.name,
      country := if p.country.Some? then Trim(p.country.value) else u.country,
      webpages := if p.webpages.Some? then p.webpages.value else u.webpages,
      isBookmark := if p.isBookmark.Some? then p.isBookmark.value else u.isBookmark,
      isActive := if p.isActive.Some? then p.isActive.value else u.isActive,
      deletedAt := if p.deletedAt.Some? then p.deletedAt.value else u.deletedAt)
  }

  /** `updateUniversityById`: drops `deletedAt` from the patch, copies every
      other key, and saves. Validation failures are 400; a unique-index
      violation carries no status code and becomes 500. */
  function UpdateById(s: Store, id: Id, patch: Patch, isValidId: Id -> bool, isUrl: string -> bool)
    : (r: Result<Saved, ServiceError>)
    ensures !isValidId(id) ==> r == Failure(ServiceError(400, InvalidId))
    ensures isValidId(id) && id !in s ==> r == Failure(ServiceError(404, NotFound))
    ensures r.Failure? ==> r.error.status in {400, 404, 500}
    ensures isValidId(id) && id in s ==> r == ApplyAndSave(s, id, patch, isUrl)
    ensures r.Success? ==>
      && ReplacedOnly(s, r.value, id)
      && var prior := s[id];
      && var u := r.value.record;
      && u.deletedAt == prior.deletedAt
      && u.id == prior.id && u.created == prior.created
      && u.name == (if patch.name.Some? then NormaliseName(patch.name.value) else prior.name)
      && u.country == (if patch.country.Some? then Trim(patch.country.value) else prior.country)
      && u.webpages == (if patch.webpages.Some? then patch.webpages.value else prior.webpages)
      && u.isBookmark == (if patch.isBookmark.Some? then patch.isBookmark.value else prior.isBookmark)
      && u.isActive == (if patch.isActive.Some? then patch.isActive.value else prior.isActive)
      && u.name != "" && u.country != ""
      && (u.name != prior.name ==> NameFree(s, id, u.name) && !NameTakenIgnoringCase(s, id, u.name))
      && (patch.webpages.Some? ==> forall w :: w in u.webpages ==> isUrl(w))
  {
    if !isValidId(id) then Failure(ServiceError(400, InvalidId))
    else if id !in s then Failure(ServiceError(404, NotFound))
    else ApplyAndSave(s, id, patch, isUrl)
  }

  /** The part of `updateUniversityById` after the lookup: copy the keys,
      then save. The save succeeds exactly when the required fields are
      non-empty, a changed name is free both exactly and ignoring case, and
      supplied webpages are URLs. A validation failure is 400; a name that
      only the case-insensitive index catches is 500. */
  function ApplyAndSave(s: Store, id: Id, patch: Patch, isUrl: string -> bool)
    : (r: Result<Saved, ServiceError>)
    requires id in s
    ensures
      var prior := s[id];
      var name := if patch.name.Some? then NormaliseName(patch.name.value) else prior.name;
      var country := if patch.country.Some? then Trim(patch.country.value) else prior.country;
      var webpages := if patch.webpages.Some? then patch.webpages.value else prior.webpages;
      var valid := && name != "" && country != ""
                   && (name != prior.name ==> NameFree(s, id, name))
                   && (patch.webpages.Some? ==> WebpagesValid(webpages, isUrl));
      && (r.Failure? && r.error.status == 400 <==> !valid)
      && (r.Failure? && r.error.status == 500 <==> valid && name != prior.name && NameTakenIgnoringCase(s, id, name))
      && (r.Success? <==> valid && (name != prior.name ==> !NameTakenIgnoringCase(s, id, name)))
  {
    var u := Apply(s[id], WithoutDeletedAt(patch));
    var nameModified := u.name != s[id].name;
    var bad := Violations(s, id, u, nameModified, patch.webpages.Some?, isUrl);
    if bad != {} then Failure(ServiceError(400, Invalid(bad)))
    else if nameModified && NameTakenIgnoringCase(s, id, u.name) then
      Failure(ServiceError(500, DuplicateKey))
    else Success(Saved(s[id := u], u))
  }

  /** Update keeps the record's identifier, so the collection stays filed by
      identifier. */
  lemma UpdateKeepsKeys(s: Store, id: Id, patch: Patch, isValidId: Id -> bool, isUrl: string -> bool)
    requires WellKeyed(s)
    requires UpdateById(s, id, patch, isValidId, isUrl).Success?
    ensures WellKeyed(UpdateById(s, id, patch, isValidId, isUrl).value.store)
  {
  }

  /** Update is the one write path that can leave a soft-deleted record
      active: it copies `isActive` from the request without looking at
      `deletedAt`. */
  lemma UpdateCanReactivateDeletedRecord()
    ensures var u := University("a", "mit", "usa", [], false, false, Some(0), 0);
            var s := map["a" := u];
            var p := Patch(None, None, None, None, Some(true), None);
            && Consistent(u)
            && UpdateById(s, "a", p, _ => true, _ => true).Success?
            && !Consistent(UpdateById(s, "a", p, _ => true, _ => true).value.record)
  {
    var u := University("a", "mit", "usa", [], false, false, Some(0), 0);
    var s := map["a" := u];
    assert NameFree(s, "a", "mit");
  }

  /** `deleteUniversityById`: the soft delete behind an identifier check. */
  function DeleteById(s: Store, id: Id, now: Time, isValidId: Id -> bool): (r: Result<Saved, ServiceError>)
    ensures !isValidId(id) ==> r == Failure(ServiceError(400, InvalidId))
    ensures isValidId(id) && id !in s ==> r == Failure(ServiceError(404, NotFound))
    ensures isValidId(id) && id in s ==>
      && r.Success? && ReplacedOnly(s, r.value, id)
      && r.value.record == s[id].(deletedAt := Some(now), isActive := false)
  {
    if !isValidId(id) then Failure(ServiceError(400, InvalidId))
    else SoftDelete(s, id, now)
  }

  /** `toggleBookmarkById`: the bookmark toggle behind an identifier check. */
  function ToggleBookmarkById(s: Store, id: Id, isValidId: Id -> bool): (r: Result<Saved, ServiceError>)
    ensures !isValidId(id) ==> r == Failure(ServiceError(400, InvalidId))
    ensures isValidId(id) && id !in s ==> r == Failure(ServiceError(404, NotFound))
    ensures isValidId(id) && id in s ==>
      && r.Success? && ReplacedOnly(s, r.value, id)
      && r.value.record == s[id].(isBookmark := !s[id].isBookmark)
  {
    if !isValidId(id) then Failure(ServiceError(400, InvalidId))
    else ToggleBookmark(s, id)
  }

  /** A malformed identifier fails the same way whatever the collection holds:
      no lookup happens before the check. */
  lemma {:induction false} MalformedIdIgnoresStore(s1: Store, s2: Store, id: Id, patch: Patch, now: Time,
                                                   isValidId: Id -> bool, isUrl: string -> bool)
    requires !isValidId(id)
    ensures GetById(s1, id, isValidId) == GetById(s2, id, isValidId)
    ensures UpdateById(s1, id, patch, isValidId, isUrl) == UpdateById(s2, id, patch, isValidId, isUrl)
    ensures DeleteById(s1, id, now, isValidId) == DeleteById(s2, id, now, isValidId)
    ensures ToggleBookmarkById(s1, id, isValidId) == ToggleBookmarkById(s2, id, isValidId)
  {
  }
}
