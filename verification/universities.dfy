/**
 The University document: its fields and defaults, the `name` setters and
 validators, the query helpers the listing composes, and the lifecycle
 statics `softDelete`, `restore` and `toggleBookmark`.
 */
module Universities {
  import opened Wrappers
  import opened JsText
  import opened Errors

  /** The identifier a request names a record by. */
  type Id = string

  /** A timestamp in milliseconds since the epoch. */
  type Time = int

  datatype University = University(
    id: Id,
    name: string,
    country: string,
    webpages: seq<string>,
    isBookmark: bool,
    isActive: bool,
    deletedAt: Option<Time>,   // None is `null`: not deleted
    created: Time)

  /** One snapshot of the collection, by identifier. */
  type Store = map<Id, University>

  /** Every record is filed under its own identifier. */
  ghost predicate WellKeyed(s: Store) {
    forall k :: k in s ==> s[k].id == k
  }

  /** A soft-deleted record is never active. The write paths of the lifecycle
      keep this; `update` does not (see UniversityService). */
  predicate Consistent(u: University) {
    u.deletedAt.Some? ==> !u.isActive
  }

  ghost predicate AllConsistent(s: Store) {
    forall k :: k in s ==> Consistent(s[k])
  }

  // ---------------------------------------------------------------------
  // Setters and validators

  /** The `trim` and `lowercase` setters of `name`: the stored name is the
      given one with the white space at both ends removed, lower-cased. */
  function NormaliseName(name: string): (r: string)
    ensures exists a, b :: Strips(name, a, b) && r == Lower(name[a..b])
    ensures r == [] || (!IsJsSpace(r[0]) && !IsJsSpace(r[|r| - 1]))
    ensures forall i :: 0 <= i < |r| ==> !IsUpper(r[i])
    ensures Lower(r) == r
  {
    LowerIdempotent(Trim(name));
    LowerOfTrim(name);
    LowerOfTrimShape(name);
    Lower(Trim(name))
  }

  lemma {:induction false} LowerOfTrimShape(name: string)
    ensures var r := Lower(Trim(name));
      r == [] || (!IsJsSpace(r[0]) && !IsJsSpace(r[|r| - 1]))
  {
    var t := Trim(name);
    if t != [] {
      assert Lower(t)[0] == LowerChar(t[0]);
      assert Lower(t)[|t| - 1] == LowerChar(t[|t| - 1]);
    }
  }

  lemma {:induction false} LowerOfTrim(name: string)
    ensures exists a, b :: Strips(name, a, b) && Lower(Trim(name)) == Lower(name[a..b])
  {
    var a := |name| - |TrimStart(name)|;
    var b := a + |Trim(name)|;
    assert Strips(name, a, b) && Trim(name) == name[a..b];
  }

  lemma {:induction false} TrimIdempotent(s: string)
    ensures Trim(Trim(s)) == Trim(s)
  {
    var t := Trim(s);
    assert TrimStart(t) == t by {
      if t != [] {
        assert !IsJsSpace(t[0]);
      }
    }
    assert TrimEnd(t) == t by {
      if t != [] {
        assert !IsJsSpace(t[|t| - 1]);
      }
    }
  }

  /** Setting an already stored name again stores the same text. */
  lemma {:induction false} NormaliseNameIdempotent(name: string)
    ensures NormaliseName(NormaliseName(name)) == NormaliseName(name)
  {
    var t := Trim(name);
    TrimLowerCommute(t);
    TrimIdempotent(name);
    LowerIdempotent(t);
  }

  /** Two names that differ only in letter case are stored identically, so the
      uniqueness rule treats them as the same name. */
  lemma {:induction false} CaseVariantsCollide(a: string, b: string)
    requires Lower(a) == Lower(b)
    ensures NormaliseName(a) == NormaliseName(b)
  {
    TrimLowerCommute(a);
    TrimLowerCommute(b);
  }

  /** No record other than `self` holds `name`. */
  predicate NameFree(s: Store, self: Id, name: string) {
    forall k :: k in s && s[k].name == name ==> k == self
  }

  /** The uniqueness validator of `name`: skipped when the name is unmodified,
      otherwise it looks the name up and accepts only a miss or the record
      itself. */
  predicate NameValidator(s: Store, self: Id, name: string, modified: bool) {
    !modified || NameFree(s, self, name)
  }

  /** The `webpages` validator: every entry must pass the URL check, which is
      a parameter because it belongs to the `validator` package. */
  function WebpagesValid(urls: seq<string>, isUrl: string -> bool): (ok: bool)
    ensures ok <==> forall u :: u in urls ==> isUrl(u)
  {
    urls == [] || (isUrl(urls[0]) && WebpagesValid(urls[1..], isUrl))
  }

  // ---------------------------------------------------------------------
  // Query helpers

  /** `active()`: active and not soft-deleted. */
  predicate Active(u: University) {
    u.isActive && u.deletedAt.None?
  }

  /** `activeFalse()`: inactive or soft-deleted. */
  function ActiveFalse(u: University): (b: bool)
    ensures b <==> !Active(u)
  {
    !u.isActive || u.deletedAt.Some?
  }

  /** `deleted()`: soft-deleted. */
  predicate Deleted(u: University) {
    u.deletedAt.Some?
  }

  /** `deletedFalse()`: `deletedAt` is null. */
  function DeletedFalse(u: University): (b: bool)
    ensures b <==> !Deleted(u)
  {
    u.deletedAt == None
  }

  /** `bookmarked()`. */
  predicate Bookmarked(u: University) {
    u.isBookmark
  }

  /** `bookmarkedFalse()`. */
  function BookmarkedFalse(u: University): (b: bool)
    ensures b <==> !Bookmarked(u)
  {
    u.isBookmark == false
  }

  /** `createdAfter(date)`: created at or after `date`. */
  predicate CreatedAfter(u: University, date: Time)
  {
    u.created >= date
  }

  /** `byCountry(country)`: the country contains the text, ignoring case. */
  predicate ByCountry(u: University, country: string) {
    ContainsIgnoringCase(u.country, country)
  }

  /** The country filter does not depend on the letter case of its text, nor
      of the stored country. */
  lemma {:induction false} ByCountryIgnoresCase(u: University, country: string)
    ensures ByCountry(u, country) <==> ByCountry(u, Lower(country))
    ensures ByCountry(u, country) <==> ByCountry(u.(country := Lower(u.country)), country)
  {
    ContainsIgnoringCaseOfPattern(u.country, country);
    LowerIdempotent(u.country);
  }

  // ---------------------------------------------------------------------
  // Lifecycle statics

  /** A saved record together with the collection after the save. */
  datatype Saved = Saved(store: Store, record: University)

  /** The save replaced the record filed under `id` and nothing else. */
  predicate ReplacedOnly(s: Store, saved: Saved, id: Id) {
    && id in s
    && saved.store.Keys == s.Keys
    && id in saved.store && saved.store[id] == saved.record
    && forall k :: k in s && k != id ==> k in saved.store && saved.store[k] == s[k]
  }

  /** The fields the lifecycle transitions never touch. */
  predicate SameContent(a: University, b: University) {
    && a.id == b.id
    && a.name == b.name
    && a.country == b.country
    && a.webpages == b.webpages
    && a.created == b.created
  }

  /** `softDelete(id)`: stamps `deletedAt` with the current time and
      deactivates the record; an unknown id is a 404. */
  function SoftDelete(s: Store, id: Id, now: Time): (r: Result<Saved, ServiceError>)
    ensures id !in s ==> r == Failure(ServiceError(404, NotFound))
    ensures id in s ==> r.Success? && ReplacedOnly(s, r.value, id)
    ensures r.Success? ==>
      && r.value.record.deletedAt == Some(now)
      && !r.value.record.isActive
      && r.value.record.isBookmark == s[id].isBookmark
      && SameContent(r.value.record, s[id])
  {
    if id !in s then Failure(ServiceError(404, NotFound))
    else
      var u := s[id].(deletedAt := Some(now), isActive := false);
      Success(Saved(s[id := u], u))
  }

  /** `restore(id)`: clears `deletedAt` and reactivates the record; an unknown
      id is a 404. */
  function Restore(s: Store, id: Id): (r: Result<Saved, ServiceError>)
    ensures id !in s ==> r == Failure(ServiceError(404, NotFound))
    ensures id in s ==> r.Success? && ReplacedOnly(s, r.value, id)
    ensures r.Success? ==>
      && r.value.record.deletedAt == None
      && r.value.record.isActive
      && r.value.record.isBookmark == s[id].isBookmark
      && SameContent(r.value.record, s[id])
  {
    if id !in s then Failure(ServiceError(404, NotFound))
    else
      var u := s[id].(deletedAt := None, isActive := true);
      Success(Saved(s[id := u], u))
  }

  /** `toggleBookmark(id)`: negates `isBookmark`; an unknown id is a 404. */
  function ToggleBookmark(s: Store, id: Id): (r: Result<Saved, ServiceError>)
    ensures id !in s ==> r == Failure(ServiceError(404, NotFound))
    ensures id in s ==> r.Success? && ReplacedOnly(s, r.value, id)
    ensures r.Success? ==>
      && r.value.record.isBookmark == !s[id].isBookmark
      && r.value.record.isActive == s[id].isActive
      && r.value.record.deletedAt == s[id].deletedAt
      && SameContent(r.value.record, s[id])
  {
    if id !in s then Failure(ServiceError(404, NotFound))
    else
      var u := s[id].(isBookmark := !s[id].isBookmark);
      Success(Saved(s[id := u], u))
  }

  /** Deleting again only moves the timestamp: the flags and everything else
      stay as the first deletion left them. */
  lemma {:induction false} SoftDeleteRepeated(s: Store, id: Id, t1: Time, t2: Time)
    requires id in s
    ensures var first := SoftDelete(s, id, t1).value;
            var second := SoftDelete(first.store, id, t2).value;
            && second.record == first.record.(deletedAt := Some(t2))
            && (t1 == t2 ==> second.store == first.store)
  {
    var first := SoftDelete(s, id, t1).value;
    var second := SoftDelete(first.store, id, t2).value;
    assert ReplacedOnly(first.store, second, id);
    if t1 == t2 {
      assert second.record == first.record;
      assert second.store == first.store;
    }
  }

  /** Restoring a soft-deleted record makes it active and undeleted again and
      changes nothing else about it. */
  lemma {:induction false} SoftDeleteThenRestore(s: Store, id: Id, now: Time)
    requires id in s
    ensures var restored := Restore(SoftDelete(s, id, now).value.store, id).value;
            && restored.record.isActive
            && restored.record.deletedAt == None
            && restored.record == s[id].(isActive := true, deletedAt := None)
  {
    var deleted := SoftDelete(s, id, now).value;
    assert deleted.store[id] == deleted.record;
  }

  /** Toggling the bookmark twice leaves the collection as it was. */
  lemma {:induction false} ToggleBookmarkTwice(s: Store, id: Id)
    requires id in s
    ensures var once := ToggleBookmark(s, id).value;
            ToggleBookmark(once.store, id).value.store == s
  {
    var once := ToggleBookmark(s, id).value;
    var twice := ToggleBookmark(once.store, id).value;
    assert twice.record == s[id];
    assert twice.store == s;
  }

  /** The three lifecycle transitions keep every record filed under its own
      identifier and keep soft-deleted records inactive. */
  lemma {:induction false} LifecyclePreservesInvariants(s: Store, id: Id, now: Time)
    requires WellKeyed(s) && AllConsistent(s)
    requires id in s
    ensures WellKeyed(SoftDelete(s, id, now).value.store) && AllConsistent(SoftDelete(s, id, now).value.store)
    ensures WellKeyed(Restore(s, id).value.store) && AllConsistent(Restore(s, id).value.store)
    ensures WellKeyed(ToggleBookmark(s, id).value.store) && AllConsistent(ToggleBookmark(s, id).value.store)
  {
    TransitionKeeps(s, SoftDelete(s, id, now).value, id);
    TransitionKeeps(s, Restore(s, id).value, id);
    TransitionKeeps(s, ToggleBookmark(s, id).value, id);
  }

  lemma TransitionKeeps(s: Store, saved: Saved, id: Id)
    requires WellKeyed(s) && AllConsistent(s)
    requires ReplacedOnly(s, saved, id)
    requires saved.record.id == id && Consistent(saved.record)
    ensures WellKeyed(saved.store) && AllConsistent(saved.store)
  {
  }

  /** A soft-deleted record is consistent whatever it was before, and so is a
      restored one. */
  lemma SoftDeleteAndRestoreAreConsistent(s: Store, id: Id, now: Time)
    requires id in s
    ensures Consistent(SoftDelete(s, id, now).value.record)
    ensures Consistent(Restore(s, id).value.record)
  {
  }
}
