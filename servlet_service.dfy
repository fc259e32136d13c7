/**
 * The phonebook service of the servlet application. The EntityManager and
 * its database are the field `db`; each operation reads it and, where the
 * source persists or removes entities, assigns its new value.
 */
module ServletService {
  import opened Wrappers
  import opened PhoneText
  import opened Entities
  import opened Store

  /** What `getSingleResult()` yields: no row, one row, or more (a NonUniqueResultException). */
  datatype SingleResult = NoResult | Single(row: NumberRow) | NonUnique

  class PhonebookService {
    var db: Db

    ghost predicate Valid()
      reads this
    {
      Store.Valid(db)
    }

    constructor (db: Db)
      requires Store.Valid(db)
      ensures Valid() && this.db == db
    {
      this.db := db;
    }

    /** `em.find(Contact.class, contactId)`. */
    method FindContact(contactId: int) returns (r: Option<Contact>)
      ensures r.Some? <==> contactId in db.contacts
      ensures r.Some? ==> r.value == Contact(contactId, db.contacts[contactId])
    {
      if contactId in db.contacts {
        r := Some(Contact(contactId, db.contacts[contactId]));
      } else {
        r := None;
      }
    }

    /**
     * Remove a contact and, by cascade, every phone number it owns; false
     * when there is no such contact. This is the evidently intended result:
     * true exactly when the contact was there and is now gone.
     */
    method DeleteContact(contactId: int) returns (ok: bool)
      requires Valid()
      modifies this
      ensures Valid()
      ensures ok == (contactId in old(db.contacts))
      ensures ok ==> db == old(db).(contacts := old(db.contacts) - {contactId},
                                    numbers := WithoutContact(old(db.numbers), contactId))
      ensures !ok ==> db == old(db)
    {
      var contact := FindContact(contactId);
      if contact.None? {
        return false;
      }
      db := db.(contacts := db.contacts - {contactId}, numbers := WithoutContact(db.numbers, contactId));
      ok := true;
    }

    /**
     * `deleteContact` as written: after the removal is committed it calls
     * `em.close()`, which throws `IllegalStateException` on an EntityManager
     * the container manages (`containerManaged`, the case of both callers,
     * which inject it with `@PersistenceContext`); the catch then returns
     * false, although the contact and its numbers are already gone.
     */
    method DeleteContactAsWritten(contactId: int, containerManaged: bool) returns (ok: bool)
      requires Valid()
      modifies this
      ensures Valid()
      ensures ok == (contactId in old(db.contacts) && !containerManaged)
      ensures contactId in old(db.contacts) ==>
        db == old(db).(contacts := old(db.contacts) - {contactId},
                       numbers := WithoutContact(old(db.numbers), contactId))
      ensures contactId !in old(db.contacts) ==> db == old(db)
      ensures containerManaged && contactId in old(db.contacts) ==> !ok && contactId !in db.contacts
    {
      ok := DeleteContact(contactId);
      if ok && containerManaged {
        ok := false;
      }
    }

    /**
     * Delete the contact's rows holding the digits of `phoneNumber`; true
     * exactly when at least one row went.
     */
    method DeletePhoneNumber(contactId: int, phoneNumber: string) returns (ok: bool)
      requires Valid()
      modifies this
      ensures Valid()
      ensures db == old(db).(numbers := DeleteQuery(old(db.numbers), Canonical(phoneNumber), contactId))
      ensures ok <==> exists x :: x in old(db.numbers) && x.number == Canonical(phoneNumber) && x.pk.contactId == contactId
    {
      var numbersOnly := Canonical(phoneNumber);
      var before := |db.numbers|;
      db := db.(numbers := DeleteQuery(db.numbers, numbersOnly, contactId));
      var entitiesCount := before - |db.numbers|;
      ok := entitiesCount > 0;
    }

    /**
     * The contacts owning a number that equals (whole-number search) or
     * contains (partial search) the digits of `phoneNumber`; none at all for
     * a null or empty argument.
     */
    method FindContactsByPhoneNumber(phoneNumber: Option<string>, wholeNumber: bool) returns (r: Option<seq<Contact>>)
      requires Valid()
      ensures r.None? <==> phoneNumber.None? || phoneNumber.value == []
      ensures r.Some? ==> IsSearchResult(db, QueryPattern(phoneNumber.value, wholeNumber), r.value)
    {
      if phoneNumber.None? || phoneNumber.value == [] {
        return None;
      }
      var numberToMatch := QueryPattern(phoneNumber.value, wholeNumber);
      r := Some(SearchContacts(db, numberToMatch));
    }

    /**
     * Create a contact under a new id; refused (nothing stored) only when
     * both names are given and both are empty.
     */
    method CreateContact(firstName: Option<string>, lastName: Option<string>) returns (r: Option<Contact>)
      requires Valid()
      modifies this
      ensures Valid()
      ensures r.None? <==> BothNamesEmpty(firstName, lastName)
      ensures r.None? ==> db == old(db)
      ensures r.Some? ==>
        && r.value == Contact(old(db.nextContactId), Names(firstName, lastName))
        && db == old(db).(contacts := old(db.contacts)[r.value.contactId := r.value.names],
                          nextContactId := old(db.nextContactId) + 1)
      ensures r.Some? ==> r.value.contactId > 0 && r.value.contactId !in old(db.contacts)
    {
      if BothNamesEmpty(firstName, lastName) {
        return None;
      }
      var contact := Contact(db.nextContactId, Names(firstName, lastName));
      db := db.(contacts := db.contacts[contact.contactId := contact.names], nextContactId := db.nextContactId + 1);
      r := Some(contact);
    }

    /**
     * Upsert: an unknown id creates a contact under a new id; a known id
     * takes each non-null name given and keeps the stored one for a null.
     */
    method UpdateContact(contactId: int, firstName: Option<string>, lastName: Option<string>) returns (r: Option<Contact>)
      requires Valid()
      modifies this
      ensures Valid()
      ensures r.None? <==> BothNamesEmpty(firstName, lastName)
      ensures r.None? ==> db == old(db)
      ensures r.Some? && contactId !in old(db.contacts) ==>
        && r.value == Contact(old(db.nextContactId), Names(firstName, lastName))
        && r.value.contactId !in old(db.contacts)
        && db == old(db).(contacts := old(db.contacts)[r.value.contactId := r.value.names],
                          nextContactId := old(db.nextContactId) + 1)
      ensures r.Some? && contactId in old(db.contacts) ==>
        && r.value.contactId == contactId
        && r.value.names.firstName == (if firstName.Some? then firstName else old(db.contacts[contactId].firstName))
        && r.value.names.lastName == (if lastName.Some? then lastName else old(db.contacts[contactId].lastName))
        && db == old(db).(contacts := old(db.contacts)[contactId := r.value.names])
    {
      var contact := FindContact(contactId);
      if contact.None? {
        r := CreateContact(firstName, lastName);
        return;
      }
      if BothNamesEmpty(firstName, lastName) {
        return None;
      }
      var names := contact.value.names;
      if firstName.Some? {
        names := names.(firstName := firstName);
      }
      if lastName.Some? {
        names := names.(lastName := lastName);
      }
      db := db.(contacts := db.contacts[contactId := names]);
      r := Some(Contact(contactId, names));
    }

    /** The stored number whose digits are those of `number`, by `getSingleResult()`. */
    method FindPhoneNumber(number: string) returns (r: SingleResult)
      ensures r.NoResult? <==> forall x :: x in db.numbers ==> x.number != Canonical(number)
      ensures r.Single? ==>
        && r.row in db.numbers && r.row.number == Canonical(number)
        && forall x :: x in db.numbers && x.number == Canonical(number) ==> x == r.row
      ensures r.NonUnique? <==> |WithNumber(db.numbers, Canonical(number))| > 1
    {
      var numbersOnly := Canonical(number);
      var rows := WithNumber(db.numbers, numbersOnly);
      if |rows| == 0 {
        r := NoResult;
      } else if |rows| == 1 {
        assert rows[0] in rows;
        r := Single(rows[0]);
      } else {
        r := NonUnique;
      }
    }

    /**
     * Find-or-create a type row by exact name: an existing row is returned
     * and nothing is added; a missing one is added only when asked to.
     */
    method FindPhoneType(typeName: string, createIfNotExists: bool) returns (r: Option<PhoneType>)
      requires Valid()
      requires createIfNotExists ==> Storable(db.types, typeName)
      modifies this
      ensures Valid()
      ensures Holds(old(db.types), typeName) || createIfNotExists ==>
        var found := FindOrCreate(old(db.types), typeName);
        r == Some(PhoneType(found.id, typeName)) && db == old(db).(types := found.table)
      ensures !Holds(old(db.types), typeName) && !createIfNotExists ==> r.None? && db == old(db)
    {
      if Holds(db.types, typeName) {
        var id :| id in db.types.values && db.types.values[id] == typeName;
        return Some(PhoneType(id, typeName));
      }
      if !createIfNotExists {
        return None;
      }
      var id := db.types.nextId;
      db := db.(types := Table(db.types.values[id := typeName], id + 1));
      r := Some(PhoneType(id, typeName));
    }

    /**
     * Find-or-create a mask row by exact template: an existing row is
     * returned and nothing is added; a missing one is added only when asked to.
     */
    method FindPhoneMask(mask: string, createIfNotExists: bool) returns (r: Option<PhoneMask>)
      requires Valid()
      requires createIfNotExists ==> Storable(db.masks, mask)
      modifies this
      ensures Valid()
      ensures Holds(old(db.masks), mask) || createIfNotExists ==>
        var found := FindOrCreate(old(db.masks), mask);
        r == Some(PhoneMask(found.id, mask)) && db == old(db).(masks := found.table)
      ensures !Holds(old(db.masks), mask) && !createIfNotExists ==> r.None? && db == old(db)
    {
      if Holds(db.masks, mask) {
        var id :| id in db.masks.values && db.masks.values[id] == mask;
        return Some(PhoneMask(id, mask));
      }
      if !createIfNotExists {
        return None;
      }
      var id := db.masks.nextId;
      db := db.(masks := Table(db.masks.values[id := mask], id + 1));
      r := Some(PhoneMask(id, mask));
    }

    /**
     * Add a number to a contact: refused when the number has no digit, then
     * when the contact does not exist; otherwise the digits are stored once,
     * linked to the found-or-created mask of the raw number and the
     * found-or-created type, and they display as the raw number again.
     */
    method AddPhoneNumber(contactId: int, number: string, typeName: string) returns (r: Option<NumberRow>)
      requires Valid()
      requires Canonical(number) != [] && contactId in db.contacts ==>
        Storable(db.masks, DeriveMask(number)) && Storable(db.types, typeName)
      modifies this
      ensures Valid()
      ensures Canonical(number) == [] || contactId !in old(db.contacts) ==> r.None? && db == old(db)
      ensures Canonical(number) != [] && contactId in old(db.contacts) ==>
        var m := FindOrCreate(old(db.masks), DeriveMask(number));
        var t := FindOrCreate(old(db.types), typeName);
        var row := NumberRow(PhoneNumberPK(old(db.nextNumberId), contactId), Canonical(number), m.id, t.id);
        && r == Some(row)
        && db == old(db).(masks := m.table, types := t.table,
                          numbers := old(db.numbers) + [row], nextNumberId := old(db.nextNumberId) + 1)
      ensures r.Some? ==> Format(r.value.number, Some(db.masks.values[r.value.phoneMaskId])) == StripX(number)
      ensures r.Some? ==> db.types.values[r.value.phoneTypeId] == typeName
    {
      var numbersOnly := Canonical(number);
      if numbersOnly == [] {
        return None;
      }
      var contact := FindContact(contactId);
      if contact.None? {
        return None;
      }
      var maskOnly := DeriveMask(number);
      var phoneMask := FindPhoneMask(maskOnly, true);
      var phoneType := FindPhoneType(typeName, true);
      var row := NumberRow(PhoneNumberPK(db.nextNumberId, contactId), numbersOnly,
                           phoneMask.value.phoneMaskId, phoneType.value.phoneTypeId);
      assert db.masks.values[row.phoneMaskId] == maskOnly;
      DigitsFitColumn(number);
      InsertKeepsValid(db, row);
      db := db.(numbers := db.numbers + [row], nextNumberId := db.nextNumberId + 1);
      r := Some(row);
      RoundTrip(number);
    }
  }
}
