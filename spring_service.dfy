/**
 * The phonebook service of the Spring application. The Hibernate session
 * and its database are the field `db`; each operation reads it and, where
 * the source saves, deletes or runs an update query, assigns its new value.
 */
module SpringService {
  import opened Wrappers
  import opened PhoneText
  import opened Entities
  import opened Store

  class PhonebookService {
    var db: Db

    ghost predicate Valid()
      reads this
    {
      Store.Valid(db)
    }

    constructor (db: Db)
      requires Store.Valid(db)
      ensures Valid() && this.db == db
    {
      this.db := db;
    }

    /**
     * Save a contact without phone numbers under a new id; succeeds whenever
     * the store hands out a positive id, which it always does.
     */
    method AddContact(names: Names) returns (ok: bool)
      requires Valid()
      modifies this
      ensures Valid()
      ensures ok
      ensures db == old(db).(contacts := old(db.contacts)[old(db.nextContactId) := names],
                             nextContactId := old(db.nextContactId) + 1)
      ensures forall id :: id in old(db.contacts) ==> id in db.contacts && db.contacts[id] == old(db.contacts[id])
    {
      var contactId := db.nextContactId;
      db := db.(contacts := db.contacts[contactId := names], nextContactId := contactId + 1);
      ok := contactId > 0;
    }

    /** Overwrite both names of an existing contact, a null name included. */
    method UpdateContact(contactId: int, names: Names)
      requires Valid()
      requires contactId in db.contacts
      modifies this
      ensures Valid()
      ensures db == old(db).(contacts := old(db.contacts)[contactId := names])
    {
      db := db.(contacts := db.contacts[contactId := names]);
    }

    /**
     * The first stored number, in table order, whose digits are those of
     * `number`; none when no row holds them.
     */
    method FindPhoneNumber(number: string) returns (r: Option<NumberRow>)
      ensures r.None? <==> !HasNumber(db.numbers, Canonical(number))
      ensures r.Some? ==> FirstWith(db.numbers, Canonical(number), r.value)
    {
      var numbersOnly := Canonical(number);
      var list := WithNumber(db.numbers, numbersOnly);
      if list != [] {
        KeepFirst(db.numbers, (x: NumberRow) => x.number == numbersOnly);
        return Some(list[0]);
      }
      r := None;
    }

    /**
     * Find-or-create a type row by exact name: an existing row is returned
     * and nothing is added; a missing one is added only when asked to.
     */
    method FindPhoneType(typeName: string, createIfNotExists: bool) returns (r: Option<PhoneType>)
      requires Valid()
      requires createIfNotExists ==> Storable(db.types, typeName)
      modifies this
      ensures Valid()
      ensures Holds(old(db.types), typeName) || createIfNotExists ==>
        var found := FindOrCreate(old(db.types), typeName);
        r == Some(PhoneType(found.id, typeName)) && db == old(db).(types := found.table)
      ensures !Holds(old(db.types), typeName) && !createIfNotExists ==> r.None? && db == old(db)
    {
      if Holds(db.types, typeName) {
        var id :| id in db.types.values && db.types.values[id] == typeName;
        return Some(PhoneType(id, typeName));
      }
      if !createIfNotExists {
        return None;
      }
      var id := db.types.nextId;
      db := db.(types := Table(db.types.values[id := typeName], id + 1));
      r := Some(PhoneType(id, typeName));
    }

    /**
     * Find-or-create a mask row by exact template: an existing row is
     * returned and nothing is added; a missing one is added only when asked to.
     */
    method FindPhoneMask(mask: string, createIfNotExists: bool) returns (r: Option<PhoneMask>)
      requires Valid()
      requires createIfNotExists ==> Storable(db.masks, mask)
      modifies this
      ensures Valid()
      ensures Holds(old(db.masks), mask) || createIfNotExists ==>
        var found := FindOrCreate(old(db.masks), mask);
        r == Some(PhoneMask(found.id, mask)) && db == old(db).(masks := found.table)
      ensures !Holds(old(db.masks), mask) && !createIfNotExists ==> r.None? && db == old(db)
    {
      if Holds(db.masks, mask) {
        var id :| id in db.masks.values && db.masks.values[id] == mask;
        return Some(PhoneMask(id, mask));
      }
      if !createIfNotExists {
        return None;
      }
      var id := db.masks.nextId;
      db := db.(masks := Table(db.masks.values[id := mask], id + 1));
      r := Some(PhoneMask(id, mask));
    }

    /**
     * Add a number to a contact. In order: refused when it has no digit;
     * the first row of any contact already holding the digits is returned
     * and nothing changes; refused when the contact does not exist; the
     * mask is found or created; refused when no type name is given (the
     * mask row stays); otherwise the type is found or created and the
     * digits are stored, displaying as the raw number again.
     */
    method AddNumber(contactId: int, number: string, typeName: Option<string>) returns (r: Option<NumberRow>)
      requires Valid()
      requires Canonical(number) != [] && !HasNumber(db.numbers, Canonical(number)) && contactId in db.contacts ==>
        Storable(db.masks, DeriveMask(number)) && (typeName.Some? ==> Storable(db.types, typeName.value))
      modifies this
      ensures Valid()
      ensures Canonical(number) == [] ==> r.None? && db == old(db)
      ensures Canonical(number) != [] && HasNumber(old(db.numbers), Canonical(number)) ==>
        r.Some? && FirstWith(old(db.numbers), Canonical(number), r.value) && db == old(db)
      ensures Canonical(number) != [] && !HasNumber(old(db.numbers), Canonical(number)) ==>
        && (contactId !in old(db.contacts) ==> r.None? && db == old(db))
        && (contactId in old(db.contacts) && typeName.None? ==>
              r.None? && db == old(db).(masks := FindOrCreate(old(db.masks), DeriveMask(number)).table))
        && (contactId in old(db.contacts) && typeName.Some? ==>
              var m := FindOrCreate(old(db.masks), DeriveMask(number));
              var t := FindOrCreate(old(db.types), typeName.value);
              var row := NumberRow(PhoneNumberPK(old(db.nextNumberId), contactId), Canonical(number), m.id, t.id);
              && r == Some(row)
              && db == old(db).(masks := m.table, types := t.table,
                                numbers := old(db.numbers) + [row], nextNumberId := old(db.nextNumberId) + 1))
      ensures r.Some? ==> r.value in db.numbers && r.value.number == Canonical(number)
      ensures r.Some? && r.value !in old(db.numbers) ==>
        Format(r.value.number, Some(db.masks.values[r.value.phoneMaskId])) == StripX(number)
    {
      var numbersOnly := Canonical(number);
      if numbersOnly == [] {
        return None;
      }
      CanonicalIdempotent(number);
      var existent := FindPhoneNumber(numbersOnly);
      if existent.Some? {
        return existent;
      }
      if contactId !in db.contacts {
        return None;
      }
      var maskOnly := DeriveMask(number);
      var phoneMask := FindPhoneMask(maskOnly, true);
      if typeName.None? {
        return None;
      }
      var phoneType := FindPhoneType(typeName.value, true);
      var row := NumberRow(PhoneNumberPK(db.nextNumberId, contactId), numbersOnly,
                           phoneMask.value.phoneMaskId, phoneType.value.phoneTypeId);
      assert db.masks.values[row.phoneMaskId] == maskOnly;
      DigitsFitColumn(number);
      InsertKeepsValid(db, row);
      db := db.(numbers := db.numbers + [row], nextNumberId := db.nextNumberId + 1);
      r := Some(row);
      RoundTrip(number);
    }

    /**
     * The update query exactly as the source issues it: the argument is
     * compared verbatim with the stored digits, without canonicalising it.
     */
    method DeletePhoneNumberAsWritten(contactId: int, number: string) returns (ok: bool)
      requires Valid()
      modifies this
      ensures Valid()
      ensures db == old(db).(numbers := DeleteQuery(old(db.numbers), number, contactId))
      ensures ok <==> exists x :: x in old(db.numbers) && x.number == number && x.pk.contactId == contactId
    {
      var before := |db.numbers|;
      db := db.(numbers := DeleteQuery(db.numbers, number, contactId));
      ok := before - |db.numbers| > 0;
    }

    /**
     * Delete the contact's rows holding the digits of `number`, the raw
     * number canonicalised first as everywhere else; true exactly when at
     * least one row went.
     */
    method DeletePhoneNumber(contactId: int, number: string) returns (ok: bool)
      requires Valid()
      modifies this
      ensures Valid()
      ensures db == old(db).(numbers := DeleteQuery(old(db.numbers), Canonical(number), contactId))
      ensures ok <==> exists x :: x in old(db.numbers) && x.number == Canonical(number) && x.pk.contactId == contactId
    {
      var before := |db.numbers|;
      db := db.(numbers := DeleteQuery(db.numbers, Canonical(number), contactId));
      ok := before - |db.numbers| > 0;
    }

    /**
     * The contacts owning a number that equals (`matchWhole`) or contains the
     * digits of `number`, each once.
     */
    method FindContactByNumber(number: string, matchWhole: bool) returns (r: seq<Contact>)
      requires Valid()
      ensures IsSearchResult(db, QueryPattern(number, matchWhole), r)
    {
      var numberToMatch := QueryPattern(number, matchWhole);
      r := SearchContacts(db, numberToMatch);
    }
  }

  /**
   * The verbatim delete never removes anything for a number written with
   * any non-digit: every stored number is digits only.
   */
  lemma VerbatimDeleteMissesFormatted(rows: seq<NumberRow>, number: string, contactId: int)
    requires forall x :: x in rows ==> AllDigits(x.number)
    requires !AllDigits(number)
    ensures DeleteQuery(rows, number, contactId) == rows
  {
    KeepAll(rows, (x: NumberRow) => !(x.number == number && x.pk.contactId == contactId));
  }

  /**
   * The contact's only number was added as "+09(876)543-21-00": deleting by
   * that same text leaves the row, deleting by its digits removes it.
   */
  lemma DeleteFormattedExample(raw: string, contactId: int, rows: seq<NumberRow>)
    requires raw == "+09(876)543-21-00"
    requires rows == [NumberRow(PhoneNumberPK(1, contactId), Canonical(raw), 1, 1)]
    ensures DeleteQuery(rows, raw, contactId) == rows
    ensures DeleteQuery(rows, Canonical(raw), contactId) == []
  {
    assert !IsDigit(raw[0]);
    VerbatimDeleteMissesFormatted(rows, raw, contactId);
  }
}
