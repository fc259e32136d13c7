/**
 * The database both services work on, as one value: the contact table, the
 * phone_number table in insertion order, and the two reference tables of
 * masks and types. Ids are handed out by the store from counters, as the
 * database's auto-increment columns do.
 */
module Store {
  import opened Wrappers
  import opened PhoneText
  import opened Entities

  /** A reference table (masks or types): id -> value, and the next id to assign. */
  datatype Table = Table(values: map<int, string>, nextId: int)

  datatype Db = Db(
    contacts: map<int, Names>,
    nextContactId: int,
    numbers: seq<NumberRow>,
    nextNumberId: int,
    masks: Table,
    types: Table)

  /** No two rows of the table hold the same value: the masks and types are deduplicated. */
  ghost predicate UniqueValues(t: Table) {
    forall a, b :: a in t.values && b in t.values && t.values[a] == t.values[b] ==> a == b
  }

  ghost predicate TableValid(t: Table) {
    && 0 < t.nextId
    && (forall id :: id in t.values ==> 0 < id < t.nextId && FitsColumn(t.values[id]))
    && UniqueValues(t)
  }

  ghost predicate RowValid(db: Db, row: NumberRow) {
    && 0 < row.pk.phoneNumberId < db.nextNumberId
    && row.phoneMaskId in db.masks.values
    && row.phoneTypeId in db.types.values
    && AllDigits(row.number)
    && FitsColumn(row.number)
  }

  /** Every stored number belongs to a contact of the contact table. */
  ghost predicate OwnersExist(db: Db) {
    forall x :: x in db.numbers ==> x.pk.contactId in db.contacts
  }

  /**
   * The store's invariant: ids below their counters, every stored number
   * made of digits only and linked to an existing contact, mask and type,
   * and no two phone-number rows sharing an id.
   */
  ghost predicate Valid(db: Db) {
    && 0 < db.nextContactId
    && (forall id :: id in db.contacts ==> 0 < id < db.nextContactId)
    && TableValid(db.masks)
    && TableValid(db.types)
    && 0 < db.nextNumberId
    && OwnersExist(db)
    && (forall row :: row in db.numbers ==> RowValid(db, row))
    && (forall x, y :: x in db.numbers && y in db.numbers && x.pk.phoneNumberId == y.pk.phoneNumberId ==> x == y)
  }

  /** Appending a fresh, well-linked row under the next id keeps the store valid. */
  lemma InsertKeepsValid(db: Db, row: NumberRow)
    requires Valid(db)
    requires row.pk.phoneNumberId == db.nextNumberId
    requires row.pk.contactId in db.contacts
    requires row.phoneMaskId in db.masks.values && row.phoneTypeId in db.types.values
    requires AllDigits(row.number) && FitsColumn(row.number)
    ensures Valid(db.(numbers := db.numbers + [row], nextNumberId := db.nextNumberId + 1))
  {
    var db' := db.(numbers := db.numbers + [row], nextNumberId := db.nextNumberId + 1);
    assert forall x :: x in db'.numbers ==> x in db.numbers || x == row;
    assert forall x :: x in db.numbers ==> RowValid(db, x) && x.pk.phoneNumberId < row.pk.phoneNumberId;
  }

  /** The digits of a number whose mask fits the column fit it too: each digit is one placeholder of the mask. */
  lemma DigitsFitColumn(raw: string)
    requires Canonical(raw) != [] && FitsColumn(DeriveMask(raw))
    ensures FitsColumn(Canonical(raw))
  {
    DeriveMaskShape(raw);
    StripXLength(DeriveMask(raw));
    Utf16LengthBounds(DeriveMask(raw));
    Utf16LengthBmp(Canonical(raw));
  }

  // ---------------------------------------------------------------------
  // Find-or-create on a reference table
  // ---------------------------------------------------------------------

  /** Some row of the table holds exactly `v`. */
  predicate Holds(t: Table, v: string) {
    exists id :: id in t.values && t.values[id] == v
  }

  /** The table can hold `v` without a bean-validation error: it is there already, or it fits the column. */
  predicate Storable(t: Table, v: string) {
    Holds(t, v) || FitsColumn(v)
  }

  /** The outcome of a find-or-create: the table afterwards and the id of the row holding the value. */
  datatype Found = Found(table: Table, id: int)

  /**
   * Look `v` up by exact value and return its row; add one row holding `v`
   * under the next id only when there is none.
   */
  ghost function FindOrCreate(t: Table, v: string): (r: Found)
    requires TableValid(t) && Storable(t, v)
    ensures TableValid(r.table)
    ensures r.id in r.table.values && r.table.values[r.id] == v
    ensures t.values.Keys <= r.table.values.Keys
    ensures forall id :: id in t.values ==> r.table.values[id] == t.values[id]
    ensures Holds(t, v) ==> r.table == t
    ensures !Holds(t, v) ==>
      r.id == t.nextId && r.table == Table(t.values[t.nextId := v], t.nextId + 1)
  {
    if Holds(t, v) then
      var id :| id in t.values && t.values[id] == v;
      Found(t, id)
    else
      Found(Table(t.values[t.nextId := v], t.nextId + 1), t.nextId)
  }

  /** Deduplication: a second find-or-create of the same value returns the same row and adds nothing. */
  lemma FindOrCreateTwice(t: Table, v: string)
    requires TableValid(t) && Storable(t, v)
    ensures var first := FindOrCreate(t, v);
      FindOrCreate(first.table, v) == first
  {
    var first := FindOrCreate(t, v);
    assert Holds(first.table, v);
    var second := FindOrCreate(first.table, v);
    assert second.table == first.table;
  }

  /** A find-or-create adds at most one row, and only for a value the table did not hold. */
  lemma FindOrCreateGrowth(t: Table, v: string)
    requires TableValid(t) && Storable(t, v)
    ensures var r := FindOrCreate(t, v);
      |r.table.values| == |t.values| + (if Holds(t, v) then 0 else 1)
  {
    var r := FindOrCreate(t, v);
    if !Holds(t, v) {
      assert t.nextId !in t.values;
    }
  }

  // ---------------------------------------------------------------------
  // Queries over the phone_number table
  // ---------------------------------------------------------------------

  /** The rows satisfying `keep`, in their original order. */
  function Keep(rows: seq<NumberRow>, keep: NumberRow -> bool): (r: seq<NumberRow>)
    ensures forall x :: x in r <==> x in rows && keep(x)
    ensures |r| <= |rows|
    ensures |r| == |rows| <==> forall x :: x in rows ==> keep(x)
  {
    if rows == [] then []
    else (if keep(rows[0]) then [rows[0]] else []) + Keep(rows[1..], keep)
  }

  /** A filter every row passes leaves the table as it was. */
  lemma {:induction false} KeepAll(rows: seq<NumberRow>, keep: NumberRow -> bool)
    requires forall x :: x in rows ==> keep(x)
    ensures Keep(rows, keep) == rows
  {
    if rows != [] {
      assert forall x :: x in rows[1..] ==> x in rows;
      KeepAll(rows[1..], keep);
      assert rows == [rows[0]] + rows[1..];
    }
  }

  /** The first row kept is the earliest row of the table that passes the filter. */
  lemma {:induction false} KeepFirst(rows: seq<NumberRow>, keep: NumberRow -> bool)
    requires Keep(rows, keep) != []
    ensures exists i :: 0 <= i < |rows| && rows[i] == Keep(rows, keep)[0] && keep(rows[i]) &&
                        forall j :: 0 <= j < i ==> !keep(rows[j])
  {
    var tail := Keep(rows[1..], keep);
    assert Keep(rows, keep) == (if keep(rows[0]) then [rows[0]] else []) + tail;
    if keep(rows[0]) {
      assert Keep(rows, keep)[0] == rows[0];
    } else {
      assert Keep(rows, keep) == tail;
      KeepFirst(rows[1..], keep);
      var i :| 0 <= i < |rows[1..]| && rows[1..][i] == tail[0] && keep(rows[1..][i]) &&
               forall j :: 0 <= j < i ==> !keep(rows[1..][j]);
      assert rows[i + 1] == tail[0];
      forall j | 0 <= j < i + 1
        ensures !keep(rows[j])
      {
        if j > 0 {
          assert rows[j] == rows[1..][j - 1];
        }
      }
    }
  }

  /** Some row holds exactly the digits `number`. */
  predicate HasNumber(rows: seq<NumberRow>, number: string) {
    exists x :: x in rows && x.number == number
  }

  /** `row` is the earliest row, in table order, holding exactly the digits `number`. */
  ghost predicate FirstWith(rows: seq<NumberRow>, number: string, row: NumberRow) {
    exists i :: 0 <= i < |rows| && rows[i] == row && row.number == number &&
                forall j :: 0 <= j < i ==> rows[j].number != number
  }

  /** The rows holding exactly the digits `number`. */
  function WithNumber(rows: seq<NumberRow>, number: string): (r: seq<NumberRow>)
    ensures forall x :: x in r <==> x in rows && x.number == number
  {
    Keep(rows, (x: NumberRow) => x.number == number)
  }

  /**
   * `DELETE FROM PhoneNumber WHERE phoneNumber = :phoneNumber AND
   * phoneNumberPK.contactId = :contactId`: the rows left, and whether any row went.
   */
  function DeleteQuery(rows: seq<NumberRow>, number: string, contactId: int): (r: seq<NumberRow>)
    ensures forall x :: x in r <==> x in rows && !(x.number == number && x.pk.contactId == contactId)
    ensures |r| < |rows| <==> exists x :: x in rows && x.number == number && x.pk.contactId == contactId
  {
    Keep(rows, (x: NumberRow) => !(x.number == number && x.pk.contactId == contactId))
  }

  /** The rows that survive the cascade when a contact is removed. */
  function WithoutContact(rows: seq<NumberRow>, contactId: int): (r: seq<NumberRow>)
    ensures forall x :: x in r <==> x in rows && x.pk.contactId != contactId
  {
    Keep(rows, (x: NumberRow) => x.pk.contactId != contactId)
  }

  /**
   * The contact search `... WHERE p.phone_number LIKE :phoneNumber GROUP BY
   * c.contact_id`: the owners of matching rows, each once, in the order
   * their first matching row was stored.
   */
  function MatchingContacts(rows: seq<NumberRow>, p: string): (r: seq<int>)
    ensures forall i, j :: 0 <= i < j < |r| ==> r[i] != r[j]
    ensures forall c :: c in r <==> exists x :: x in rows && x.pk.contactId == c && Like(x.number, p)
  {
    if rows == [] then []
    else
      var last := rows[|rows| - 1];
      var earlier := MatchingContacts(rows[..|rows| - 1], p);
      assert rows == rows[..|rows| - 1] + [last];
      if Like(last.number, p) && last.pk.contactId !in earlier then earlier + [last.pk.contactId]
      else earlier
  }

  /** Contact `c` owns a stored number matched by `p`. */
  ghost predicate OwnsMatch(db: Db, p: string, c: int) {
    exists x :: x in db.numbers && x.pk.contactId == c && Like(x.number, p)
  }

  /** Contact `c` is in the result list. */
  ghost predicate Listed(r: seq<Contact>, c: int) {
    exists i :: 0 <= i < |r| && r[i].contactId == c
  }

  /** What a contact search returns: each owner of a matching row once, with its names, and nobody else. */
  ghost predicate IsSearchResult(db: Db, p: string, r: seq<Contact>) {
    && (forall i, j :: 0 <= i < j < |r| ==> r[i].contactId != r[j].contactId)
    && (forall i :: 0 <= i < |r| ==> r[i].contactId in db.contacts && r[i].names == db.contacts[r[i].contactId])
    && (forall i :: 0 <= i < |r| ==> OwnsMatch(db, p, r[i].contactId))
    && (forall x :: x in db.numbers && Like(x.number, p) ==> Listed(r, x.pk.contactId))
  }

  lemma OwnersAreContacts(db: Db, ids: seq<int>, p: string)
    requires OwnersExist(db) && ids == MatchingContacts(db.numbers, p)
    ensures forall i :: 0 <= i < |ids| ==> ids[i] in db.contacts
  {
    forall i | 0 <= i < |ids| ensures ids[i] in db.contacts {
      assert ids[i] in ids;
    }
  }

  /** The contacts owning a row matched by `p`, looked up in the contact table. */
  function SearchContacts(db: Db, p: string): (r: seq<Contact>)
    requires OwnersExist(db)
    ensures IsSearchResult(db, p, r)
  {
    var ids := MatchingContacts(db.numbers, p);
    OwnersAreContacts(db, ids, p);
    var r := seq(|ids|, i requires 0 <= i < |ids| => Contact(ids[i], db.contacts[ids[i]]));
    SearchCorrect(db, p, ids, r);
    r
  }

  lemma SearchCorrect(db: Db, p: string, ids: seq<int>, r: seq<Contact>)
    requires ids == MatchingContacts(db.numbers, p)
    requires forall i :: 0 <= i < |ids| ==> ids[i] in db.contacts
    requires |r| == |ids| && forall i :: 0 <= i < |r| ==> r[i] == Contact(ids[i], db.contacts[ids[i]])
    ensures IsSearchResult(db, p, r)
  {
    SearchDistinctContacts(db, p, ids, r);
    SearchFindsOwners(db, p, ids, r);
    SearchOnlyOwners(db, p, ids, r);
  }

  lemma SearchDistinctContacts(db: Db, p: string, ids: seq<int>, r: seq<Contact>)
    requires ids == MatchingContacts(db.numbers, p)
    requires forall i :: 0 <= i < |ids| ==> ids[i] in db.contacts
    requires |r| == |ids| && forall i :: 0 <= i < |r| ==> r[i] == Contact(ids[i], db.contacts[ids[i]])
    ensures forall i, j :: 0 <= i < j < |r| ==> r[i].contactId != r[j].contactId
    ensures forall i :: 0 <= i < |r| ==> r[i].contactId in db.contacts && r[i].names == db.contacts[r[i].contactId]
  {
    forall i, j | 0 <= i < j < |r| ensures r[i].contactId != r[j].contactId {
      assert r[i].contactId == ids[i] && r[j].contactId == ids[j];
    }
    forall i | 0 <= i < |r| ensures r[i].contactId in db.contacts && r[i].names == db.contacts[r[i].contactId] {
      assert r[i].contactId == ids[i];
    }
  }

  lemma SearchFindsOwners(db: Db, p: string, ids: seq<int>, r: seq<Contact>)
    requires ids == MatchingContacts(db.numbers, p)
    requires |r| == |ids| && forall i :: 0 <= i < |r| ==> r[i].contactId == ids[i]
    ensures forall x :: x in db.numbers && Like(x.number, p) ==> Listed(r, x.pk.contactId)
  {
    forall x | x in db.numbers && Like(x.number, p)
      ensures Listed(r, x.pk.contactId)
    {
      assert x.pk.contactId in ids;
      var i :| 0 <= i < |ids| && ids[i] == x.pk.contactId;
      assert r[i].contactId == x.pk.contactId;
    }
  }

  lemma SearchOnlyOwners(db: Db, p: string, ids: seq<int>, r: seq<Contact>)
    requires ids == MatchingContacts(db.numbers, p)
    requires |r| == |ids| && forall i :: 0 <= i < |r| ==> r[i].contactId == ids[i]
    ensures forall i :: 0 <= i < |r| ==> OwnsMatch(db, p, r[i].contactId)
  {
    forall i | 0 <= i < |r|
      ensures OwnsMatch(db, p, r[i].contactId)
    {
      assert ids[i] in ids;
      var x :| x in db.numbers && x.pk.contactId == ids[i] && Like(x.number, p);
      assert r[i].contactId == x.pk.contactId;
    }
  }
}
