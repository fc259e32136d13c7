/**
 * The persisted entities as values. A Contact owns its phone numbers; a
 * phone number refers to one shared mask row and one shared type row.
 */
module Entities {
  import opened Wrappers

  /** Every string column carries `@Size(min = 1, max = 45)`. */
  const MaxColumnLength: nat := 45

  /**
   * Java's `String.length()`: the number of UTF-16 code units, two for a
   * character outside the Basic Multilingual Plane and one for any other.
   */
  function Utf16Length(s: string): nat {
    if s == [] then 0
    else (if s[0] as int > 0xFFFF then 2 else 1) + Utf16Length(s[1..])
  }

  /** Each character takes at least one code unit. */
  lemma {:induction false} Utf16LengthBounds(s: string)
    ensures |s| <= Utf16Length(s) <= 2 * |s|
  {
    if s != [] {
      Utf16LengthBounds(s[1..]);
    }
  }

  /** A string of Basic Multilingual Plane characters has one code unit per character. */
  lemma {:induction false} Utf16LengthBmp(s: string)
    requires forall i :: 0 <= i < |s| ==> s[i] as int <= 0xFFFF
    ensures Utf16Length(s) == |s|
  {
    if s != [] {
      assert forall i :: 0 <= i < |s[1..]| ==> s[1..][i] == s[i + 1];
      Utf16LengthBmp(s[1..]);
    }
  }

  /** `@Size(min = 1, max = 45)` on a String, which counts `length()`. */
  predicate FitsColumn(s: string) {
    1 <= Utf16Length(s) <= MaxColumnLength
  }

  /** A row of the phone_mask table: the display template of a number. */
  datatype PhoneMask = PhoneMask(phoneMaskId: int, phoneMaskView: string)

  /** A row of the phone_type table: a type name such as "home". */
  datatype PhoneType = PhoneType(phoneTypeId: int, phoneTypeName: string)

  /** The composite key of a phone number: its own id and its owner's id. */
  datatype PhoneNumberPK = PhoneNumberPK(phoneNumberId: int, contactId: int)

  /** The two optional names of a contact (a Java null is `None`). */
  datatype Names = Names(firstName: Option<string>, lastName: Option<string>)

  datatype Contact = Contact(contactId: int, names: Names)

  /** A row of the phone_number table: digits only, linked to a mask row and a type row. */
  datatype NumberRow = NumberRow(pk: PhoneNumberPK, number: string, phoneMaskId: int, phoneTypeId: int)

  /** The check both contact operations of the servlet service make: both names present and empty. */
  predicate BothNamesEmpty(firstName: Option<string>, lastName: Option<string>) {
    firstName == Some("") && lastName == Some("")
  }

  /** The mask template a phone number entity refers to, if it refers to one. */
  function MaskView(mask: Option<PhoneMask>): Option<string> {
    match mask
    case None => None
    case Some(m) => Some(m.phoneMaskView)
  }
}
