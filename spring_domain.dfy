/** The phone number entity of the Spring application. */
module SpringDomain {
  import opened Wrappers
  import opened PhoneText
  import opened Entities

  class PhoneNumber {
    var phoneNumberPK: PhoneNumberPK
    /** The stored digits. */
    var phoneNumber: string
    /** The owning contact, by id. */
    var contactId: int
    var phoneMaskId: Option<PhoneMask>
    var phoneType: Option<PhoneType>

    constructor (pk: PhoneNumberPK, phoneNumber: string, contactId: int, mask: Option<PhoneMask>, phoneType: Option<PhoneType>)
      ensures this.phoneNumberPK == pk && this.phoneNumber == phoneNumber && this.contactId == contactId
      ensures this.phoneMaskId == mask && this.phoneType == phoneType
    {
      this.phoneNumberPK := pk;
      this.phoneNumber := phoneNumber;
      this.contactId := contactId;
      this.phoneMaskId := mask;
      this.phoneType := phoneType;
    }

    /**
     * The number as serialised under "number": the stored digits poured into
     * the mask's placeholders, or the stored digits alone when there is no
     * mask or the mask does not have one placeholder per digit.
     */
    method GetPhoneNumber() returns (s: string)
      ensures s == Format(phoneNumber, MaskView(phoneMaskId))
    {
      if phoneMaskId.None? {
        return phoneNumber;
      }
      var mask := phoneMaskId.value.phoneMaskView;
      if |mask| - |StripX(mask)| != |phoneNumber| {
        return phoneNumber;
      }
      StripXLength(mask);
      s := FillMask(mask, phoneNumber);
    }
  }
}
