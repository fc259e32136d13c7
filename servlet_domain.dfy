/** The phone number entity of the servlet application. */
module ServletDomain {
  import opened Wrappers
  import opened PhoneText
  import opened Entities

  class PhoneNumber {
    var phoneNumberPK: PhoneNumberPK
    /** The stored digits. */
    var number: string
    /** The owning contact, by id. */
    var contactId: int
    var phoneMaskId: Option<PhoneMask>
    var phoneType: Option<PhoneType>

    constructor (pk: PhoneNumberPK, number: string, contactId: int, mask: Option<PhoneMask>, phoneType: Option<PhoneType>)
      ensures this.phoneNumberPK == pk && this.number == number && this.contactId == contactId
      ensures this.phoneMaskId == mask && this.phoneType == phoneType
    {
      this.phoneNumberPK := pk;
      this.number := number;
      this.contactId := contactId;
      this.phoneMaskId := mask;
      this.phoneType := phoneType;
    }

    /**
     * The number as displayed: the stored digits poured into the mask's
     * placeholders, or the stored digits alone when there is no mask or the
     * mask does not have one placeholder per digit.
     */
    method GetNumber() returns (s: string)
      ensures s == Format(number, MaskView(phoneMaskId))
    {
      if phoneMaskId.None? {
        return number;
      }
      var mask := phoneMaskId.value.phoneMaskView;
      if |mask| - |StripX(mask)| != |number| {
        return number;
      }
      StripXLength(mask);
      s := FillMask(mask, number);
    }
  }
}
