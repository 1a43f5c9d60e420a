/** The records of the users app: the user, its profile and its addresses,
    with the defaults the model fields declare and the derived `full_name`
    and `__str__` of a user. */
module Models {
  import opened Wrappers
  import opened Strings

  type UserId = nat
  type AddressId = nat

  /** A calendar date; the model only ever compares dates field by field. */
  datatype Date = Date(year: int, month: int, day: int)

  datatype User = User(
    id: UserId,
    username: string,
    email: string,
    firstName: string,
    lastName: string,
    phone: Option<string>,
    birthDate: Option<Date>,
    passwordHash: string,
    isVerified: bool,
    acceptsMarketing: bool,
    isActive: bool)

  /** The profile row written at registration. */
  datatype Profile = Profile(bio: string, preferredLanguage: string)

  /** `User.__str__`: a user is shown by the email it logs in with. */
  function Display(u: User): string {
    u.email
  }

  /** `User.full_name`: first and last name joined by a space, stripped. */
  function FullName(u: User): string {
    Strip(u.firstName + " " + u.lastName)
  }

  lemma FullNameIsTrimmed(u: User)
    ensures Trimmed(FullName(u))
  {
    StripIsTrimmed(u.firstName + " " + u.lastName);
  }

  /** Two non-blank names without surrounding whitespace are joined as they are. */
  lemma FullNameJoinsNames(u: User)
    requires u.firstName != [] && Trimmed(u.firstName)
    requires u.lastName != [] && Trimmed(u.lastName)
    ensures FullName(u) == u.firstName + " " + u.lastName
  {
    var s := u.firstName + " " + u.lastName;
    assert s[0] == u.firstName[0];
    assert s[|s| - 1] == u.lastName[|u.lastName| - 1];
    StripOfTrimmed(s);
  }

  /** Without a last name the separating space is stripped away. */
  lemma FullNameOfFirstNameOnly(u: User)
    requires u.lastName == []
    ensures FullName(u) == Strip(u.firstName)
  {
    assert u.firstName + " " + u.lastName == [] + u.firstName + " ";
    StripIgnoresSurroundingSpace([], u.firstName, " ");
  }

  /** Without a first name the separating space is stripped away. */
  lemma FullNameOfLastNameOnly(u: User)
    requires u.firstName == []
    ensures FullName(u) == Strip(u.lastName)
  {
    assert u.firstName + " " + u.lastName == " " + u.lastName + [];
    StripIgnoresSurroundingSpace(" ", u.lastName, []);
  }

  // ---------------------------------------------------------------- addresses

  datatype AddressType = Shipping | Billing | Both

  datatype Address = Address(
    id: AddressId,
    owner: UserId,
    kind: AddressType,
    streetAddress: string,
    apartment: string,
    city: string,
    state: string,
    postalCode: int,
    country: string,
    isDefault: bool,
    isActive: bool,
    deliveryInstructions: string)

  /** The fields given when an address row is created; `None` means the
      field was not given and takes the model's default. */
  datatype AddressInput = AddressInput(
    kind: Option<AddressType>,
    streetAddress: string,
    apartment: Option<string>,
    city: string,
    state: string,
    postalCode: int,
    country: string,
    isDefault: Option<bool>,
    isActive: Option<bool>,
    deliveryInstructions: Option<string>)

  /** A new address row built from its input and the field defaults. */
  function NewAddress(id: AddressId, owner: UserId, input: AddressInput): (a: Address)
    ensures a.id == id && a.owner == owner
  {
    Address(
      id, owner,
      input.kind.GetOr(Shipping),
      input.streetAddress,
      input.apartment.GetOr(""),
      input.city, input.state, input.postalCode, input.country,
      input.isDefault.GetOr(false),
      input.isActive.GetOr(true),
      input.deliveryInstructions.GetOr(""))
  }

  /** An address is created shipping, active and not default unless told
      otherwise, and keeps every value it is given. */
  lemma NewAddressDefaults(id: AddressId, owner: UserId, input: AddressInput)
    ensures var a := NewAddress(id, owner, input);
      && (input.isDefault == None ==> !a.isDefault)
      && (input.isActive == None ==> a.isActive)
      && (input.kind == None ==> a.kind == Shipping)
      && (input.apartment == None ==> a.apartment == "")
      && (input.deliveryInstructions == None ==> a.deliveryInstructions == "")
      && (input.isDefault.Some? ==> a.isDefault == input.isDefault.value)
      && (input.isActive.Some? ==> a.isActive == input.isActive.value)
      && (input.kind.Some? ==> a.kind == input.kind.value)
      && (input.apartment.Some? ==> a.apartment == input.apartment.value)
      && (input.deliveryInstructions.Some? ==> a.deliveryInstructions == input.deliveryInstructions.value)
      && a.streetAddress == input.streetAddress && a.city == input.city
      && a.state == input.state && a.postalCode == input.postalCode
      && a.country == input.country
  {
  }
}
