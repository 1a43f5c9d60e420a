# Users app of a Django e-commerce back end, in Dafny

This project models the users app of an e-commerce back end and proves properties of the model. The app covers accounts, profiles and shipping addresses. Four parts are modelled:

- **The address table and `Address.save`** (`address_table.dfy`). Saving an address marked default first clears the default flag on the owner's other addresses, then writes the row: an update by key, or an insert. The table is a class with a sequence of rows. `save` is a method made of two loops, one per step of the source. It is proved against a specification function `Saved`. Lemmas about `Saved` show two things: the table keeps at most one default address per owner, and `save` touches nothing else.
- **The address endpoints** (`address_views.dfy`). List, retrieve, create, update, destroy and set-default all work on the caller's queryset only. An address outside that queryset is not found, and nothing changes. No endpoint changes another user's view of the table.
- **The serializer validators** (`validators.dfy`). These are pure functions returning `Result`:
  - email lower-casing and uniqueness;
  - the username character rule;
  - the ten-digit phone rule;
  - the calendar age check (at least 13);
  - the password confirmation;
  - the password-change confirmation;
  - the password-reset email lookup.
  Registration runs every field validator, reports their errors together, and runs the object-level checks only when the fields pass.
- **The user table** (`accounts.dfy`). This is a class holding users and profiles, with three operations:
  - `create_user`, which keeps emails and usernames unique;
  - registration, which creates the user and adds a profile row only when the request asks for one;
  - the change-password view, which checks the new password and its confirmation first, then the old password, and only then stores the new hash.

Supporting files:

- `strings.dfy` models the Python string builtins the app uses: `lower`, `strip`, `isdigit`, `isalnum` and `''.join(filter(...))`.
- `models.dfy` holds the records, the model-field defaults, `full_name` and `__str__`.
- `wrappers.dfy` holds `Option`, `Result` and `Outcome`.

Some inputs are parameters because they sit outside the app: today's date, the password hash function and the password-strength policy (`validate_password`). The hash and the policy are function-valued fields of the user table.

A wrong old password is not an authentication error: the body of `ChangePasswordView.post` answers with a 400 and an error under `old_password`, and `ChangePassword` models that, taking the change-password serializer as a plain serializer (see "## Left out").

## Model

| member | source | states |
|---|---|---|
| Models.FullNameIsTrimmed | apps/users/models.py:25-27 | the full name never begins or ends with whitespace |
| Models.FullNameJoinsNames | apps/users/models.py:25-27 | two non-blank names without surrounding whitespace are joined by exactly one space |
| Models.FullNameOfFirstNameOnly | apps/users/models.py:25-27 | without a last name, the full name is the stripped first name; the separating space is gone |
| Models.FullNameOfLastNameOnly | apps/users/models.py:25-27 | without a first name, the full name is the stripped last name |
| Models.NewAddress | apps/users/models.py:56-69 | a new address row carries the key and owner it is given |
| Models.NewAddressDefaults | apps/users/models.py:57-69 | a new address is shipping, active and not default unless told otherwise, and keeps every value it is given |
| Strings.SameLowerIffEqualIgnoringCase | apps/users/serializers.py:112 | two strings have the same lower-cased form exactly when they differ only in the case of letters |
| Strings.LowerIsCaselessForm | apps/users/serializers.py:116 | the lower-cased string has no upper-case letter and differs from its input only in case |
| Strings.FilterMembership | apps/users/serializers.py:135 | `filter` keeps exactly the characters that satisfy the predicate |
| Strings.FilterAppend | apps/users/serializers.py:135 | filtering a concatenation concatenates the filtered parts |
| Strings.StripIsTrimmed | apps/users/models.py:27 | `strip` leaves no whitespace at either end |
| Strings.StripIgnoresSurroundingSpace | apps/users/models.py:27 | whitespace around a string does not change what `strip` returns |
| AddressTable.ClearSiblingsPointwise | apps/users/models.py:83 | the bulk update clears the flag of exactly the owner's other default rows and keeps the table's length |
| AddressTable.OverwritePointwise | apps/users/models.py:84 | the update by key replaces exactly the rows with the saved key |
| AddressTable.SavedPointwise | apps/users/models.py:80-84 | after `save`, the row with the key is the saved address; a default save clears the owner's other default flags; every other row stays; a new key is appended |
| AddressTable.SaveLeavesSoleDefault | apps/users/models.py:80-84 | saving a default address leaves it the only default address of its owner |
| AddressTable.SaveNonDefaultTouchesNoOtherRow | apps/users/models.py:81-84 | saving a non-default address changes no other row |
| AddressTable.SaveSparesOtherOwners | apps/users/models.py:83 | rows of other owners are never changed |
| AddressTable.SaveOnlyClearsSiblingFlags | apps/users/models.py:83 | on any other row, `save` changes at most the default flag, from true to false, on a row of the same owner |
| AddressTable.SavePreservesInvariant | apps/users/models.py:80-84 | unique keys and at most one default address per owner hold after `save` when they held before |
| AddressTable.Addresses.Save | apps/users/models.py:80-84 | the table becomes `Saved(old rows, a)`, keeps its invariant, and a saved default address is its owner's only default |
| AddressTable.Addresses.ClearOtherDefaults | apps/users/models.py:81-83 | the loop performs the bulk update: rows become `ClearSiblings(old rows, a)` |
| AddressTable.Addresses.WriteRow | apps/users/models.py:84 | the loop performs the row write: an update by key, or an insert when no row has the key |
| AddressTable.Addresses.Create | apps/users/models.py:49-84 | a fresh key is issued, the row is built from its input and the field defaults, then saved |
| AddressTable.Addresses.DeleteAt | apps/users/views.py:54-59 | deleting one row removes exactly that row and keeps the invariant |
| AddressViews.OwnedByMembership | apps/users/views.py:48-49 | the filtered queryset holds exactly the caller's addresses |
| AddressViews.SaveKeepsOtherUsersView | apps/users/models.py:80-84 | saving one user's address leaves every other user's queryset unchanged |
| AddressViews.ListAddresses | apps/users/views.py:48-49 | the list holds the caller's addresses and no one else's |
| AddressViews.FindOwned | apps/users/views.py:58-59 | the lookup finds the caller's address with the key, and finds nothing exactly when the caller has none |
| AddressViews.RetrieveAddress | apps/users/views.py:54-59 | retrieve is not found exactly when the caller owns no address with the key; otherwise it returns that address |
| AddressViews.CreateAddress | apps/users/views.py:51-52 | a created address belongs to the caller whatever the request says, is active, is saved, and changes no other user's queryset |
| AddressViews.ApplyChanges | apps/users/serializers.py:35-46 | an update through the serializer never changes the key, the owner or `is_active` |
| AddressViews.SaveOwnedRow | apps/users/models.py:80-84 | saving a changed version of the caller's own row keeps the invariant and every other user's queryset |
| AddressViews.UpdateAddress | apps/users/views.py:54-59 | update is not found, and changes nothing, exactly when the caller owns no such address; otherwise the caller's row is changed and saved |
| AddressViews.SetDefault | apps/users/views.py:61-72 | set-default is not found, and changes no flag, exactly when the caller owns no such address; otherwise the row becomes the caller's only default and other users' querysets stay the same |
| AddressViews.DestroyAddress | apps/users/views.py:54-59 | destroy is not found, and changes nothing, exactly when the caller owns no such address; otherwise exactly that row is removed, and no other user's queryset changes |
| Validators.ValidateEmail | apps/users/serializers.py:110-116 | the email is refused exactly when its lower-cased form is stored; otherwise it is returned lower-cased; the error is keyed `email` |
| Validators.EmailTakenInAnyCase | apps/users/serializers.py:110-116 | once an email is registered, every spelling of it that differs only in case is refused |
| Validators.ValidateResetEmail | apps/users/serializers.py:228-236 | a reset is accepted exactly when some user has the lower-cased email, which is returned |
| Validators.ResetAcceptsExactlyTakenEmails | apps/users/serializers.py:228-236 | a reset is accepted for exactly the emails that registration refuses |
| Validators.UsernameRule | apps/users/serializers.py:125 | with underscores removed the username is non-empty and alphanumeric, exactly when it has only letters, digits and underscores and is not all underscores |
| Validators.ValidateUsername | apps/users/serializers.py:118-129 | the username is refused exactly when it is taken or breaks the character rule, and is otherwise returned unchanged |
| Validators.ValidatePhone | apps/users/serializers.py:131-140 | an absent or empty phone validates to nothing; a phone with fewer than ten digits is refused under `phone`; otherwise it is returned as written |
| Validators.PhoneSeparatorsIgnored | apps/users/serializers.py:134-136 | inserting non-digit characters into a phone never changes whether it is accepted |
| Validators.DigitsOfFormattedPhone | apps/users/serializers.py:135 | the digits of a phone are its digit groups, in order |
| Validators.ShortPhoneRejected | apps/users/serializers.py:136-139 | `123-456` is refused |
| Validators.FormattedPhoneAccepted | apps/users/serializers.py:131-140 | `(123) 456-7890` is accepted and kept as written |
| Validators.AgeReachedOnBirthday | apps/users/serializers.py:155 | the computed age reaches `n` exactly when the `n`-th birthday is today or earlier |
| Validators.Validate | apps/users/serializers.py:142-160 | the object-level check passes exactly when the confirmation equals the password and any birth date gives an age of at least 13; a mismatch is keyed `password_confirm`, an age below 13 `birthdate` |
| Validators.ThirteenthBirthdayAccepted | apps/users/serializers.py:155-159 | the exact 13th birthday is accepted; ten years of age is refused with the `birthdate` error |
| Validators.ValidateAsWritten | apps/users/serializers.py:142-160 | as written, the check fails only for an age below 13, and without a birth date it returns `None` |
| Validators.AsWrittenAcceptsMismatchedConfirmation | apps/users/serializers.py:145-148 | as written, a confirmation that differs from the password passes; the intended check refuses it |
| Validators.AsWrittenLosesAttrsWithoutBirthDate | apps/users/serializers.py:152-160 | as written, valid attributes without a birth date come back as `None` instead of the attributes |
| Validators.ValidateStrength | apps/users/serializers.py:87-91 | the password is refused exactly when the strength policy refuses it, under its own field |
| Validators.ValidateMaxLength | apps/users/serializers.py:99-100 | an optional field is refused exactly when it is longer than its maximum, under its own field |
| Validators.FieldErrorsUnion | apps/users/serializers.py:110-140 | the fields named by the collected errors are the union of those named by each field validator |
| Validators.IdentityFieldsNamed | apps/users/serializers.py:110-129 | the username and email validators each name their own field, exactly when they refuse |
| Validators.ValueFieldsNamed | apps/users/serializers.py:87-140 | the password, phone, bio and language validators each name their own field, exactly when they refuse |
| Validators.FieldErrorsReport | apps/users/serializers.py:110-140 | the collected field errors name each field exactly when its rule fails, and never the confirmation |
| Validators.FieldErrorsEmpty | apps/users/serializers.py:110-140 | no field error is collected exactly when every field rule holds |
| Validators.ValidateRegistration | apps/users/serializers.py:84-160 | registration validation succeeds exactly when every field rule and object-level rule holds; it then returns the cleaned attributes (email lower-cased); a failure always reports at least one error |
| Validators.CleanedValidation | apps/users/serializers.py:142-160 | cleaning touches neither the passwords nor the birth date, so the object-level checks see what the client sent |
| Validators.RegistrationErrorsReport | apps/users/serializers.py:110-160 | a refused registration names `email`, `username` and `phone` exactly when their rules fail, and `password_confirm` exactly when every field passed but the passwords differ |
| Validators.FieldStageReport | apps/users/serializers.py:110-140 | when a field rule fails, those field errors are what registration reports |
| Validators.FieldStageFacts | apps/users/serializers.py:110-140 | failing field rules are reported under their own fields, never under the confirmation |
| Validators.ObjectStageReport | apps/users/serializers.py:142-160 | when every field passes, the one reported error is the object-level one |
| Validators.ValidatePasswordChange | apps/users/serializers.py:216-222 | the change is refused exactly when the new password differs from its confirmation, keyed `new_password_confirm`; otherwise the input is returned unchanged |
| Validators.PasswordChangeIsValid | apps/users/serializers.py:203-222 | the serializer accepts exactly when the policy accepts the new password and the confirmation matches; the policy error comes first |
| Validators.UpdateValidatePhoneAsWritten | apps/users/serializers.py:193-201 | as written, profile-update phone validation never fails; a short phone comes back as an error object used as the value |
| Validators.UpdatePhoneAsWrittenAcceptsShortPhone | apps/users/serializers.py:197-200 | as written, the update accepts `123-456`, which the registration rule refuses |
| Accounts.UserRow | apps/users/serializers.py:171 | a created user stores the hash of its password, is not verified and is active |
| Accounts.InsertUser | apps/users/models.py:6 | inserting a user whose email and username are free adds exactly them, and emails and usernames stay unique |
| Accounts.SetPasswordKeepsUnique | apps/users/views.py:40-41 | replacing one user's password hash changes no email or username |
| Accounts.DisplayIdentifiesUser | apps/users/models.py:22-23 | with unique emails, two stored users display the same exactly when they are the same user |
| Accounts.ProfileOnlyWhenAsked | apps/users/serializers.py:166-181 | a registration without bio and language gets no profile row; one with a non-empty bio does |
| Accounts.UserTable.CreateUser | apps/users/models.py:4-20 | a user is created exactly when its email and username are both free; a refusal changes nothing; a new user takes the next fresh key |
| Accounts.UserTable.Register | apps/users/serializers.py:162-182 | registration creates a user exactly when validation accepts; the user gets the lower-cased email and a password that checks; a profile row is added exactly when it is wanted; a refusal changes nothing; a new user takes the next fresh key |
| Accounts.UserTable.ChangePassword | apps/users/views.py:34-42 | the password changes exactly when the policy and the confirmation pass and the old password checks; the serializer's errors come first, then `old_password`; any error changes nothing; afterwards the new password checks |

## Left out

- Password hashing and `validate_password` are Django code outside the app. They are parameters (function-valued fields of `UserTable`); salting and hash upgrades are not modelled.
- The date comes from `date.today()` in the source. Here it is a parameter of the validators and of registration.
- ValidateUsername: letters and digits are the ASCII ones; Python's `str.isalnum` also accepts other Unicode letters and digits.
- ValidatePhone: digits are the ASCII ones; Python's `str.isdigit` also accepts other Unicode digits.
- ValidateEmail: lower-casing covers ASCII letters only; Python's `str.lower` also lower-cases other Unicode letters.
- FullNameIsTrimmed: whitespace means the ten ASCII characters Python's `strip` removes; the non-ASCII whitespace it also removes is not modelled.
- The framework's own field checks are not modelled: required fields, blank values, the email format and the model fields' maximum lengths. The exception is the two declared maximum lengths on `bio` and `preferred_language`.
- CreateUser: Django's `create_user` also raises an error on an empty username, and stores and compares `normalize_email(email)`, which strips the email and lower-cases the part after the last `@`. The model refuses only a taken email or username, compares the email as given, and stores it as given. So with `a@x.com` stored, it accepts `a@X.COM` where the source refuses it. Registration reaches neither difference. The username it passes contains a letter or a digit. The email it passes is lower-cased, so normalisation could change only surrounding whitespace, which the framework strips before validation (next line).
- ValidateRegistration: each `CharField` of the serializer strips surrounding whitespace before any validator runs (`trim_whitespace`, on by default). The model validates the values as given. So it refuses a password `abc ` confirmed by `abc`, a username ` bob ` and a phone of one space, which the framework would first turn into `abc`, `bob` and an empty value.
- ValidateEmail: `email` is `unique=True` on the model (apps/users/models.py:6), so the framework adds an exact-match uniqueness check before `validate_email` runs. The model checks only the lower-cased email. The two differ only when a stored email has upper-case letters, which the profile endpoint can write: registering that exact spelling is refused by the source and accepted by the model.
- ChangePassword, PasswordChangeIsValid and ValidateResetEmail: `ChangePasswordSerializer` (apps/users/serializers.py:203) and `PasswordResetSerializer` (apps/users/serializers.py:224) derive from `ModelSerializer` but declare no `Meta`. The framework then fails an assertion when building their fields, so as written the change-password view ends in a server error before it reaches apps/users/views.py:38-42. The model takes the evidently intended base class, a plain `Serializer`, for both.
- The registration `create` is indented inside `validate` in the source, so the serializer never uses it. `Register` models the create the code evidently means.
- `UserProfile` declares `bio`, `avatar` and `website` but no `preferred_language`. The profile here holds the two values the registration serializer writes.
- The address views import `AddressSerializer`, but the serializer module defines `AddresSerializer`. The model assumes the address serializer is reachable.
- The JWT login, token serializers, order-derived fields, customer groups, `is_premium_customer`, timestamps, admin registration and URL routing are not modelled. They are framework glue, or they depend on models that are not part of this model.
- The duplicated and broken password-reset-confirm serializers, `UserAdminSerializer.update` and `validate_website` are dead or broken code and are not modelled.
- Concurrent saves of the same owner's addresses are not modelled. The source takes no lock, and the model runs one `save` at a time.
- Unauthenticated requests are not modelled. The views require a signed-in user, so every operation takes the caller's key as given.
- Models.Display (`User.__str__`) carries no contract of its own. What it promises is stated by `DisplayIdentifiesUser`.

## Findings

| source | as written | input that shows it | evidently intended | confidence | as-written member | corrected member |
|---|---|---|---|---|---|---|
| apps/users/serializers.py:145 | the confirmation check compares `password` with itself, so it never fires | password `strongpass123`, confirmation `differentpass123`, born 1990 | refuse a confirmation that differs from the password, under `password_confirm` | not executed | Validators.AsWrittenAcceptsMismatchedConfirmation | Validators.Validate |
| apps/users/serializers.py:160 | `return attrs` sits inside the birth-date branch, so `validate` returns `None` when no birth date is given | any valid registration without a birth date | return the attributes whether or not a birth date is given; as written the framework's own check that `validate` returned a value fails, so such a registration ends in a server error | not executed | Validators.AsWrittenLosesAttrsWithoutBirthDate | Validators.Validate |
| apps/users/serializers.py:198 | the profile-update phone validator returns the `ValidationError` instead of raising it, so a short phone is accepted | phone `123-456` | refuse a phone with fewer than ten digits, as registration does | not executed | Validators.UpdatePhoneAsWrittenAcceptsShortPhone | Validators.ValidatePhone |
