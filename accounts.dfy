/** The user table and the account operations that write to it:
    `User.objects.create_user` (unique email, unique username), the
    registration serializer's `create` (the user row, then a profile row only
    when the request asks for something other than the defaults) and
    `ChangePasswordView.post`. Password hashing and the password-strength
    policy are outside the model; the table is given them as functions. */
module Accounts {
  import opened Wrappers
  import opened Strings
  import opened Models
  import opened Validators

  /** The database refuses a second row with the same unique column value. */
  datatype AccountError = EmailTaken | UsernameTaken

  /** The keyword arguments `create_user` receives. */
  datatype NewUser = NewUser(
    username: string,
    email: string,
    password: string,
    firstName: string,
    lastName: string,
    phone: Option<string>,
    birthDate: Option<Date>,
    acceptsMarketing: bool)

  /** The row `create_user` inserts: the password stored hashed, the email
      not yet verified, the account active. */
  function UserRow(id: UserId, fields: NewUser, hash: string -> string): (u: User)
    ensures u.id == id && u.email == fields.email && u.username == fields.username
    ensures u.passwordHash == hash(fields.password) && !u.isVerified && u.isActive
  {
    User(id, fields.username, fields.email, fields.firstName, fields.lastName, fields.phone,
         fields.birthDate, hash(fields.password), false, fields.acceptsMarketing, true)
  }

  function EmailsOf(users: map<UserId, User>): set<string> {
    set id | id in users :: users[id].email
  }

  function UsernamesOf(users: map<UserId, User>): set<string> {
    set id | id in users :: users[id].username
  }

  /** No two users share an email. */
  ghost predicate UniqueEmails(users: map<UserId, User>) {
    forall a, b :: a in users && b in users && users[a].email == users[b].email ==> a == b
  }

  /** No two users share a username. */
  ghost predicate UniqueUsernames(users: map<UserId, User>) {
    forall a, b :: a in users && b in users && users[a].username == users[b].username ==> a == b
  }

  /** Inserting a user under a fresh key adds exactly its email and username
      to the stored ones, and keeps both unique when they were not taken. */
  lemma InsertUser(users: map<UserId, User>, id: UserId, u: User)
    requires id !in users
    requires UniqueEmails(users) && UniqueUsernames(users)
    requires u.email !in EmailsOf(users) && u.username !in UsernamesOf(users)
    ensures EmailsOf(users[id := u]) == EmailsOf(users) + {u.email}
    ensures UsernamesOf(users[id := u]) == UsernamesOf(users) + {u.username}
    ensures UniqueEmails(users[id := u]) && UniqueUsernames(users[id := u])
  {
    var after := users[id := u];
    forall e | e in EmailsOf(after) ensures e in EmailsOf(users) + {u.email} {
      var k :| k in after && after[k].email == e;
      if k != id {
        assert e in EmailsOf(users);
      }
    }
    forall e | e in EmailsOf(users) + {u.email} ensures e in EmailsOf(after) {
      if e != u.email {
        var k :| k in users && users[k].email == e;
        assert after[k].email == e;
      } else {
        assert after[id].email == e;
      }
    }
    forall n | n in UsernamesOf(after) ensures n in UsernamesOf(users) + {u.username} {
      var k :| k in after && after[k].username == n;
      if k != id {
        assert n in UsernamesOf(users);
      }
    }
    forall n | n in UsernamesOf(users) + {u.username} ensures n in UsernamesOf(after) {
      if n != u.username {
        var k :| k in users && users[k].username == n;
        assert after[k].username == n;
      } else {
        assert after[id].username == n;
      }
    }
    forall a, b | a in after && b in after && after[a].email == after[b].email ensures a == b {
    }
    forall a, b | a in after && b in after && after[a].username == after[b].username ensures a == b {
    }
  }

  /** Replacing one user's password hash keeps every email and username
      where it was. */
  lemma SetPasswordKeepsUnique(users: map<UserId, User>, id: UserId, h: string)
    requires id in users && UniqueEmails(users) && UniqueUsernames(users)
    ensures var after := users[id := users[id].(passwordHash := h)];
      && UniqueEmails(after) && UniqueUsernames(after)
      && EmailsOf(after) == EmailsOf(users) && UsernamesOf(after) == UsernamesOf(users)
  {
    var after := users[id := users[id].(passwordHash := h)];
    assert forall k :: k in after ==> after[k].email == users[k].email && after[k].username == users[k].username;
  }

  /** `User.__str__` identifies a user: with unique emails, two stored users
      shown the same way are the same user. */
  lemma DisplayIdentifiesUser(users: map<UserId, User>, a: UserId, b: UserId)
    requires UniqueEmails(users) && a in users && b in users
    ensures Display(users[a]) == Display(users[b]) <==> a == b
  {
  }

  // ---------------------------------------------------------------- registration create

  /** What the registration `create` hands to `create_user`: the validated
      attributes without `password_confirm`, `bio` and `preferred_language`,
      `accepts_marketing` taking the model default when absent. */
  function NewUserOf(attrs: Registration): NewUser {
    NewUser(attrs.username, attrs.email, attrs.password, attrs.firstName, attrs.lastName,
            attrs.phone, attrs.birthDate, attrs.acceptsMarketing.GetOr(false))
  }

  /** The profile values `create` pops, with their defaults. */
  function ProfileOf(attrs: Registration): Profile {
    Profile(attrs.bio.GetOr(""), attrs.preferredLanguage.GetOr("en"))
  }

  /** A profile row is written only when the request asks for a non-empty
      bio or a language other than English. */
  predicate WantsProfile(p: Profile) {
    p.bio != "" || p.preferredLanguage != "en"
  }

  /** A registration that leaves both optional profile fields out gets no
      profile row; one that gives a bio does. */
  lemma ProfileOnlyWhenAsked(attrs: Registration)
    ensures attrs.bio.None? && attrs.preferredLanguage.None? ==> !WantsProfile(ProfileOf(attrs))
    ensures attrs.preferredLanguage == Some("en") && attrs.bio in {None, Some("")} ==> !WantsProfile(ProfileOf(attrs))
    ensures attrs.bio.Some? && attrs.bio.value != "" ==> WantsProfile(ProfileOf(attrs))
  {
  }

  // ---------------------------------------------------------------- the table

  class UserTable {
    /** `make_password`, outside the model. */
    const hash: string -> string
    /** `validate_password`, outside the model. */
    const policy: string -> bool
    var users: map<UserId, User>
    var profiles: map<UserId, Profile>
    var nextId: UserId

    ghost predicate Valid()
      reads this
    {
      && (forall id :: id in users ==> users[id].id == id && id < nextId)
      && UniqueEmails(users) && UniqueUsernames(users)
      && profiles.Keys <= users.Keys
    }

    function Emails(): set<string>
      reads this
    {
      EmailsOf(users)
    }

    function Usernames(): set<string>
      reads this
    {
      UsernamesOf(users)
    }

    /** `user.check_password(password)` */
    predicate CheckPassword(id: UserId, password: string)
      reads this
    {
      id in users && users[id].passwordHash == hash(password)
    }

    constructor (hash: string -> string, policy: string -> bool)
      ensures Valid() && users == map[] && profiles == map[] && nextId == 0
      ensures this.hash == hash && this.policy == policy
    {
      this.hash := hash;
      this.policy := policy;
      users := map[];
      profiles := map[];
      nextId := 0;
    }

    /** `User.objects.create_user(**fields)`: inserts a user under a fresh
        key; a taken email or username is refused and nothing changes. */
    method CreateUser(fields: NewUser) returns (r: Result<UserId, AccountError>)
      requires Valid()
      modifies this
      ensures Valid() && profiles == old(profiles)
      ensures r.Ok? <==> fields.email !in old(Emails()) && fields.username !in old(Usernames())
      ensures r.Err? ==> users == old(users) && nextId == old(nextId)
      ensures r.Err? ==> (r.error == EmailTaken <==> fields.email in old(Emails()))
      ensures r.Ok? ==> r.value == old(nextId) && r.value !in old(users) && nextId == old(nextId) + 1
      ensures r.Ok? ==> users == old(users)[r.value := UserRow(r.value, fields, hash)]
      ensures r.Ok? ==> Emails() == old(Emails()) + {fields.email}
      ensures r.Ok? ==> Usernames() == old(Usernames()) + {fields.username}
    {
      if fields.email in Emails() {
        return Err(EmailTaken);
      }
      if fields.username in Usernames() {
        return Err(UsernameTaken);
      }
      var id := nextId;
      var u := UserRow(id, fields, hash);
      assert id !in users;
      InsertUser(users, id, u);
      users := users[id := u];
      nextId := nextId + 1;
      r := Ok(id);
    }

    /** `UserRegistrationView` (a create view): the registration serializer
        validates the request against the stored users; when it is valid,
        `create` pops `password_confirm`, `bio` (default empty) and
        `preferred_language` (default `en`), creates the user with the rest,
        and writes a profile row only when one of the two popped values
        differs from its default. An invalid request changes nothing. */
    method Register(input: Registration, today: Date) returns (r: Result<UserId, seq<FieldError>>)
      requires Valid()
      modifies this
      ensures Valid()
      ensures r.Ok? <==> RegistrationAccepted(input, old(Emails()), old(Usernames()), policy, today)
      ensures r.Err? ==> r.error == ValidateRegistration(input, old(Emails()), old(Usernames()), policy, today).error
      ensures r.Err? ==> users == old(users) && profiles == old(profiles) && nextId == old(nextId)
      ensures r.Ok? ==> r.value !in old(users) && r.value == old(nextId) && nextId == old(nextId) + 1
      ensures r.Ok? ==> users == old(users)[r.value := UserRow(r.value, NewUserOf(Cleaned(input)), hash)]
      ensures r.Ok? && WantsProfile(ProfileOf(input)) ==> profiles == old(profiles)[r.value := ProfileOf(input)]
      ensures r.Ok? && !WantsProfile(ProfileOf(input)) ==> profiles == old(profiles)
      ensures r.Ok? ==> users[r.value].email == Lower(input.email) && CheckPassword(r.value, input.password)
    {
      var validated := ValidateRegistration(input, Emails(), Usernames(), policy, today);
      if validated.Err? {
        return Err(validated.error);
      }
      var attrs := validated.value;
      var profile := ProfileOf(attrs);
      var created := CreateUser(NewUserOf(attrs));
      if created.Err? {
        // the validators have already refused a taken email or username
        assert false;
        return Err([]);
      }
      var id := created.value;
      if WantsProfile(profile) {
        profiles := profiles[id := profile];
      }
      r := Ok(id);
    }

    /** `ChangePasswordView.post` for the signed-in user `id`: the serializer
        checks the password policy on the new password and its confirmation
        first; only then is the old password checked (an error keyed
        `old_password`); only then is the new password stored. On any error
        nothing changes. */
    method ChangePassword(id: UserId, attrs: PasswordChange) returns (r: Outcome<FieldError>)
      requires Valid() && id in users
      modifies this
      ensures Valid() && profiles == old(profiles) && nextId == old(nextId)
      ensures r.Pass? <==>
        && policy(attrs.newPassword) && attrs.newPassword == attrs.newPasswordConfirm
        && old(CheckPassword(id, attrs.oldPassword))
      ensures r.Fail? ==> users == old(users)
      ensures PasswordChangeIsValid(attrs, policy).Err? ==> r == Fail(PasswordChangeIsValid(attrs, policy).error)
      ensures PasswordChangeIsValid(attrs, policy).Ok? && !old(CheckPassword(id, attrs.oldPassword)) ==>
        r == Fail(FieldError(OldPassword, "Incorrect current password"))
      ensures r.Pass? ==> users == old(users)[id := old(users)[id].(passwordHash := hash(attrs.newPassword))]
      ensures r.Pass? ==> CheckPassword(id, attrs.newPassword)
    {
      var valid := PasswordChangeIsValid(attrs, policy);
      if valid.Err? {
        return Fail(valid.error);
      }
      if !CheckPassword(id, attrs.oldPassword) {
        return Fail(FieldError(OldPassword, "Incorrect current password"));
      }
      SetPasswordKeepsUnique(users, id, hash(attrs.newPassword));
      users := users[id := users[id].(passwordHash := hash(attrs.newPassword))];
      r := Pass;
    }
  }
}
