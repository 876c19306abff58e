/** The user service: reading a profile, the partial profile update and
    the password change. Requests address users by the id taken from the
    access token. */
module Users {
  import opened Common
  import opened Models
  import opened Store

  /** What a profile read or update returns: never the password. */
  datatype Profile = Profile(id: string, email: string, name: string)

  function ProfileOf(u: User): Profile
  {
    Profile(u.id, u.email, u.name)
  }

  /** `after` is `before` with the non-empty request fields written over
      it; an empty field keeps the stored value, and nothing else differs. */
  ghost predicate ProfilePatched(after: User, before: User, name: string, email: string, password: string)
  {
    && after.id == before.id
    && after.createdAt == before.createdAt
    && after.name == (if name != "" then name else before.name)
    && after.email == (if email != "" then email else before.email)
    && after.password == (if password != "" then password else before.password)
  }

  class UserService {
    const db: Db

    constructor (db: Db)
      ensures this.db == db
    {
      this.db := db;
    }

    /** The profile of the user with that id, or "user not found". */
    method GetProfile(userId: string) returns (r: Result<Profile>)
      requires db.Valid()
      ensures r.Ok? <==> userId in db.users
      ensures r.Ok? ==> r.value == Profile(userId, db.users[userId].email, db.users[userId].name)
      ensures r.Err? ==> r.error == UserNotFound
    {
      var found := db.FindUserById(userId);
      if found.None? {
        return Err(UserNotFound);
      }
      r := Ok(ProfileOf(found.value));
    }

    /** Partial update: empty fields keep their value; an email held by a
        different user is refused before anything is saved; keeping one's
        own email is allowed. On success the row is saved with `updatedAt`
        set to now. */
    method UpdateProfile(userId: string, name: string, email: string, password: string, now: int)
      returns (r: Result<Profile>)
      requires db.Valid()
      modifies db
      ensures db.Valid() && db.refreshTokens == old(db.refreshTokens) && db.notes == old(db.notes)
      ensures old(db.OwnersExist()) ==> db.OwnersExist()
      ensures userId !in old(db.users) ==> r == Err(UserNotFound) && db.users == old(db.users)
      ensures userId in old(db.users) && email != "" && EmailTakenByOther(old(db.users), email, userId) ==>
                r == Err(EmailAlreadyTaken) && db.users == old(db.users)
      ensures userId in old(db.users) && (email == "" || !EmailTakenByOther(old(db.users), email, userId)) ==>
                && db.users.Keys == old(db.users).Keys
                && (forall id :: id in db.users && id != userId ==> db.users[id] == old(db.users)[id])
                && ProfilePatched(db.users[userId], old(db.users)[userId], name, email, password)
                && db.users[userId].updatedAt == now
                && r == Ok(ProfileOf(db.users[userId]))
      ensures userId in old(db.users) && email == old(db.users)[userId].email ==> r.Ok?
    {
      var found := db.FindUserById(userId);
      if found.None? {
        return Err(UserNotFound);
      }
      var user := found.value;
      if name != "" {
        user := user.(name := name);
      }
      if email != "" {
        var other := db.FindOtherUserByEmail(email, userId);
        if other.Some? {
          return Err(EmailAlreadyTaken);
        }
        user := user.(email := email);
      }
      if password != "" {
        user := user.(password := password);
      }
      db.SaveUser(user, now);
      r := Ok(ProfileOf(user.(updatedAt := now)));
    }

    /** Password change: the stored credential must equal the old one
        ("incorrect password" otherwise, nothing saved); then only the
        password changes, and `updatedAt` is set to now. */
    method UpdatePassword(userId: string, oldPassword: string, newPassword: string, now: int)
      returns (r: Option<Error>)
      requires db.Valid()
      modifies db
      ensures db.Valid() && db.refreshTokens == old(db.refreshTokens) && db.notes == old(db.notes)
      ensures old(db.OwnersExist()) ==> db.OwnersExist()
      ensures userId !in old(db.users) ==> r == Some(RecordNotFound) && db.users == old(db.users)
      ensures userId in old(db.users) && old(db.users)[userId].password != oldPassword ==>
                r == Some(IncorrectPassword) && db.users == old(db.users)
      ensures userId in old(db.users) && old(db.users)[userId].password == oldPassword ==>
                r == None &&
                db.users == old(db.users)[userId := old(db.users)[userId].(password := newPassword, updatedAt := now)]
    {
      var found := db.FindUserById(userId);
      if found.None? {
        return Some(RecordNotFound);
      }
      var user := found.value;
      if user.password != oldPassword {
        return Some(IncorrectPassword);
      }
      user := user.(password := newPassword);
      db.SaveUser(user, now);
      r := None;
    }
  }
}
