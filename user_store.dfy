/** The user session store (client/src/stores/user.js): the signed-in
    user's id, role, full name and profile image, persisted under the key
    'user'. None stands for null and undefined. */
module UserStore {
  import opened Wrappers
  import opened KeyValue

  const UserKey := "user"

  /** The user object setUser receives (the login response's user). */
  datatype SignedIn = SignedIn(id: string, userRole: Option<string>, firstName: string, lastName: string, profileImage: Option<string>)

  /** `x || null` for an optional string: the empty string is falsy too. */
  function OrNull(x: Option<string>): (r: Option<string>)
    ensures r.None? <==> x.None? || x.value == ""
    ensures r.Some? ==> r == x
  {
    if x.Some? && x.value != "" then x else None
  }

  /** The record setUser builds and saves. */
  function SessionOf(u: SignedIn): (s: SessionUser)
    ensures s.userId == Some(u.id) && s.userRole == u.userRole
    ensures s.userFullName == Some(u.firstName + " " + u.lastName)
    ensures s.userProfileImage == OrNull(u.profileImage)
  {
    SessionUser(Some(u.id), u.userRole, Some(u.firstName + " " + u.lastName), OrNull(u.profileImage))
  }

  /** The state loadUser leaves: a truthy stored value replaces all four
      fields (a string has none of them), and nothing stored, or the empty
      string, leaves the state alone. */
  function Loaded(current: SessionUser, data: Option<StoredValue>): (r: SessionUser)
    ensures data.None? || data.value == Text("") ==> r == current
    ensures data.Some? && data.value.Record? ==>
      r == data.value.user.(userProfileImage := OrNull(data.value.user.userProfileImage))
    ensures data.Some? && data.value.Text? && data.value.text != "" ==> r == SessionUser(None, None, None, None)
  {
    match data
    case None => current
    case Some(Text(t)) => if t == "" then current else SessionUser(None, None, None, None)
    case Some(Record(u)) => u.(userProfileImage := OrNull(u.userProfileImage))
  }

  /** What setUser saves, loadUser restores, whatever the state was. */
  lemma LoadRestoresSession(current: SessionUser, u: SignedIn)
    ensures Loaded(current, Some(Record(SessionOf(u)))) == SessionOf(u)
  {
  }

  class Session {
    var userId: Option<string>
    var userRole: Option<string>
    var userFullName: Option<string>
    var userProfileImage: Option<string>
    const store: KeyValueStore

    /** The initial state: all four fields null. */
    constructor (store: KeyValueStore)
      ensures State() == SessionUser(None, None, None, None) && this.store == store
    {
      userId, userRole, userFullName, userProfileImage := None, None, None, None;
      this.store := store;
    }

    ghost function State(): SessionUser
      reads this
    {
      SessionUser(userId, userRole, userFullName, userProfileImage)
    }

    /** setUser: the four fields from the user, then the same four saved
        under 'user'. */
    method SetUser(u: SignedIn)
      modifies this, store
      ensures State() == SessionOf(u)
      ensures store.entries == old(store.entries)[UserKey := Record(SessionOf(u))]
    {
      userId := Some(u.id);
      userRole := u.userRole;
      userFullName := Some(u.firstName + " " + u.lastName);
      userProfileImage := if u.profileImage.Some? && u.profileImage.value != "" then u.profileImage else None;
      store.Set(UserKey, Record(SessionUser(userId, userRole, userFullName, userProfileImage)));
    }

    /** loadUser: reads 'user', takes its fields when it is truthy, and
        returns what was read. The store is not written. */
    method LoadUser() returns (data: Option<StoredValue>)
      modifies this
      ensures data == Lookup(store.entries, UserKey)
      ensures State() == Loaded(old(State()), data)
    {
      data := store.Get(UserKey);
      if data.Some? && data.value != Text("") {
        match data.value
        case Text(_) =>
          userId, userRole, userFullName, userProfileImage := None, None, None, None;
        case Record(s) =>
          userId := s.userId;
          userRole := s.userRole;
          userFullName := s.userFullName;
          userProfileImage := if s.userProfileImage.Some? && s.userProfileImage.value != "" then s.userProfileImage else None;
      }
    }

    /** logout: all four fields null and the 'user' key deleted. */
    method Logout()
      modifies this, store
      ensures State() == SessionUser(None, None, None, None)
      ensures store.entries == old(store.entries) - {UserKey}
    {
      userId, userRole, userFullName, userProfileImage := None, None, None, None;
      store.Delete(UserKey);
    }
  }

  /** The session survives a restart: after setUser, a fresh store object
      over the same entries loads the same four fields. */
  method SetThenLoad(s: Session, u: SignedIn, restarted: Session)
    requires restarted.store == s.store && restarted != s
    modifies s, s.store, restarted
    ensures restarted.State() == SessionOf(u)
  {
    s.SetUser(u);
    var _ := restarted.LoadUser();
  }

  /** After logout nothing is loaded back. */
  method LogoutThenLoad(s: Session)
    modifies s, s.store
    ensures s.State() == SessionUser(None, None, None, None)
  {
    s.Logout();
    var data := s.LoadUser();
    assert data.None?;
  }
}
