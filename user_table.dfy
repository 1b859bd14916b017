/** The user routes (main/routes/auth.js) and the User model
    (main/models/user.js) over the users collection, held as a table in a
    class. Password hashing (bcrypt.hash with a fresh salt) and checking
    (bcrypt.compare) are the parameters `hash` and `matches`. */
module UserTable {
  import opened Wrappers
  import opened Records

  const UserNameTakenMessage := "User Name is already taken"
  const ReferenceTakenMessage := "Reference number already exists"
  const RegisteredMessage := "User registered successfully"
  const InvalidLoginMessage := "Invalid user name or password"
  const LoginMessage := "Login successful"
  const NotFoundMessage := "User not found"
  const UpdatedMessage := "User updated successfully"

  /** Ids, userNames and referenceNos are each unique (the _id key and the
      schema's two unique indexes). */
  ghost predicate UniqueUsers(rows: seq<User>) {
    (forall i, j :: 0 <= i < j < |rows| ==> rows[i].id != rows[j].id)
    && (forall i, j :: 0 <= i < j < |rows| ==> rows[i].userName != rows[j].userName)
    && (forall i, j :: 0 <= i < j < |rows| ==> rows[i].referenceNo != rows[j].referenceNo)
  }

  predicate UserNameTaken(rows: seq<User>, userName: string) {
    exists u :: u in rows && u.userName == userName
  }

  predicate ReferenceTaken(rows: seq<User>, referenceNo: string) {
    exists u :: u in rows && u.referenceNo == referenceNo
  }

  /** The schema paths whose `required` validator fails, in schema order. */
  function SchemaFailures(u: User): (r: seq<string>)
    ensures r == [] <==> u.firstName != "" && u.lastName != "" && u.userName != ""
                         && u.userRole.Some? && u.userRole.value != "" && u.referenceNo != "" && u.password != ""
    ensures "userRole" in r <==> u.userRole.None? || u.userRole.value == ""
  {
    (if u.firstName == "" then ["firstName"] else [])
    + (if u.lastName == "" then ["lastName"] else [])
    + (if u.userName == "" then ["userName"] else [])
    + (if u.userRole.None? || u.userRole.value == "" then ["userRole"] else [])
    + (if u.referenceNo == "" then ["referenceNo"] else [])
    + (if u.password == "" then ["password"] else [])
  }

  /** The document the register route builds: only the five fields read
      from the body, so neither userRole nor section nor profileImage. */
  function NewUser(id: Id, firstName: string, lastName: string, userName: string, referenceNo: string, password: string): User {
    User(id, firstName, lastName, userName, None, None, referenceNo, password, None)
  }

  /** As written, registration can never pass validation: the document has
      no userRole, which the schema requires. */
  lemma RegistrationAlwaysRejected(id: Id, firstName: string, lastName: string, userName: string, referenceNo: string, password: string)
    ensures "userRole" in SchemaFailures(NewUser(id, firstName, lastName, userName, referenceNo, password))
    ensures SchemaFailures(NewUser(id, firstName, lastName, userName, referenceNo, password)) != []
  {
  }

  /** The first user with that userName (`findOne({ userName })`). */
  function FindByUserName(rows: seq<User>, userName: string): (r: Option<User>)
    ensures r.Some? ==> r.value in rows && r.value.userName == userName
    ensures r.None? <==> !UserNameTaken(rows, userName)
  {
    if rows == [] then None
    else if rows[0].userName == userName then Some(rows[0])
    else FindByUserName(rows[1..], userName)
  }

  /** What the login route returns about a user: never the password. */
  datatype Profile = Profile(id: Id, firstName: string, lastName: string, referenceNo: string, userRole: Option<string>)

  datatype LoginReply = LoggedIn(message: string, profile: Profile) | Rejected(status: int, message: string)

  /** A user as `select('-password')` returns it. */
  datatype PublicUser = PublicUser(
    id: Id,
    firstName: string,
    lastName: string,
    userName: string,
    userRole: Option<string>,
    section: Option<Id>,
    referenceNo: string,
    profileImage: Option<string>)

  function Public(u: User): PublicUser {
    PublicUser(u.id, u.firstName, u.lastName, u.userName, u.userRole, u.section, u.referenceNo, u.profileImage)
  }

  /** The projection keeps every field but the password: two users that
      differ at most in their passwords look the same, and different users
      otherwise look different. */
  lemma PublicOmitsOnlyPassword(u: User, v: User)
    ensures Public(u) == Public(v) <==> u.(password := "") == v.(password := "")
  {
  }

  /** POST /login: the same 400 answer for an unknown userName and for a
      wrong password, so the answer does not tell which; otherwise the
      user's profile. */
  function LoginResult(rows: seq<User>, userName: string, password: string, matches: (string, string) -> bool): (r: LoginReply)
    ensures r.Rejected? <==> FindByUserName(rows, userName).None? || !matches(password, FindByUserName(rows, userName).value.password)
    ensures r.Rejected? ==> r == Rejected(400, InvalidLoginMessage)
    ensures r.LoggedIn? ==>
      exists u :: u in rows && u.userName == userName && matches(password, u.password) &&
        r == LoggedIn(LoginMessage, Profile(u.id, u.firstName, u.lastName, u.referenceNo, u.userRole))
  {
    match FindByUserName(rows, userName)
    case None => Rejected(400, InvalidLoginMessage)
    case Some(u) =>
      if !matches(password, u.password) then Rejected(400, InvalidLoginMessage)
      else LoggedIn(LoginMessage, Profile(u.id, u.firstName, u.lastName, u.referenceNo, u.userRole))
  }

  /** With unique userNames the first match is the only one, so login
      succeeds exactly when some stored user has that userName and a
      password the candidate matches. */
  lemma {:induction false} FindByUserNameUnique(rows: seq<User>, u: User)
    requires UniqueUsers(rows) && u in rows
    ensures FindByUserName(rows, u.userName) == Some(u)
  {
    if rows[0] != u {
      assert rows[0].userName != u.userName by {
        var j :| 0 <= j < |rows| && rows[j] == u;
      }
      assert UniqueUsers(rows[1..]) by {
        forall i, j | 0 <= i < j < |rows| - 1 ensures rows[1..][i].userName != rows[1..][j].userName {
          assert rows[1..][i] == rows[i + 1] && rows[1..][j] == rows[j + 1];
        }
        forall i, j | 0 <= i < j < |rows| - 1 ensures rows[1..][i].id != rows[1..][j].id {
          assert rows[1..][i] == rows[i + 1] && rows[1..][j] == rows[j + 1];
        }
        forall i, j | 0 <= i < j < |rows| - 1 ensures rows[1..][i].referenceNo != rows[1..][j].referenceNo {
          assert rows[1..][i] == rows[i + 1] && rows[1..][j] == rows[j + 1];
        }
      }
      assert u in rows[1..];
      FindByUserNameUnique(rows[1..], u);
    }
  }

  /** The fields the update route assigns: each truthy body field replaces
      the stored one (the password still in plain text). */
  function Assigned(u: User, firstName: string, lastName: string, userName: string, userRole: string,
                    section: Id, referenceNo: string, password: string): (r: User)
    ensures r.id == u.id && r.profileImage == u.profileImage
    ensures r.firstName == (if firstName != "" then firstName else u.firstName)
    ensures r.lastName == (if lastName != "" then lastName else u.lastName)
    ensures r.userName == (if userName != "" then userName else u.userName)
    ensures r.userRole == (if userRole != "" then Some(userRole) else u.userRole)
    ensures r.section == (if section != "" then Some(section) else u.section)
    ensures r.referenceNo == (if referenceNo != "" then referenceNo else u.referenceNo)
    ensures r.password == (if password != "" then password else u.password)
  {
    u.(firstName := if firstName != "" then firstName else u.firstName,
       lastName := if lastName != "" then lastName else u.lastName,
       userName := if userName != "" then userName else u.userName,
       userRole := if userRole != "" then Some(userRole) else u.userRole,
       section := if section != "" then Some(section) else u.section,
       referenceNo := if referenceNo != "" then referenceNo else u.referenceNo,
       password := if password != "" then password else u.password)
  }

  /** An update with an empty body assigns nothing, and repeating an update
      assigns nothing more. */
  lemma AssignedIdempotent(u: User, f: string, l: string, n: string, role: string, s: Id, ref: string, p: string)
    ensures Assigned(u, "", "", "", "", "", "", "") == u
    ensures Assigned(Assigned(u, f, l, n, role, s, ref, p), f, l, n, role, s, ref, p) == Assigned(u, f, l, n, role, s, ref, p)
  {
  }

  /** The document the pre-save hook stores: the password is hashed only
      when the save modified it (isModified('password')). */
  function Stored(before: User, edited: User, hash: string -> string): (r: User)
    ensures r.password == (if edited.password != before.password then hash(edited.password) else before.password)
    ensures r.(password := "") == edited.(password := "")
  {
    if edited.password != before.password then edited.(password := hash(edited.password)) else edited
  }

  class Users {
    var rows: seq<User>

    ghost predicate Valid()
      reads this
    {
      UniqueUsers(rows)
    }

    constructor ()
      ensures Valid() && rows == []
    {
      rows := [];
    }

    /** POST /register as written: 400 for a taken userName, then 400 for a
        taken referenceNo; every other request fails validation (500) on the
        missing userRole and nothing is stored. */
    method RegisterAsWritten(firstName: string, lastName: string, userName: string, referenceNo: string, password: string, id: Id)
      returns (reply: Reply)
      requires Valid()
      modifies this
      ensures Valid() && rows == old(rows)
      ensures UserNameTaken(old(rows), userName) ==> reply == Refused(400, UserNameTakenMessage)
      ensures !UserNameTaken(old(rows), userName) && ReferenceTaken(old(rows), referenceNo) ==> reply == Refused(400, ReferenceTakenMessage)
      ensures !UserNameTaken(old(rows), userName) && !ReferenceTaken(old(rows), referenceNo) ==>
        reply.Failure? && reply.cause.ValidationError? && "userRole" in reply.cause.paths
      ensures !reply.Success?
    {
      var refusal := CheckFree(userName, referenceNo);
      if refusal.Some? {
        return refusal.value;
      }
      var doc := NewUser(id, firstName, lastName, userName, referenceNo, password);
      var failing := SchemaFailures(doc);
      if failing != [] {
        return Failure(ValidationError(failing));
      }
      // Unreachable: the document never carries a userRole.
      assert false;
    }

    /** The two duplicate checks of the register route, in order: the
        refusal one of them answers, or None when both names are free.
        Nothing changes. */
    method CheckFree(userName: string, referenceNo: string) returns (refusal: Option<Reply>)
      ensures UserNameTaken(rows, userName) ==> refusal == Some(Refused(400, UserNameTakenMessage))
      ensures !UserNameTaken(rows, userName) && ReferenceTaken(rows, referenceNo) ==> refusal == Some(Refused(400, ReferenceTakenMessage))
      ensures refusal.None? <==> !UserNameTaken(rows, userName) && !ReferenceTaken(rows, referenceNo)
    {
      var free := UserNameFree(userName);
      if !free {
        return Some(Refused(400, UserNameTakenMessage));
      }
      free := ReferenceFree(referenceNo);
      if !free {
        return Some(Refused(400, ReferenceTakenMessage));
      }
      refusal := None;
    }

    /** `User.findOne({ userName })` finds nothing. */
    method UserNameFree(userName: string) returns (free: bool)
      ensures free <==> !UserNameTaken(rows, userName)
    {
      var i := 0;
      while i < |rows|
        invariant 0 <= i <= |rows|
        invariant forall k :: 0 <= k < i ==> rows[k].userName != userName
      {
        if rows[i].userName == userName {
          return false;
        }
        i := i + 1;
      }
      free := true;
    }

    /** `User.findOne({ referenceNo })` finds nothing. */
    method ReferenceFree(referenceNo: string) returns (free: bool)
      ensures free <==> !ReferenceTaken(rows, referenceNo)
    {
      var i := 0;
      while i < |rows|
        invariant 0 <= i <= |rows|
        invariant forall k :: 0 <= k < i ==> rows[k].referenceNo != referenceNo
      {
        if rows[i].referenceNo == referenceNo {
          return false;
        }
        i := i + 1;
      }
      free := true;
    }

    /** The register route as evidently intended, with the role taken from
        the body: the same checks, then validation, then the pre-save hook
        hashes the password and the user is stored. */
    method RegisterWithRole(firstName: string, lastName: string, userName: string, userRole: string, referenceNo: string,
                            password: string, id: Id, hash: string -> string)
      returns (reply: Reply)
      requires Valid()
      modifies this
      ensures Valid()
      ensures UserNameTaken(old(rows), userName) ==> reply == Refused(400, UserNameTakenMessage)
      ensures !UserNameTaken(old(rows), userName) && ReferenceTaken(old(rows), referenceNo) ==> reply == Refused(400, ReferenceTakenMessage)
      ensures reply.Success? <==> !UserNameTaken(old(rows), userName) && !ReferenceTaken(old(rows), referenceNo)
                                  && firstName != "" && lastName != "" && userName != "" && userRole != ""
                                  && referenceNo != "" && password != "" && forall x :: x in old(rows) ==> x.id != id
      ensures reply.Success? ==> reply.message == RegisteredMessage
      ensures reply.Success? ==> rows == old(rows) + [User(id, firstName, lastName, userName, Some(userRole), None, referenceNo, hash(password), None)]
      ensures !reply.Success? ==> rows == old(rows)
    {
      var refusal := CheckFree(userName, referenceNo);
      if refusal.Some? {
        return refusal.value;
      }
      var doc := NewUser(id, firstName, lastName, userName, referenceNo, password).(userRole := Some(userRole));
      var failing := SchemaFailures(doc);
      if failing != [] {
        return Failure(ValidationError(failing));
      }
      var clash := IndexOfId(rows, IdOfUser, id);
      if clash.Some? {
        assert rows[clash.value] in rows && rows[clash.value].id == id;
        return Failure(DuplicateKey);
      }
      assert forall k :: 0 <= k < |rows| ==> IdOfUser(rows[k]) != id;
      rows := rows + [doc.(password := hash(password))];
      reply := Success(RegisteredMessage);
    }

    /** POST /login. Nothing changes. */
    method Login(userName: string, password: string, matches: (string, string) -> bool) returns (reply: LoginReply)
      ensures reply == LoginResult(rows, userName, password, matches)
    {
      var i := 0;
      while i < |rows|
        invariant 0 <= i <= |rows|
        invariant forall k :: 0 <= k < i ==> rows[k].userName != userName
        invariant FindByUserName(rows, userName) == FindByUserName(rows[i..], userName)
      {
        if rows[i].userName == userName {
          var u := rows[i];
          if !matches(password, u.password) {
            return Rejected(400, InvalidLoginMessage);
          }
          return LoggedIn(LoginMessage, Profile(u.id, u.firstName, u.lastName, u.referenceNo, u.userRole));
        }
        assert rows[i..][1..] == rows[i + 1..];
        i := i + 1;
      }
      reply := Rejected(400, InvalidLoginMessage);
    }

    /** GET /users: every user in collection order, without the password.
        Nothing changes. */
    method ListUsers() returns (users: seq<PublicUser>)
      ensures |users| == |rows|
      ensures forall i :: 0 <= i < |rows| ==> users[i] == Public(rows[i])
    {
      users := [];
      for i := 0 to |rows|
        invariant |users| == i
        invariant forall k :: 0 <= k < i ==> users[k] == Public(rows[k])
      {
        users := users + [Public(rows[i])];
      }
    }

    /** PUT /users/:id: 404 for a missing id; a new userName or referenceNo
        already held by someone gives 400 and nothing is saved; otherwise the
        truthy fields are assigned, the document is validated, the password
        is hashed if it changed, and the saved user is returned whole. */
    method Update(id: Id, firstName: string, lastName: string, userName: string, userRole: string,
                  section: Id, referenceNo: string, password: string, hash: string -> string)
      returns (reply: Reply, saved: Option<User>)
      requires Valid()
      modifies this
      ensures Valid()
      ensures IndexOfId(old(rows), IdOfUser, id).None? ==> reply == Refused(404, NotFoundMessage) && saved.None? && rows == old(rows)
      ensures IndexOfId(old(rows), IdOfUser, id).Some? ==>
        var i := IndexOfId(old(rows), IdOfUser, id).value;
        var u := old(rows)[i];
        var edited := Assigned(u, firstName, lastName, userName, userRole, section, referenceNo, password);
        if userName != "" && userName != u.userName && UserNameTaken(old(rows), userName) then
          reply == Refused(400, UserNameTakenMessage) && saved.None? && rows == old(rows)
        else if referenceNo != "" && referenceNo != u.referenceNo && ReferenceTaken(old(rows), referenceNo) then
          reply == Refused(400, ReferenceTakenMessage) && saved.None? && rows == old(rows)
        else if SchemaFailures(edited) != [] then
          reply == Failure(ValidationError(SchemaFailures(edited))) && saved.None? && rows == old(rows)
        else
          reply == Success(UpdatedMessage) && saved == Some(Stored(u, edited, hash))
          && rows == old(rows)[i := Stored(u, edited, hash)]
    {
      var at := IndexOfId(rows, IdOfUser, id);
      if at.None? {
        return Refused(404, NotFoundMessage), None;
      }
      var k := at.value;
      var u := rows[k];
      if userName != "" && userName != u.userName {
        var free := UserNameFree(userName);
        if !free {
          return Refused(400, UserNameTakenMessage), None;
        }
      }
      if referenceNo != "" && referenceNo != u.referenceNo {
        var free := ReferenceFree(referenceNo);
        if !free {
          return Refused(400, ReferenceTakenMessage), None;
        }
      }
      var edited := Assigned(u, firstName, lastName, userName, userRole, section, referenceNo, password);
      var failing := SchemaFailures(edited);
      if failing != [] {
        return Failure(ValidationError(failing)), None;
      }
      var stored := Stored(u, edited, hash);
      ghost var before := rows;
      rows := rows[k := stored];
      UpdateKeepsUnique(before, k, stored);
      reply, saved := Success(UpdatedMessage), Some(stored);
    }
  }

  /** Replacing row k by one whose userName and referenceNo are its own or
      held by no row, and whose id is unchanged, keeps the table unique. */
  lemma UpdateKeepsUnique(rows: seq<User>, k: nat, v: User)
    requires UniqueUsers(rows) && k < |rows| && v.id == rows[k].id
    requires v.userName == rows[k].userName || !UserNameTaken(rows, v.userName)
    requires v.referenceNo == rows[k].referenceNo || !ReferenceTaken(rows, v.referenceNo)
    ensures UniqueUsers(rows[k := v])
  {
    var t := rows[k := v];
    forall i, j | 0 <= i < j < |t| ensures t[i].userName != t[j].userName && t[i].referenceNo != t[j].referenceNo {
      if i == k {
        assert rows[j] in rows;
      } else if j == k {
        assert rows[i] in rows;
      }
    }
  }

  /** Intended behaviour: a user registered with a role can then log in
      with the same password, given that bcrypt accepts a password against
      its own hash. */
  lemma RegisteredCanLogIn(rows: seq<User>, u: User, password: string, hash: string -> string, matches: (string, string) -> bool)
    requires UniqueUsers(rows) && !UserNameTaken(rows, u.userName)
    requires u.password == hash(password) && matches(password, hash(password))
    ensures LoginResult(rows + [u], u.userName, password, matches) == LoggedIn(LoginMessage, Profile(u.id, u.firstName, u.lastName, u.referenceNo, u.userRole))
  {
    FindAfterAppend(rows, u);
  }

  lemma {:induction false} FindAfterAppend(rows: seq<User>, u: User)
    requires !UserNameTaken(rows, u.userName)
    ensures FindByUserName(rows + [u], u.userName) == Some(u)
  {
    if rows != [] {
      assert rows[0] in rows;
      assert (rows + [u])[1..] == rows[1..] + [u];
      assert !UserNameTaken(rows[1..], u.userName) by {
        forall x | x in rows[1..] ensures x.userName != u.userName {
          assert x in rows;
        }
      }
      FindAfterAppend(rows[1..], u);
    }
  }
}
