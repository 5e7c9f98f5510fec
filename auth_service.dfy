/**
 * Registration and login over a user table. The password encoder, its matcher and the
 * token generator are collaborators the service is given; the model leaves them
 * uninterpreted as function values.
 */
module Auth {
  import opened Wrappers
  import opened Tables

  datatype Role = Student | ProfessorFree | ProfessorVip | Admin {
    /** `Role.name()`. */
    function Name(): string
    {
      match this
      case Student => "STUDENT"
      case ProfessorFree => "PROFESSOR_FREE"
      case ProfessorVip => "PROFESSOR_VIP"
      case Admin => "ADMIN"
    }
  }

  /** The role name the token and the login map carry identifies the role. */
  lemma RoleNameInjective(a: Role, b: Role)
    requires a.Name() == b.Name()
    ensures a == b
  {
  }

  /** A user row; `password` holds the encoded password. */
  datatype User = User(id: int, username: string, email: string, password: string, role: Role)

  /** A value of the map `login` returns. */
  datatype LoginValue = Text(text: string) | Account(user: User)

  predicate UserRowsDistinct(a: User, b: User)
  {
    a.id != b.id && a.username != b.username && a.email != b.email
  }

  class AuthService {
    var users: seq<User>
    var nextUserId: nat
    /** `passwordEncoder.encode`. */
    const encode: string -> string
    /** `passwordEncoder.matches(raw, encoded)`. */
    const matches: (string, string) -> bool
    /** `jwtUtil.generateToken(username, roleName)`. */
    const generateToken: (string, string) -> string

    /** No two users share an id, a username or an email address. */
    ghost predicate Valid()
      reads this
    {
      && Pairwise(users, UserRowsDistinct)
      && forall u :: u in users ==> u.id < nextUserId
    }

    constructor (encode: string -> string, matches: (string, string) -> bool, generateToken: (string, string) -> string)
      ensures Valid() && users == []
      ensures this.encode == encode && this.matches == matches && this.generateToken == generateToken
    {
      this.encode := encode;
      this.matches := matches;
      this.generateToken := generateToken;
      users := [];
      nextUserId := 1;
    }

    /** `userRepository.findByUsername`. */
    function FindByUsername(username: string): (r: Option<User>)
      reads this
      ensures r.Some? ==> r.value in users && r.value.username == username
      ensures r.None? <==> !ExistsByUsername(username)
    {
      Find(users, (u: User) => u.username == username)
    }

    /** `userRepository.existsByUsername`. */
    predicate ExistsByUsername(username: string)
      reads this
    {
      exists u :: u in users && u.username == username
    }

    /** `userRepository.existsByEmail`. */
    predicate ExistsByEmail(email: string)
      reads this
    {
      exists u :: u in users && u.email == email
    }

    /**
     * `login`: an unknown user and a wrong password fail alike; otherwise the answer maps
     * "token", "user" and "role" to the issued token, the user and the role's name.
     */
    method Login(username: string, password: string) returns (r: Result<map<string, LoginValue>, string>)
      ensures r.Ok? <==> FindByUsername(username).Some? && matches(password, FindByUsername(username).value.password)
      ensures r.Err? ==> r.error == "Invalid username or password"
      ensures r.Ok? ==>
        var user := FindByUsername(username).value;
        && r.value.Keys == {"token", "user", "role"}
        && r.value["token"] == Text(generateToken(user.username, user.role.Name()))
        && r.value["user"] == Account(user)
        && r.value["role"] == Text(user.role.Name())
    {
      var userOpt := FindByUsername(username);
      if userOpt.None? || !matches(password, userOpt.value.password) {
        return Err("Invalid username or password");
      }
      var user := userOpt.value;
      var token := generateToken(user.username, user.role.Name());
      var response: map<string, LoginValue> := map[];
      response := response["token" := Text(token)];
      response := response["user" := Account(user)];
      response := response["role" := Text(user.role.Name())];
      return Ok(response);
    }

    /**
     * `register`: the username is checked before the email; on success one user is appended
     * with the encoded password. First and last name are accepted but not stored.
     */
    method Register(username: string, email: string, password: string, role: Role, firstName: string, lastName: string)
      returns (r: Result<User, string>)
      requires Valid()
      modifies this
      ensures Valid()
      ensures old(ExistsByUsername(username)) ==> r == Err("Username already exists")
      ensures old(!ExistsByUsername(username) && ExistsByEmail(email)) ==> r == Err("Email already exists")
      ensures r.Err? ==> users == old(users) && nextUserId == old(nextUserId)
      ensures r.Ok? <==> old(!ExistsByUsername(username) && !ExistsByEmail(email))
      ensures r.Ok? ==> r.value == User(old(nextUserId), username, email, encode(password), role)
                        && users == old(users) + [r.value]
                        && nextUserId == old(nextUserId) + 1
    {
      if ExistsByUsername(username) {
        return Err("Username already exists");
      }
      if ExistsByEmail(email) {
        return Err("Email already exists");
      }
      var user := User(nextUserId, username, email, encode(password), role);
      forall u | u in users ensures UserRowsDistinct(u, user) {
        assert u.id < user.id;
      }
      PairwiseAppend(users, user, UserRowsDistinct);
      users := users + [user];
      nextUserId := nextUserId + 1;
      return Ok(user);
    }

    /** `getCurrentUser`. */
    method GetCurrentUser(username: string) returns (r: Result<User, string>)
      ensures r.Err? <==> !ExistsByUsername(username)
      ensures r.Err? ==> r.error == "User not found"
      ensures r.Ok? ==> r.value in users && r.value.username == username
    {
      var user := FindByUsername(username);
      if user.None? {
        return Err("User not found");
      }
      return Ok(user.value);
    }

    /** With unique usernames, the lookup by username finds the one user of that name. */
    lemma FindByUsernameUnique(user: User)
      requires Valid() && user in users
      ensures FindByUsername(user.username) == Some(user)
    {
      var found := FindByUsername(user.username).value;
      var i :| 0 <= i < |users| && users[i] == found;
      var j :| 0 <= j < |users| && users[j] == user;
      assert i < j ==> UserRowsDistinct(users[i], users[j]);
      assert j < i ==> UserRowsDistinct(users[j], users[i]);
    }
  }

  /**
   * When the matcher accepts every encoded password, a user who has just registered can
   * log in with the same password and receives the stored user.
   */
  method RegisterThenLogin(service: AuthService, username: string, email: string, password: string, role: Role)
    returns (registered: Result<User, string>, loggedIn: Result<map<string, LoginValue>, string>)
    requires service.Valid()
    requires forall raw :: service.matches(raw, service.encode(raw))
    modifies service
    ensures service.Valid()
    ensures registered.Ok? <==> old(!service.ExistsByUsername(username) && !service.ExistsByEmail(email))
    ensures registered.Ok? ==> loggedIn.Ok? && "user" in loggedIn.value && loggedIn.value["user"] == Account(registered.value)
  {
    registered := service.Register(username, email, password, role, "", "");
    if registered.Ok? {
      service.FindByUsernameUnique(registered.value);
    }
    loggedIn := service.Login(username, password);
  }
}
