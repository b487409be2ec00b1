/**
 * The `users` entity. Java strings are nullable, so every string column is an
 * Option; the role is the enum value signup assigns.
 */
module Domain {
  import opened Wrappers
  import opened JavaText

  /** The Role enum; USER is the only value this model knows of. */
  datatype Role = USER

  /** Role.toString(): the constant's name. It is a usable authority name:
      SimpleGrantedAuthority needs text, and the comma join of the token's
      `auth` claim needs it free of commas. */
  function RoleName(r: Role): (s: string)
    ensures HasText(s) && ',' !in s
  {
    match r
    case USER => assert !IsWhitespace("USER"[0]); "USER"
  }

  /** The column values of one stored row of the `users` table. */
  datatype UserRecord = UserRecord(
    uid: nat,
    username: Option<string>,
    pw: Option<string>,
    email: Option<string>,
    nickname: Option<string>,
    role: Role,
    phone: Option<string>,
    token: Option<string>)

  /** A User entity object; `uid` stays null until the row exists. */
  class User {
    var uid: Option<nat>
    var username: Option<string>
    var pw: Option<string>
    var email: Option<string>
    var nickname: Option<string>
    var role: Role
    var phone: Option<string>
    var token: Option<string>

    /** The builder: every column as given. */
    constructor (uid: Option<nat>, username: Option<string>, pw: Option<string>, email: Option<string>,
                 nickname: Option<string>, role: Role, phone: Option<string>, token: Option<string>)
      ensures this.uid == uid && this.username == username && this.pw == pw && this.email == email
      ensures this.nickname == nickname && this.role == role && this.phone == phone && this.token == token
    {
      this.uid := uid;
      this.username := username;
      this.pw := pw;
      this.email := email;
      this.nickname := nickname;
      this.role := role;
      this.phone := phone;
      this.token := token;
    }

    /** The entity as loaded from a stored row. */
    constructor Load(row: UserRecord)
      ensures uid == Some(row.uid) && username == row.username && pw == row.pw && email == row.email
      ensures nickname == row.nickname && role == row.role && phone == row.phone && token == row.token
    {
      uid := Some(row.uid);
      username := row.username;
      pw := row.pw;
      email := row.email;
      nickname := row.nickname;
      role := row.role;
      phone := row.phone;
      token := row.token;
    }

    /** saveToken: stores the given token, null included, without any check,
        and touches no other column. */
    method SaveToken(token: Option<string>)
      modifies this
      ensures this.token == token
      ensures uid == old(uid) && username == old(username) && pw == old(pw) && email == old(email)
      ensures nickname == old(nickname) && role == old(role) && phone == old(phone)
    {
      this.token := token;
    }
  }

  /** Two saveToken calls in a row: the last one wins, and neither touches
      any other column. */
  method SaveTokenTwice(user: User, first: Option<string>, second: Option<string>)
    modifies user
    ensures user.token == second
    ensures user.uid == old(user.uid) && user.username == old(user.username) && user.pw == old(user.pw)
    ensures user.email == old(user.email) && user.nickname == old(user.nickname)
    ensures user.role == old(user.role) && user.phone == old(user.phone)
  {
    user.SaveToken(first);
    user.SaveToken(second);
  }
}
