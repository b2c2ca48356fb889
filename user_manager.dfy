/**
 * The credential table (src/userManager.js). The PBKDF2 hash is the
 * deterministic function `hashPassword` of password and salt, and the salt
 * `addUser` draws at random is a parameter.
 */
module UserAccounts {

  /** `{ hash, salt }` as stored per user. */
  datatype Credential = Credential(hash: string, salt: string)

  class UserManager {
    /** `hashPassword(password, salt)`. */
    const hashPassword: (string, string) -> string
    var users: map<string, Credential>

    /** `new UserManager()`: a table holding only `admin` with password `admin123`, salted with `salt`. */
    constructor(hashPassword: (string, string) -> string, salt: string)
      ensures this.hashPassword == hashPassword
      ensures users == map["admin" := Credential(hashPassword("admin123", salt), salt)]
      ensures users.Keys == {"admin"} && ValidateUser("admin", "admin123")
    {
      this.hashPassword := hashPassword;
      users := map[];
      new;
      AddUser("admin", "admin123", salt);
    }

    /**
     * `addUser(username, password)`: stores the salted hash under the user,
     * replacing any previous entry; afterwards the password validates and
     * its hash is a valid session for the user.
     */
    method AddUser(username: string, password: string, salt: string)
      modifies this
      ensures users == old(users)[username := Credential(hashPassword(password, salt), salt)]
      ensures forall u :: u != username ==> (u in users <==> u in old(users)) && (u in users ==> users[u] == old(users)[u])
      ensures ValidateUser(username, password) && ValidateSession(username, hashPassword(password, salt))
      ensures forall h :: ValidateSession(username, h) <==> h == hashPassword(password, salt)
      ensures forall p :: ValidateUser(username, p) <==> hashPassword(p, salt) == hashPassword(password, salt)
    {
      var hash := hashPassword(password, salt);
      users := users[username := Credential(hash, salt)];
    }

    /** `validateUser(username, password)`: the password, hashed with the user's salt, gives the stored hash. */
    function ValidateUser(username: string, password: string): (ok: bool)
      reads this
      ensures username !in users ==> !ok
      ensures ok <==> username in users && ValidateSession(username, hashPassword(password, users[username].salt))
    {
      if username !in users then false
      else
        var user := users[username];
        hashPassword(password, user.salt) == user.hash
    }

    /** `validateSession(username, hash)`: truthy exactly when the user exists with that stored hash. */
    function ValidateSession(username: string, hash: string): (ok: bool)
      reads this
      ensures ok ==> username in users && users[username].hash == hash
      ensures username in users && users[username].hash == hash ==> ok
    {
      username in users && users[username].hash == hash
    }
  }
}
