/**
 * The account service (`UserServiceImpl`, with the contract its interface
 * `UserService` documents): registration, password check, profile update,
 * deletion and two look-ups over the user repository.
 *
 * Every operation except the profile update starts with the
 * case-insensitive repository lookup and then applies its own policy to the
 * result: the password check, deletion and the fetch by username demand
 * exactly one match, registration demands none, and the age query takes the
 * first of any matches.
 */
module UserService {
  import opened Wrappers
  import opened JavaText
  import opened PasswordEncoding
  import opened Entities
  import opened Repository

  class UserServiceImpl {
    /** The entities the repository holds, in its order. */
    var store: seq<User>
    const encoder: PasswordEncoder

    constructor (users: seq<User>, encoder: PasswordEncoder)
      ensures store == users && this.encoder == encoder
    {
      store := users;
      this.encoder := encoder;
    }

    function Lookup(name: string): seq<User>
      reads this`store, store`username
    {
      FindByUsernameIgnoreCase(store, name)
    }

    /** Some stored username equals `name` ignoring case. */
    ghost predicate HasUser(name: string)
      reads this`store, store`username
    {
      exists u | u in store :: EqualsIgnoreCase(u.username, name)
    }

    /** Some stored user with that name has a hashed password `raw` matches. */
    ghost predicate MatchesOnRecord(name: string, raw: string)
      reads this, store
    {
      exists u | u in store :: EqualsIgnoreCase(u.username, name) && encoder.Matches(raw, u.hashedPassword)
    }

    /** What `validateUser(name, raw)` answers in the current state. */
    predicate Authenticates(name: string, raw: string)
      reads this, store
    {
      var found := Lookup(name);
      FoundAreStored(store, name);
      |found| == 1 && encoder.Matches(raw, found[0].hashedPassword)
    }

    /** `validateUser`: true when exactly one user matches the name and the raw
        password matches that user's hash; zero or several matches give false.
        When usernames are unique this is the interface's promise: the user
        exists and the password matches what is on record. */
    method ValidateUser(username: string, password: string) returns (ok: bool)
      ensures ok <==> Authenticates(username, password)
      ensures ok ==> MatchesOnRecord(username, password)
      ensures |Lookup(username)| != 1 ==> !ok
      ensures UniqueUsernames(store) ==> (ok <==> MatchesOnRecord(username, password))
    {
      var users := Lookup(username);
      FindNone(store, username);
      if UniqueUsernames(store) {
        UniqueLookup(store, username);
      }
      if |users| != 1 {
        return false;
      }
      var u := users[0];
      if !encoder.Matches(password, u.hashedPassword) {
        return false;
      }
      return true;
    }

    /** `saveUser(User)`: refuses, changing nothing, when the username is
        taken ignoring case; otherwise replaces the raw password held in the
        argument by its encoding and stores the argument. */
    method SaveUser(user: User, salt: Salt) returns (ok: bool)
      modifies this`store, user`hashedPassword
      ensures ok <==> !old(HasUser(user.username))
      ensures !ok ==> store == old(store) && unchanged(user)
      ensures ok ==> store == old(store) + [user]
      ensures ok ==> user.hashedPassword == encoder.Encode(salt, old(user.hashedPassword))
      ensures user.id == old(user.id) && user.username == old(user.username)
      ensures user.firstName == old(user.firstName) && user.lastName == old(user.lastName)
      ensures user.age == old(user.age)
      ensures ok ==> Lookup(user.username) == [user]
      ensures ok ==> Authenticates(user.username, old(user.hashedPassword))
      ensures old(Distinct(store)) ==> Distinct(store)
      ensures old(UniqueUsernames(store)) ==> UniqueUsernames(store)
    {
      var existing := Lookup(user.username);
      EmptyLookupMeansNoHolder(user.username);
      if existing != [] {
        return false;
      }
      ghost var raw := user.hashedPassword;
      EncodeAndAppend(user, salt);
      assert encoder.Matches(raw, user.hashedPassword);
      ok := true;
    }

    /** The accepting branch of `saveUser(User)`: encodes the password the
        argument holds and appends the argument to the repository. */
    method EncodeAndAppend(user: User, salt: Salt)
      requires Lookup(user.username) == []
      modifies this`store, user`hashedPassword
      ensures store == old(store) + [user]
      ensures user.hashedPassword == encoder.Encode(salt, old(user.hashedPassword))
      ensures Lookup(user.username) == [user]
      ensures old(Distinct(store)) ==> Distinct(store)
      ensures old(UniqueUsernames(store)) ==> UniqueUsernames(store)
    {
      AppendUnmatched(store, user);
      store := store + [user];
      user.hashedPassword := encoder.Encode(salt, user.hashedPassword);
    }

    /** `saveUser(User, User)`: copies the names, age and username of
        `updatedUser` into `user`, stores the encoding of the password
        `updatedUser` holds, and stores `user` (a no-op on the sequence when it
        is already stored). It always succeeds and checks no uniqueness: the
        new credentials authenticate exactly when no other stored user has
        the new username. */
    method SaveUpdatedUser(user: User, updatedUser: User, salt: Salt) returns (ok: bool)
      modifies this, user
      ensures ok
      ensures user.firstName == old(updatedUser.firstName) && user.lastName == old(updatedUser.lastName)
      ensures user.age == old(updatedUser.age) && user.username == old(updatedUser.username)
      ensures user.hashedPassword == encoder.Encode(salt, old(updatedUser.hashedPassword))
      ensures user.id == old(user.id)
      ensures store == if old(user in store) then old(store) else old(store) + [user]
      ensures old(Distinct(store)) ==> Distinct(store)
      ensures old(Distinct(store)) ==>
        (Authenticates(user.username, old(updatedUser.hashedPassword)) <==>
         forall v | v in store && v != user :: !EqualsIgnoreCase(v.username, user.username))
    {
      ghost var raw := updatedUser.hashedPassword;
      user.SetFirstName(updatedUser.firstName);
      user.SetLastName(updatedUser.lastName);
      user.SetHashedPassword(encoder.Encode(salt, updatedUser.hashedPassword));
      user.SetAge(updatedUser.age);
      user.SetUsername(updatedUser.username);
      ghost var before := store;
      if user !in store {
        store := store + [user];
      }
      if Distinct(before) {
        SoleHolderAuthenticates(user, raw, salt);
      }
      ok := true;
    }

    /** The lookup finds nobody exactly when no stored username equals the
        name ignoring case. */
    lemma EmptyLookupMeansNoHolder(name: string)
      ensures Lookup(name) == [] <==> !HasUser(name)
    {
      FindNone(store, name);
      FoundAreStored(store, name);
      if Lookup(name) != [] {
        assert Lookup(name)[0] in store;
      }
    }

    /** Under unique names, the lookup finds exactly one user exactly when a
        stored username equals the name ignoring case. */
    lemma UniqueLookupFindsHolder(name: string)
      requires UniqueUsernames(store)
      ensures |Lookup(name)| == 1 <==> HasUser(name)
    {
      UniqueLookup(store, name);
    }

    /** A stored user whose hash encodes `raw` authenticates with `raw` exactly
        when no other stored user has its username. */
    lemma SoleHolderAuthenticates(user: User, raw: string, salt: Salt)
      requires Distinct(store) && user in store
      requires user.hashedPassword == encoder.Encode(salt, raw)
      ensures Authenticates(user.username, raw) <==>
        forall v | v in store && v != user :: !EqualsIgnoreCase(v.username, user.username)
    {
      FindOnly(store, user, user.username);
      assert Authenticates(user.username, raw) <==> Lookup(user.username) == [user];
    }

    /** With a collision-free digest, the sole holder of a name whose hash
        encodes `raw` authenticates with `raw` and with no other password. */
    lemma OnlyTheRegisteredPasswordAuthenticates(user: User, salt: Salt, raw: string, other: string)
      requires CollisionFree(encoder.digest)
      requires Lookup(user.username) == [user]
      requires user.hashedPassword == encoder.Encode(salt, raw)
      ensures Authenticates(user.username, other) <==> other == raw
    {
      if Authenticates(user.username, other) {
        OnlyTheEncodedPasswordMatches(encoder, salt, raw, other);
      }
    }

    /** `deleteUser`: removes the one user the lookup finds; with zero or
        several matches it refuses and changes nothing. */
    method DeleteUser(username: string) returns (ok: bool)
      modifies this
      ensures ok <==> |old(Lookup(username))| == 1
      ensures old(UniqueUsernames(store)) ==> (ok <==> old(HasUser(username)))
      ensures !ok ==> store == old(store)
      ensures ok ==> store == Without(old(store), old(Lookup(username))[0])
      ensures ok ==> |store| == |old(store)| - 1 && Lookup(username) == []
      ensures old(Distinct(store)) ==> Distinct(store)
      ensures old(UniqueUsernames(store)) ==> UniqueUsernames(store)
    {
      var users := Lookup(username);
      if UniqueUsernames(store) {
        UniqueLookupFindsHolder(username);
      }
      if |users| != 1 {
        return false;
      }
      Remove(users[0], username);
      ok := true;
    }

    /** The accepting branch of `deleteUser`: takes out the one user the
        lookup found. */
    method Remove(gone: User, username: string)
      requires Lookup(username) == [gone]
      modifies this
      ensures store == Without(old(store), gone)
      ensures |store| == |old(store)| - 1 && Lookup(username) == []
      ensures old(Distinct(store)) ==> Distinct(store)
      ensures old(UniqueUsernames(store)) ==> UniqueUsernames(store)
    {
      DeleteSingleMatch(store, username, gone);
      WithoutPreserves(store, gone);
      store := Without(store, gone);
    }

    /** `getUserAge`: the age of the first user the lookup finds, -1 when it
        finds none. */
    method GetUserAge(username: string) returns (age: int)
      ensures Lookup(username) == [] ==> age == -1
      ensures Lookup(username) != [] ==> age == Lookup(username)[0].age
      ensures !HasUser(username) ==> age == -1
      ensures UniqueUsernames(store) ==>
        forall u | u in store && EqualsIgnoreCase(u.username, username) :: age == u.age
    {
      var users := Lookup(username);
      FindNone(store, username);
      if UniqueUsernames(store) {
        UniqueLookup(store, username);
      }
      if users != [] {
        return users[0].age;
      }
      return -1;
    }

    /** `getUserByUserName`: the user when the lookup finds exactly one, else null. */
    method GetUserByUserName(username: string) returns (user: User?)
      ensures user != null <==> |Lookup(username)| == 1
      ensures user != null ==> user in store && EqualsIgnoreCase(user.username, username)
      ensures UniqueUsernames(store) ==> (user != null <==> HasUser(username))
    {
      var users := Lookup(username);
      if UniqueUsernames(store) {
        UniqueLookupFindsHolder(username);
      }
      if |users| != 1 {
        return null;
      }
      FoundAreStored(store, username);
      return users[0];
    }
  }
}
