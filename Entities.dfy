/**
 * The two JPA entities, `User` and `Login`: records whose fields are written
 * through setters, whose equality is decided by `username` and
 * `hashedPassword` alone, and whose hash code is `Objects.hash` of those two.
 */
module Entities {
  import opened Wrappers
  import opened JavaText

  /** `Objects.hash(username, hashedPassword)`: `Arrays.hashCode` of the two
      strings, starting from 1, in 32-bit arithmetic. */
  function CredentialsHash(username: string, hashedPassword: string): (h: int32)
    ensures h == Wrap(961 + 31 * StringHashCode(username) as int + StringHashCode(hashedPassword) as int)
  {
    var first := Wrap(31 * 1 + StringHashCode(username) as int);
    var h := Wrap(31 * first as int + StringHashCode(hashedPassword) as int);
    WrapStep(31 + StringHashCode(username) as int, StringHashCode(hashedPassword) as int);
    h
  }

  const UserClassName: string := "edu.carroll.ifa.jpa.model.User"

  /** The password slot of `User.toString`, followed by the closing bracket. */
  function MaskedTail(lineSeparator: string): string
  {
    "\thashedPassword=" + "****" + lineSeparator + "]" + lineSeparator
  }

  class User {
    var id: Option<int>
    var username: string
    var firstName: string
    var lastName: string
    var age: int
    var hashedPassword: string

    /** The five-argument constructor; the id stays unset until the store assigns one. */
    constructor (username: string, hashedPassword: string, firstName: string, lastName: string, age: int)
      ensures this.username == username && this.hashedPassword == hashedPassword
      ensures this.firstName == firstName && this.lastName == lastName && this.age == age
      ensures id == None
    {
      this.id := None;
      this.username := username;
      this.hashedPassword := hashedPassword;
      this.firstName := firstName;
      this.lastName := lastName;
      this.age := age;
    }

    method SetUsername(username: string)
      modifies this
      ensures this.username == username
      ensures id == old(id) && firstName == old(firstName) && lastName == old(lastName)
      ensures age == old(age) && hashedPassword == old(hashedPassword)
    {
      this.username := username;
    }

    method SetFirstName(firstName: string)
      modifies this
      ensures this.firstName == firstName
      ensures id == old(id) && username == old(username) && lastName == old(lastName)
      ensures age == old(age) && hashedPassword == old(hashedPassword)
    {
      this.firstName := firstName;
    }

    method SetLastName(lastName: string)
      modifies this
      ensures this.lastName == lastName
      ensures id == old(id) && username == old(username) && firstName == old(firstName)
      ensures age == old(age) && hashedPassword == old(hashedPassword)
    {
      this.lastName := lastName;
    }

    method SetAge(age: int)
      modifies this
      ensures this.age == age
      ensures id == old(id) && username == old(username) && firstName == old(firstName)
      ensures lastName == old(lastName) && hashedPassword == old(hashedPassword)
    {
      this.age := age;
    }

    method SetHashedPassword(hashedPassword: string)
      modifies this
      ensures this.hashedPassword == hashedPassword
      ensures id == old(id) && username == old(username) && firstName == old(firstName)
      ensures lastName == old(lastName) && age == old(age)
    {
      this.hashedPassword := hashedPassword;
    }

    /** `equals(Object)`: the same object, or another `User` with the same
        username and hashed password, compared case-sensitively. */
    predicate Equals(o: object?)
      reads this, o
    {
      this == o || (o is User && username == (o as User).username && hashedPassword == (o as User).hashedPassword)
    }

    function HashCode(): int32
      reads this
    {
      CredentialsHash(username, hashedPassword)
    }

    /** `toString()`: `Object.toString` (class name and hex hash code) behind a
        "Login @ " label, then the username, then the password slot masked. */
    function ToString(lineSeparator: string): (s: string)
      reads this
      ensures |s| >= |MaskedTail(lineSeparator)|
      ensures s[|s| - |MaskedTail(lineSeparator)|..] == MaskedTail(lineSeparator)
    {
      var s := "Login @ " + UserClassName + "@" + HexString(HashCode()) + "[" + lineSeparator
        + "\t" + "username=" + username + lineSeparator
        + MaskedTail(lineSeparator);
      assert s == (s[..|s| - |MaskedTail(lineSeparator)|]) + MaskedTail(lineSeparator);
      s
    }
  }

  /** `User.equals` decides equality by username and hashed password only. */
  lemma UserEqualsIffSameCredentials(u: User, v: User)
    ensures u.Equals(v) <==> u.username == v.username && u.hashedPassword == v.hashedPassword
  {
  }

  lemma UserEqualsReflexiveSymmetric(u: User, v: User)
    ensures u.Equals(u)
    ensures u.Equals(v) <==> v.Equals(u)
  {
  }

  /** Equal users have equal hash codes. */
  lemma UserHashCodeAgreesWithEquals(u: User, v: User)
    requires u.Equals(v)
    ensures u.HashCode() == v.HashCode()
  {
  }

  /** A `User` is never equal to `null` or to an object of another class. */
  lemma UserNeverEqualsOther(u: User, o: object?)
    requires !(o is User)
    ensures !u.Equals(o)
  {
  }

  /** `toString` reveals the hashed password only through the hash code in
      its `Object.toString` part: two users with the same username and hash
      code print identically. */
  lemma ToStringHidesPassword(u: User, v: User, lineSeparator: string)
    requires u.username == v.username && u.HashCode() == v.HashCode()
    ensures u.ToString(lineSeparator) == v.ToString(lineSeparator)
  {
  }

  class Login {
    var id: Option<int>
    var username: string
    var firstName: string
    var lastName: string
    var age: int
    var hashedPassword: string

    /** The implicit no-argument constructor; every field starts empty and the id unset. */
    constructor ()
      ensures id == None && username == "" && hashedPassword == ""
      ensures firstName == "" && lastName == "" && age == 0
    {
      id := None;
      username := "";
      firstName := "";
      lastName := "";
      age := 0;
      hashedPassword := "";
    }

    method SetId(id: Option<int>)
      modifies this
      ensures this.id == id
      ensures username == old(username) && firstName == old(firstName) && lastName == old(lastName)
      ensures age == old(age) && hashedPassword == old(hashedPassword)
    {
      this.id := id;
    }

    method SetUsername(username: string)
      modifies this
      ensures this.username == username
      ensures id == old(id) && firstName == old(firstName) && lastName == old(lastName)
      ensures age == old(age) && hashedPassword == old(hashedPassword)
    {
      this.username := username;
    }

    method SetFirstName(firstName: string)
      modifies this
      ensures this.firstName == firstName
      ensures id == old(id) && username == old(username) && lastName == old(lastName)
      ensures age == old(age) && hashedPassword == old(hashedPassword)
    {
      this.firstName := firstName;
    }

    method SetLastName(lastName: string)
      modifies this
      ensures this.lastName == lastName
      ensures id == old(id) && username == old(username) && firstName == old(firstName)
      ensures age == old(age) && hashedPassword == old(hashedPassword)
    {
      this.lastName := lastName;
    }

    method SetAge(age: int)
      modifies this
      ensures this.age == age
      ensures id == old(id) && username == old(username) && firstName == old(firstName)
      ensures lastName == old(lastName) && hashedPassword == old(hashedPassword)
    {
      this.age := age;
    }

    method SetHashedPassword(hashedPassword: string)
      modifies this
      ensures this.hashedPassword == hashedPassword
      ensures id == old(id) && username == old(username) && firstName == old(firstName)
      ensures lastName == old(lastName) && age == old(age)
    {
      this.hashedPassword := hashedPassword;
    }

    /** `equals(Object)`, as for `User`. */
    predicate Equals(o: object?)
      reads this, o
    {
      this == o || (o is Login && username == (o as Login).username && hashedPassword == (o as Login).hashedPassword)
    }

    function HashCode(): int32
      reads this
    {
      CredentialsHash(username, hashedPassword)
    }
  }

  lemma LoginEqualsIffSameCredentials(l: Login, m: Login)
    ensures l.Equals(m) <==> l.username == m.username && l.hashedPassword == m.hashedPassword
  {
  }

  lemma LoginHashCodeAgreesWithEquals(l: Login, m: Login)
    requires l.Equals(m)
    ensures l.HashCode() == m.HashCode()
  {
  }

  lemma LoginEqualsReflexiveSymmetric(l: Login, m: Login)
    ensures l.Equals(l)
    ensures l.Equals(m) <==> m.Equals(l)
  {
  }
}
