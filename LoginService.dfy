/**
 * The legacy login check (`LoginServiceImpl.validateUser(LoginForm)`): the
 * same exactly-one case-insensitive lookup, after which the stored hash is
 * compared with the decimal text of `String.hashCode` of the submitted
 * password. It reads the repository and changes nothing.
 */
module LoginService {
  import opened JavaText
  import opened PasswordEncoding
  import opened Entities
  import opened Repository

  /** `Integer.toString(password.hashCode())`. */
  function LegacyHash(password: string): string
  {
    DecimalString(StringHashCode(password) as int)
  }

  /** `validateUser` for a login form holding `username` and `password`. */
  function ValidateLogin(users: seq<User>, username: string, password: string): (ok: bool)
    reads users
    ensures ok ==> |FindByUsernameIgnoreCase(users, username)| == 1
    ensures ok ==> exists u | u in users ::
      EqualsIgnoreCase(u.username, username) && u.hashedPassword == LegacyHash(password)
  {
    var found := FindByUsernameIgnoreCase(users, username);
    FoundAreStored(users, username);
    |found| == 1 && found[0].hashedPassword == LegacyHash(password)
  }

  /** With the single matching user holding the decimal text of `h`, a
      password is accepted exactly when its hash code is `h`. */
  lemma AcceptsExactlyTheHashCode(users: seq<User>, username: string, u: User, h: int32, password: string)
    requires FindByUsernameIgnoreCase(users, username) == [u]
    requires u.hashedPassword == DecimalString(h as int)
    ensures ValidateLogin(users, username, password) <==> StringHashCode(password) == h
  {
    if ValidateLogin(users, username, password) {
      DecimalStringInjective(StringHashCode(password) as int, h as int);
    }
  }

  /** Zero or several matches reject every password. */
  lemma RejectsUnlessExactlyOne(users: seq<User>, username: string, password: string)
    requires |FindByUsernameIgnoreCase(users, username)| != 1
    ensures !ValidateLogin(users, username, password)
  {
  }

  /** When usernames are unique the check accepts exactly when some user with
      that name holds the password's legacy hash. */
  lemma UniqueNamesLogin(users: seq<User>, username: string, password: string)
    requires UniqueUsernames(users)
    ensures ValidateLogin(users, username, password) <==>
      exists u | u in users :: EqualsIgnoreCase(u.username, username) && u.hashedPassword == LegacyHash(password)
  {
    UniqueLookup(users, username);
  }

  /** Passwords with equal hash codes are accepted or rejected together. */
  lemma EqualHashCodesAreInterchangeable(users: seq<User>, username: string, p1: string, p2: string)
    requires StringHashCode(p1) == StringHashCode(p2)
    ensures ValidateLogin(users, username, p1) == ValidateLogin(users, username, p2)
  {
  }

  /** The hash code of a two-character string of the basic multilingual plane. */
  lemma HashCodeOfPair(c1: char, c2: char)
    requires c1 as int < SupplementaryBase && c2 as int < SupplementaryBase
    ensures StringHashCode([c1, c2]) as int == 31 * c1 as int + c2 as int
  {
    assert Utf16([c1]) == [c1 as int] by { assert [c1][..0] == []; }
    assert Utf16([c1, c2]) == [c1 as int, c2 as int] by { assert [c1, c2][..1] == [c1]; }
    var u := [c1 as int, c2 as int];
    assert HashUnits(u[..1]) == c1 as int32 by {
      assert u[..1][..0] == [];
      WrapInRange(c1 as int);
    }
    WrapInRange(31 * c1 as int + c2 as int);
  }

  /** "Aa" and "BB" share the hash code 2112, so an account whose password
      is one of them also accepts the other. */
  lemma CollidingPasswords()
    ensures StringHashCode("Aa") == 2112 && StringHashCode("BB") == 2112
    ensures LegacyHash("Aa") == LegacyHash("BB")
  {
    HashCodeOfPair('A', 'a');
    HashCodeOfPair('B', 'B');
  }

  /** A user whose stored hash is a password encoding, as registration writes
      it, is refused whatever password is submitted: an encoding begins with
      '$', the decimal text of a hash code with '-' or a digit. */
  lemma RegisteredUserCannotLogIn(users: seq<User>, u: User, e: PasswordEncoder, salt: Salt, raw: string, password: string)
    requires FindByUsernameIgnoreCase(users, u.username) == [u]
    requires u.hashedPassword == e.Encode(salt, raw)
    ensures !ValidateLogin(users, u.username, password)
  {
    var encoded := e.Encode(salt, raw);
    assert encoded[0] == '$' by {
      assert encoded[..SettingLength][0] == (VersionAndCost + salt)[0];
    }
    var legacy := LegacyHash(password);
    assert legacy[0] == '-' || '0' <= legacy[0] <= '9';
  }
}
