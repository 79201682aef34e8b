/**
 * The password encoder the account service holds: bcrypt behind Spring's
 * `PasswordEncoder` interface, reduced to its observable contract.
 *
 * An encoded password is self-describing: a setting (the version and cost
 * prefix followed by the salt) and then the digest of the raw password under
 * that setting. Encoding draws a fresh random salt, so the salt is an explicit
 * argument here; checking a raw password re-runs the digest with the setting
 * read back from the stored value. The digest itself is a foreign primitive
 * and is a parameter of the encoder.
 */
module PasswordEncoding {

  /** Version `2a` and cost 10, the defaults of a no-argument `BCryptPasswordEncoder`. */
  const VersionAndCost: string := "$2a$10$"
  const SaltLength: nat := 22
  const SettingLength: nat := |VersionAndCost| + SaltLength

  type Salt = s: string | |s| == SaltLength
    witness "......................"

  /** True when equal digests under one setting imply equal raw passwords. */
  ghost predicate CollisionFree(digest: (string, string) -> string)
  {
    forall setting, a, b :: digest(setting, a) == digest(setting, b) ==> a == b
  }

  datatype PasswordEncoder = PasswordEncoder(digest: (string, string) -> string)
  {
    /** `encode(raw)` with the salt the encoder drew. */
    function Encode(salt: Salt, raw: string): (encoded: string)
      ensures Matches(raw, encoded)
      ensures |encoded| >= SettingLength
      ensures encoded[..SettingLength] == VersionAndCost + salt
    {
      var setting := VersionAndCost + salt;
      var encoded := setting + digest(setting, raw);
      assert encoded[..SettingLength] == setting;
      encoded
    }

    /** `matches(raw, encoded)`: the digest of `raw` under the setting stored in
        `encoded` is the rest of `encoded`. A value too short to hold a setting
        never matches. */
    predicate Matches(raw: string, encoded: string)
    {
      |encoded| >= SettingLength &&
      encoded[SettingLength..] == digest(encoded[..SettingLength], raw)
    }
  }

  /** With a collision-free digest, an encoded password matches only the raw
      password it was made from, whatever salt was drawn. */
  lemma OnlyTheEncodedPasswordMatches(e: PasswordEncoder, salt: Salt, raw: string, other: string)
    requires CollisionFree(e.digest)
    requires e.Matches(other, e.Encode(salt, raw))
    ensures other == raw
  {
    var setting := VersionAndCost + salt;
    var encoded := e.Encode(salt, raw);
    assert encoded == setting + e.digest(setting, raw);
    assert encoded[SettingLength..] == e.digest(setting, raw);
  }

  /** Two encodings of one password under different salts differ, yet both match it. */
  lemma SaltsMakeEncodingsDiffer(e: PasswordEncoder, s1: Salt, s2: Salt, raw: string)
    requires s1 != s2
    ensures e.Encode(s1, raw) != e.Encode(s2, raw)
    ensures e.Matches(raw, e.Encode(s1, raw)) && e.Matches(raw, e.Encode(s2, raw))
  {
    var a, b := e.Encode(s1, raw), e.Encode(s2, raw);
    assert a[..SettingLength][|VersionAndCost|..] == s1;
    assert b[..SettingLength][|VersionAndCost|..] == s2;
  }
}
