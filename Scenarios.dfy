/**
 * Client code of the account service, checked against its contracts alone:
 * the registration, login, duplicate and deletion flows the service's tests
 * walk through, and the lock-out a profile update can cause.
 */
module Scenarios {
  import opened JavaText
  import opened PasswordEncoding
  import opened Entities
  import opened Repository
  import opened UserService
  import opened LoginService

  /** The letter-case variants the scenarios use. */
  lemma NameVariants()
    ensures EqualsIgnoreCase("BOB_Johnson", "bob_johnson")
    ensures EqualsIgnoreCase("Bob_Johnson", "bob_johnson")
    ensures !EqualsIgnoreCase("nonExistingUser", "bob_johnson")
    ensures EqualsIgnoreCase("ALICE_A", "alice_a")
  {
  }

  /** A registered user passes the service's password check with the raw
      password, under any letter case of the name. */
  method RegisterThenValidate(encoder: PasswordEncoder, salt: Salt)
  {
    var service := new UserServiceImpl([], encoder);
    var bob := new User("bob_johnson", "1234567!", "Bob", "Johnson", 17);
    var saved := service.SaveUser(bob, salt);
    assert saved;
    assert bob.hashedPassword == encoder.Encode(salt, "1234567!");
    NameVariants();
    var ok := service.ValidateUser("BOB_Johnson", "1234567!");
    assert ok;
    var age := service.GetUserAge("bob_johnson");
    assert age == 17;
  }

  /** With a collision-free digest, a registered user fails the service's
      password check with any other password. */
  method WrongPasswordRefused(encoder: PasswordEncoder, salt: Salt)
    requires CollisionFree(encoder.digest)
  {
    var service := new UserServiceImpl([], encoder);
    var bob := new User("bob_johnson", "1234567!", "Bob", "Johnson", 17);
    var saved := service.SaveUser(bob, salt);
    service.OnlyTheRegisteredPasswordAuthenticates(bob, salt, "1234567!", "7654321!");
    var ok := service.ValidateUser("bob_johnson", "7654321!");
    assert !ok;
  }

  /** The login page's check refuses the account registration just stored,
      while the service's own password check accepts it. */
  method RegisteredUserRefusedAtLogin(encoder: PasswordEncoder, salt: Salt)
  {
    var service := new UserServiceImpl([], encoder);
    var bob := new User("bob_johnson", "1234567!", "Bob", "Johnson", 17);
    var saved := service.SaveUser(bob, salt);
    var accepted := service.ValidateUser("bob_johnson", "1234567!");
    assert accepted;
    RegisteredUserCannotLogIn(service.store, bob, encoder, salt, "1234567!", "1234567!");
    assert !ValidateLogin(service.store, "bob_johnson", "1234567!");
  }

  /** A second registration of the same name, in other letter case, is refused. */
  method DuplicateRefused(encoder: PasswordEncoder, salt: Salt)
  {
    var bob := new User("bob_johnson", "1234567!", "Bob", "Johnson", 17);
    var service := new UserServiceImpl([bob], encoder);
    var again := new User("Bob_Johnson", "other password", "Robert", "Johnson", 40);
    NameVariants();
    var saved := service.SaveUser(again, salt);
    assert !saved;
    assert again.hashedPassword == "other password" && service.store == [bob];
  }

  /** Deleting an unknown name fails; deleting a known one succeeds and the
      name is then unknown. */
  method DeleteFlow(encoder: PasswordEncoder)
  {
    var bob := new User("bob_johnson", "hash", "Bob", "Johnson", 17);
    var service := new UserServiceImpl([bob], encoder);
    NameVariants();
    var deleted := service.DeleteUser("nonExistingUser");
    assert !deleted;
    deleted := service.DeleteUser("bob_johnson");
    assert deleted;
    var gone := service.GetUserByUserName("bob_johnson");
    assert gone == null;
  }

  /** Renaming one account to another's name in other letter case succeeds in
      the model, which leaves out the database's unique column, but the
      renamed account cannot log in with its new password. */
  method RenameLocksOut(encoder: PasswordEncoder, salt: Salt)
  {
    var alice := new User("alice_a", "hash-a", "Alice", "A", 30);
    var bob := new User("bob_b", "hash-b", "Bob", "B", 31);
    var service := new UserServiceImpl([alice, bob], encoder);
    var update := new User("ALICE_A", "password-c", "Bob", "B", 31);
    assert Distinct(service.store);
    var ok := service.SaveUpdatedUser(bob, update, salt);
    assert service.store == [alice, bob];
    assert !service.Authenticates("ALICE_A", "password-c") by {
      NameVariants();
      assert alice in service.store && alice != bob;
    }
    ok := service.ValidateUser("ALICE_A", "password-c");
    assert !ok;
  }
}
