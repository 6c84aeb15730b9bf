/**
 * The add-then-update script (3-update_user.py), written as a method
 * against the store model. Each record the script prints is reported here as the store holds
 * it after the step: the record read back by id.
 */
module UpdateUserScript {
  import opened UserDb

  function IdIs(id: int): seq<Pair> {
    [Pair("id", Int(id))]
  }

  /** Two records are added to a fresh store. Updating the first one's
      `hashed_password` succeeds and changes only that column; updating the
      second one with the unknown key `hashed_pword` raises `ValueError` and
      leaves it as it was. */
  method UpdateUserScenario()
    returns (user: User, firstUpdate: Result, userAfter: Result,
             nextUser: User, secondUpdate: Result, nextAfter: Result)
    ensures user.email == "test@test.com" && user.hashedPassword == "hashedPwd"
    ensures firstUpdate.Ok?
    ensures userAfter == Ok(user.(hashedPassword := "NewPwd"))
    ensures nextUser.email == "jneric49@mail.com" && nextUser.hashedPassword == "jon"
    ensures nextUser.id != user.id
    ensures secondUpdate == BadAttribute
    ensures nextAfter == Ok(nextUser)
  {
    var db := new DB();
    user := db.AddUser("test@test.com", "hashedPwd");
    var change := Pair("hashed_password", Str("NewPwd"));
    assert db.users[0] == user && Fits(change);
    UpdateOneColumn(db.users, user.id, change);
    firstUpdate := db.UpdateUser(user.id, [change]);
    assert db.users == [user.(hashedPassword := "NewPwd")];
    FindById(db.users, 0);
    userAfter := db.FindUserBy(IdIs(user.id));

    nextUser := db.AddUser("jneric49@mail.com", "jon");
    secondUpdate := db.UpdateUser(nextUser.id, [Pair("hashed_pword", Str("NewPwd"))]);
    assert !Known("hashed_pword");
    assert db.users[1] == nextUser;
    FindById(db.users, 1);
    nextAfter := db.FindUserBy(IdIs(nextUser.id));
  }
}
