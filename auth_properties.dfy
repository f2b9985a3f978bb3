/**
 * Properties relating several registrations and logins on the `users`
 * table, stated over the specification functions of module Auth.
 */
module AuthProperties {
  import opened Wrappers
  import opened Schemas
  import opened Models
  import opened Auth

  /**
   * A registered user can log in with the password they chose, under an
   * identifier of their own that no earlier row's username or email equals;
   * the response carries the new row's public fields and the constant token.
   */
  lemma {:induction false} LoginAfterRegistration(rows: seq<User>, nextId: int, req: UserCreate,
                                                  now: Timestamp, identifier: string)
    requires TableValid(rows, nextId)
    requires Rejection(rows, nextId, req, now).None?
    requires identifier == req.username || identifier == req.email
    requires forall i :: 0 <= i < |rows| ==> !Identifies(rows[i], identifier)
    ensures Login(rows + [Candidate(nextId, req, now)], UserLogin(identifier, req.password))
            == Ok(LoginResponse(AccessToken, TokenType, PublicUser(nextId, req.email, req.username, req.fullName)))
  {
    var rows' := rows + [Candidate(nextId, req, now)];
    assert rows'[|rows|] == Candidate(nextId, req, now);
    forall j | 0 <= j < |rows| ensures !Identifies(rows'[j], identifier) {
      assert rows'[j] == rows[j];
    }
    assert FirstIdentified(rows', identifier, |rows|);
  }

  /**
   * Once registration has inserted a row, any later valid request with the
   * same email or the same username is refused as a duplicate, whatever
   * its passwords.
   */
  lemma {:induction false} RegisteringAgainConflicts(rows: seq<User>, nextId: int, req: UserCreate,
                                                     now: Timestamp, again: UserCreate, later: Timestamp)
    requires TableValid(rows, nextId)
    requires Rejection(rows, nextId, req, now).None?
    requires UserCreateValid(again)
    requires again.email == req.email || again.username == req.username
    ensures Rejection(rows + [Candidate(nextId, req, now)], nextId + 1, again, later) == Some(DuplicateAccount)
  {
    var rows' := rows + [Candidate(nextId, req, now)];
    assert Conflicts(rows'[|rows|], again.email, again.username);
  }

  /**
   * In a valid table two different rows can both be picked out by one
   * identifier only crosswise: one by its username, the other by its email.
   */
  lemma TwoMatchesAreCrossed(rows: seq<User>, nextId: int, identifier: string, i: int, j: int)
    requires TableValid(rows, nextId)
    requires 0 <= i < j < |rows|
    requires Identifies(rows[i], identifier) && Identifies(rows[j], identifier)
    ensures || (rows[i].username == identifier && rows[j].email == identifier)
            || (rows[i].email == identifier && rows[j].username == identifier)
  {
  }

  /** So no identifier picks out three rows of a valid table. */
  lemma AtMostTwoMatches(rows: seq<User>, nextId: int, identifier: string, i: int, j: int, k: int)
    requires TableValid(rows, nextId)
    requires 0 <= i < j < k < |rows|
    requires Identifies(rows[i], identifier) && Identifies(rows[j], identifier)
    ensures !Identifies(rows[k], identifier)
  {
    TwoMatchesAreCrossed(rows, nextId, identifier, i, j);
    if Identifies(rows[k], identifier) {
      TwoMatchesAreCrossed(rows, nextId, identifier, j, k);
    }
  }

  /**
   * Once an identifier picks out a row, rows inserted later never change
   * what a login with that identifier returns.
   */
  lemma {:induction false} LoginUnaffectedByLaterRows(rows: seq<User>, extra: seq<User>, req: UserLogin, k: int)
    requires FirstIdentified(rows, req.identifier, k)
    ensures Login(rows + extra, req) == Login(rows, req)
  {
    var all := rows + extra;
    forall j | 0 <= j <= k ensures all[j] == rows[j] { }
    assert FirstIdentified(all, req.identifier, k);
    if rows[k].hashedPassword != req.password {
      assert Login(all, req).Err? && Login(rows, req).Err?;
    }
  }

  /**
   * The duplicate check compares email with email and username with
   * username only, so a newcomer whose email is an earlier user's username
   * is admitted. A login with that email then acts exactly as a login on the
   * table before the newcomer was added: it either fails or logs in as the
   * earlier user, whose row the identifier picks out first.
   */
  lemma {:induction false} EmailLoginReachesEarlierRow(rows: seq<User>, nextId: int, req: UserCreate,
                                                       now: Timestamp, i: int, password: string)
    requires TableValid(rows, nextId)
    requires Rejection(rows, nextId, req, now).None?
    requires 0 <= i < |rows| && rows[i].username == req.email
    ensures Login(rows + [Candidate(nextId, req, now)], UserLogin(req.email, password))
            == Login(rows, UserLogin(req.email, password))
  {
    var p := (u: User) => Identifies(u, req.email);
    assert p(rows[i]);
    var k := Query.First(rows, p).value;
    LoginUnaffectedByLaterRows(rows, [Candidate(nextId, req, now)], UserLogin(req.email, password), k);
  }

  /**
   * With distinct passwords the shadowed newcomer cannot log in by email
   * with their own password: the earlier row whose username is that email is
   * the first match, and its password differs.
   */
  lemma {:induction false} EmailLoginFailsWithOwnPassword(rows: seq<User>, nextId: int, req: UserCreate,
                                                          now: Timestamp, i: int)
    requires TableValid(rows, nextId)
    requires Rejection(rows, nextId, req, now).None?
    requires 0 <= i < |rows| && rows[i].username == req.email
    requires rows[i].hashedPassword != req.password
    ensures Login(rows + [Candidate(nextId, req, now)], UserLogin(req.email, req.password)) == Err(InvalidCredentials)
  {
    EmailLoginReachesEarlierRow(rows, nextId, req, now, i, req.password);
    var p := (u: User) => Identifies(u, req.email);
    forall j | 0 <= j < i ensures !p(rows[j]) {
      assert !Conflicts(rows[j], req.email, req.username);
    }
    assert FirstIdentified(rows, req.email, i);
    forall k | FirstIdentified(rows, req.email, k) ensures rows[k].hashedPassword != req.password {
      Query.FirstIsUnique(rows, p, i, k);
    }
  }

  /**
   * The mirror case: a newcomer whose username is an earlier user's email is
   * admitted too, and a login with that username acts exactly as a login on
   * the table before the newcomer was added.
   */
  lemma {:induction false} UsernameLoginReachesEarlierRow(rows: seq<User>, nextId: int, req: UserCreate,
                                                          now: Timestamp, i: int, password: string)
    requires TableValid(rows, nextId)
    requires Rejection(rows, nextId, req, now).None?
    requires 0 <= i < |rows| && rows[i].email == req.username
    ensures Login(rows + [Candidate(nextId, req, now)], UserLogin(req.username, password))
            == Login(rows, UserLogin(req.username, password))
  {
    var p := (u: User) => Identifies(u, req.username);
    assert p(rows[i]);
    var k := Query.First(rows, p).value;
    LoginUnaffectedByLaterRows(rows, [Candidate(nextId, req, now)], UserLogin(req.username, password), k);
  }

  /**
   * An instance of EmailLoginReachesEarlierRow: alice's username is bob's
   * email, bob is admitted, and bob's own password fails by email while
   * logging in by username succeeds.
   */
  lemma EmailLoginShadowedByUsername()
    ensures var alice := User(1, "alice@mail.com", "bob@mail.com", "alicepass1", None, true, 0, None);
            var bob := UserCreate("bob@mail.com", "bobby", None, "bobpass12", "bobpass12");
            && TableValid([alice], 2)
            && Rejection([alice], 2, bob, 0).None?
            && Login([alice, Candidate(2, bob, 0)], UserLogin("bob@mail.com", "bobpass12")) == Err(InvalidCredentials)
            && Login([alice, Candidate(2, bob, 0)], UserLogin("bobby", "bobpass12")).Ok?
  {
    var alice := User(1, "alice@mail.com", "bob@mail.com", "alicepass1", None, true, 0, None);
    var bob := UserCreate("bob@mail.com", "bobby", None, "bobpass12", "bobpass12");
    var rows := [alice, Candidate(2, bob, 0)];
    assert !Conflicts(alice, bob.email, bob.username);
    assert FirstIdentified(rows, "bob@mail.com", 0);
    assert FirstIdentified(rows, "bobby", 1);
  }

  /**
   * For a body the modelled schema accepts, username and full name always
   * fit their columns; the commit can fail only on an id past the INT
   * range, or on an email or a password longer than 255 characters. The
   * schema puts no maximum on the password; an over-long email reaches the
   * commit only because the model leaves the email validator out.
   */
  lemma CommitFailsOnlyOnIdEmailOrPassword(id: int, req: UserCreate, now: Timestamp)
    requires UserCreateValid(req)
    ensures FitsColumns(Candidate(id, req, now)) <==>
            id <= MaxId && |req.email| <= EmailColumnLength && |req.password| <= HashedPasswordColumnLength
  {
  }

  /** Neither response depends on the stored password. */
  lemma ResponsesOmitPassword(u: User, password: string)
    ensures ToResponse(u.(hashedPassword := password)) == ToResponse(u)
    ensures ToPublic(u.(hashedPassword := password)) == ToPublic(u)
  {
  }
}
