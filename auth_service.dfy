/** `AuthService` (src/modules/auth/auth.service.ts): `login` runs the lockout
    state machine against the stored user and writes its update; `register`
    is a guarded insert keyed by email. Password hashing and comparison and
    token signing are external and arrive as function parameters; the clock
    is the `now` parameter. */
module AuthService {
  import opened Wrappers
  import opened UserSchema
  import opened AuthErrors
  import opened Lockout
  import opened UserStore

  /** The token payload (`UserJwtDto`). */
  datatype Claims = Claims(id: Id, email: string)

  /** What a successful login returns. */
  datatype LoginResponse = LoginResponse(
    token: string,
    id: Id,
    email: string,
    firstName: Option<string>,
    lastName: Option<string>)

  /** The registration request body. */
  datatype RegisterDto = RegisterDto(
    email: string,
    password: string,
    confirmPassword: string,
    firstName: Option<string>,
    lastName: Option<string>)

  /** `generateToken` followed by `encode`: a token signed over the user's id
      and email, next to the user's public fields. */
  function Encode(u: User, sign: Claims -> string): (r: LoginResponse)
    ensures r.token == sign(Claims(r.id, r.email))
    ensures r.id == u.id && r.email == u.email
    ensures r.firstName == u.firstName && r.lastName == u.lastName
  {
    LoginResponse(sign(Claims(u.id, u.email)), u.id, u.email, u.firstName, u.lastName)
  }

  /** The response depends on nothing but the public fields: neither the
      password hash nor the lockout fields can leak through it. So `login`,
      which encodes the document as it read it, returns the same response it
      would have built from the document after the update. */
  lemma EncodeSeesOnlyPublicFields(u: User, v: User, p: Patch, sign: Claims -> string)
    ensures Encode(Apply(u, p), sign) == Encode(u, sign)
    ensures (v.id, v.email, v.firstName, v.lastName) == (u.id, u.email, u.firstName, u.lastName) ==>
              Encode(v, sign) == Encode(u, sign)
  {
  }

  /** A new document appended behind a valid collection keeps it valid when
      its email is not stored yet. */
  lemma {:induction false} InsertNewKeepsValid(docs: seq<User>, nextId: Id, u: User)
    requires ValidDocs(docs, nextId)
    requires FindByEmail(docs, u.email).None?
    requires u.id == nextId && WellFormed(u)
    ensures ValidDocs(docs + [u], nextId + 1)
  {
    var r := docs + [u];
    forall i, j | 0 <= i < j < |r|
      ensures r[i].id != r[j].id && r[i].email != r[j].email
    {
      if j == |docs| {
        assert r[i] == docs[i];
      }
    }
  }

  class AuthService {
    const userModel: UserCollection

    constructor (userModel: UserCollection)
      ensures this.userModel == userModel
    {
      this.userModel := userModel;
    }

    /** `login(email, password)`. The result and the new collection are those
        of the state machine applied to the stored user. */
    method Login(email: string, password: string, now: Millis,
                 compare: (string, string) -> bool, sign: Claims -> string)
      returns (r: Result<LoginResponse, Exception>)
      requires userModel.Valid()
      modifies userModel
      ensures userModel.Valid() && userModel.nextId == old(userModel.nextId)
      ensures r != Failure(TypeError)
      ensures FindByEmail(old(userModel.docs), email).None? ==>
                r == Failure(Unauthorized(EmailOrPasswordIsIncorrect)) && userModel.docs == old(userModel.docs)
      ensures FindByEmail(old(userModel.docs), email).Some? ==>
                var u := FindByEmail(old(userModel.docs), email).value;
                var d := Decide(u, compare(password, u.password), now);
                && userModel.docs == UpdateById(old(userModel.docs), u.id, d.patch)
                && r == if d.outcome == Authenticated then Success(Encode(u, sign)) else Failure(d.outcome.error)
    {
      var found := userModel.FindOne(email);
      if found.None? {
        return Failure(Unauthorized(EmailOrPasswordIsIncorrect));
      }
      var user := found.value;
      ghost var docs := userModel.docs;
      ghost var k := FindFrom(docs, email, 0).value;
      assert docs[k] == user;

      if IsLocked(user) {
        return Failure(Unauthorized(EmailHasBeenLocked));
      }

      var isMatch := compare(password, user.password);
      NextPreservesWellFormed(user, isMatch, now);
      var patch := Decide(user, isMatch, now).patch;
      UpdateByIdKeepsValid(docs, userModel.nextId, k, patch);

      if isMatch {
        userModel.FindByIdAndUpdate(user.id, Patch(Some(0), Some(None), None));
        return Success(Encode(user, sign));
      }

      if user.failedLoginAttempts == 0 {
        userModel.FindByIdAndUpdate(user.id, Patch(Some(1), Some(Some(now)), None));
        return Failure(Unauthorized(EmailOrPasswordIsIncorrect));
      }

      if user.failedLoginAttempts < MaxFailedAttempts {
        userModel.FindByIdAndUpdate(user.id, Patch(Some(user.failedLoginAttempts + 1), None, None));
        return Failure(Unauthorized(EmailOrPasswordIsIncorrect));
      }

      var failedLoginTime := user.failedLoginTime.value;
      if now - failedLoginTime < LockWindowMillis {
        userModel.FindByIdAndUpdate(user.id, Patch(None, None, Some(true)));
        return Failure(Unauthorized(EmailHasBeenLocked));
      }

      userModel.FindByIdAndUpdate(user.id, Patch(Some(1), Some(Some(now)), None));
      return Failure(Unauthorized(EmailOrPasswordIsIncorrect));
    }

    /** `register(registerDto)`: rejects a mismatched confirmation before
        looking at the store, rejects a stored email, and otherwise inserts
        exactly one clean document holding the hash of the password. */
    method Register(dto: RegisterDto, hash: string -> string) returns (r: Result<User, Exception>)
      requires userModel.Valid()
      modifies userModel
      ensures userModel.Valid()
      ensures dto.password != dto.confirmPassword ==>
                r == Failure(BadRequest(EmailOrPasswordIsNotMatch)) && unchanged(userModel)
      ensures dto.password == dto.confirmPassword && FindByEmail(old(userModel.docs), dto.email).Some? ==>
                r == Failure(BadRequest(EmailIsExist)) && unchanged(userModel)
      ensures dto.password == dto.confirmPassword && FindByEmail(old(userModel.docs), dto.email).None? ==>
                && r == Success(NewUser(old(userModel.nextId), dto.email, hash(dto.password), dto.firstName, dto.lastName))
                && userModel.docs == old(userModel.docs) + [r.value]
                && userModel.nextId == old(userModel.nextId) + 1
    {
      if dto.password != dto.confirmPassword {
        return Failure(BadRequest(EmailOrPasswordIsNotMatch));
      }

      var existUser := userModel.FindOne(dto.email);
      if existUser.Some? {
        return Failure(BadRequest(EmailIsExist));
      }

      var password := hash(dto.password);
      InsertNewKeepsValid(userModel.docs, userModel.nextId,
                          NewUser(userModel.nextId, dto.email, password, dto.firstName, dto.lastName));
      var saved := userModel.Save(dto.email, password, dto.firstName, dto.lastName);
      return Success(saved);
    }
  }

  /** The end-to-end story of the service: registration, a duplicate, a
      mismatched confirmation, three quick wrong passwords and the lock. */
  method LockoutScenario(now: Millis)
  {
    var hash := (s: string) => "bcrypt:" + s;
    var compare := (plain: string, hashed: string) => hashed == "bcrypt:" + plain;
    var sign := (c: Claims) => c.email;
    var email := "admin@gmail.com";

    var model := new UserCollection();
    var service := new AuthService(model);

    var registered := service.Register(RegisterDto(email, "12345678", "12345678", None, None), hash);
    assert registered.Success? && registered.value.password == "bcrypt:12345678";

    var again := service.Register(RegisterDto(email, "12345678", "12345678", None, None), hash);
    assert FindByEmail(model.docs, email).Some? by { assert model.docs[0].email == email; }
    assert again == Failure(BadRequest(EmailIsExist));

    var mismatch := service.Register(RegisterDto("other@gmail.com", "12345678", "abcdef", None, None), hash);
    assert mismatch == Failure(BadRequest(EmailOrPasswordIsNotMatch));

    var i := 0;
    while i < 3
      invariant 0 <= i <= 3
      invariant model.Valid() && |model.docs| == 1 && model.docs[0].email == email
      invariant model.docs[0].password == "bcrypt:12345678"
      invariant !IsLocked(model.docs[0]) && model.docs[0].failedLoginAttempts == i
      invariant i > 0 ==> model.docs[0].failedLoginTime == Some(now)
    {
      FindByEmailIsUnique(model.docs, model.nextId, email, 0);
      var wrong := service.Login(email, "abcdef", now, compare, sign);
      assert wrong == Failure(Unauthorized(EmailOrPasswordIsIncorrect));
      i := i + 1;
    }

    FindByEmailIsUnique(model.docs, model.nextId, email, 0);
    var fourth := service.Login(email, "abcdef", now, compare, sign);
    assert fourth == Failure(Unauthorized(EmailHasBeenLocked));

    FindByEmailIsUnique(model.docs, model.nextId, email, 0);
    var right := service.Login(email, "12345678", now, compare, sign);
    assert right == Failure(Unauthorized(EmailHasBeenLocked));
  }
}
