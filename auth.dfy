/** The authentication controller's store: users, e-mail verification
    tokens, password reset tokens, wallets, student records and their
    registration credentials. Each handler is one atomic step; the backend
    `validateEmail`/`validatePassword`, the signer `ethers.verifyMessage`
    recovers and the on-chain registration are oracles whose answers are
    parameters. */
module Auth {
  import opened Common

  type UserId = nat

  /** One hour, in milliseconds: the life of a reset token. */
  const ResetLifetime: int := 3600000
  /** The one notice `forgotPassword` answers with, known e-mail or not. */
  const ResetNotice: string := "If your email is registered, you will receive a password reset link"

  datatype User = User(email: string, password: PasswordHash, role: string, verified: bool,
                       lastLogin: Option<int>, createdAt: int)

  /** A row of `email_verifications`. */
  datatype TokenRow = TokenRow(user: UserId, token: string, expiresAt: int)

  /** The row of `password_resets` for one user (`user_id` is its key). */
  datatype ResetRow = ResetRow(token: string, expiresAt: int)

  datatype Wallet = Wallet(user: UserId, address: string, isPrimary: bool, isVerified: bool, verifiedAt: Option<int>)

  datatype Student = Student(user: UserId, studentNumber: string, name: string, department: string, enrolledOn: int)

  /** What `registerStudentOnChain` resolves with. */
  datatype ChainReceipt = ChainReceipt(transactionHash: string, blockNumber: nat)

  /** The arguments `registerStudentOnChain` is called with. */
  datatype ChainRequest = ChainRequest(name: string, email: string, studentNumber: string, department: string, wallet: string)

  datatype Credential = Credential(student: nat, kind: string, title: string, description: string,
                                   issuer: string, verificationHash: string, receipt: ChainReceipt)

  // ---- responses ----

  datatype RegisterResult = InvalidEmail | WeakPassword | EmailTaken | Registered(id: UserId) {
    function Status(): nat {
      match this
      case InvalidEmail => 400
      case WeakPassword => 400
      case EmailTaken => 409
      case Registered(_) => 201
    }
  }

  /** The two 401 causes are one response, so a caller cannot tell an
      unknown e-mail from a wrong password. */
  datatype LoginResult = InvalidCredentials | EmailNotVerified | LoggedIn(id: UserId) {
    function Status(): nat {
      match this
      case InvalidCredentials => 401
      case EmailNotVerified => 403
      case LoggedIn(_) => 200
    }
  }

  datatype TokenResult = InvalidToken | TokenAccepted(user: UserId) {
    function Status(): nat { if TokenAccepted? then 200 else 400 }
  }

  datatype ResetResult = ResetWeakPassword | ResetInvalidToken | PasswordReset(user: UserId) {
    function Status(): nat { if PasswordReset? then 200 else 400 }
  }

  datatype ConnectResult = InvalidSignature | WalletOfAnotherUser | WalletConnected(address: string) {
    function Status(): nat {
      match this
      case InvalidSignature => 401
      case WalletOfAnotherUser => 409
      case WalletConnected(_) => 200
    }
  }

  datatype StudentResult = AlreadyStudent | StudentNumberTaken | NoPrimaryWallet | ChainFailed
    | StudentRegistered(student: nat, receipt: ChainReceipt)
  {
    function Status(): nat {
      match this
      case AlreadyStudent => 409
      case StudentNumberTaken => 409
      case NoPrimaryWallet => 400
      case ChainFailed => 500
      case StudentRegistered(_, _) => 200
    }
  }

  datatype StudentView = StudentView(id: nat, studentNumber: string, name: string, department: string)

  datatype ProfileView = ProfileNotFound
    | ProfileView(id: UserId, email: string, role: string, createdAt: int,
                  student: Option<StudentView>, wallets: seq<Wallet>)

  // ---- queries ----

  function UserByEmail(users: seq<User>, email: string): (r: Option<nat>)
    ensures r.Some? ==> r.value < |users| && users[r.value].email == email
    ensures r.None? <==> forall i :: 0 <= i < |users| ==> users[i].email != email
  {
    FindFirst(users, (u: User) => u.email == email)
  }

  /** `WHERE token = $1 AND expires_at > NOW()`, first row. */
  function LiveToken(rows: seq<TokenRow>, token: string, now: int): (r: Option<nat>)
    ensures r.Some? ==> r.value < |rows| && rows[r.value].token == token && rows[r.value].expiresAt > now
    ensures r.None? <==> forall i :: 0 <= i < |rows| ==> !(rows[i].token == token && rows[i].expiresAt > now)
  {
    FindFirst(rows, (row: TokenRow) => row.token == token && row.expiresAt > now)
  }

  /** `DELETE FROM ... WHERE token = $1` */
  function WithoutToken(rows: seq<TokenRow>, token: string): (r: seq<TokenRow>)
    ensures forall i :: 0 <= i < |r| ==> r[i].token != token && r[i] in rows
    ensures forall i :: 0 <= i < |rows| && rows[i].token != token ==> rows[i] in r
  {
    Filter(rows, (row: TokenRow) => row.token != token)
  }

  /** A user whose reset row holds the token, unexpired. */
  predicate LiveReset(resets: map<UserId, ResetRow>, token: string, now: int, u: UserId) {
    u in resets && resets[u].token == token && resets[u].expiresAt > now
  }

  function WalletByAddress(wallets: seq<Wallet>, address: string): (r: Option<nat>)
    ensures r.Some? ==> r.value < |wallets| && wallets[r.value].address == address
    ensures r.None? <==> forall i :: 0 <= i < |wallets| ==> wallets[i].address != address
  {
    FindFirst(wallets, (w: Wallet) => w.address == address)
  }

  function PrimaryWallet(wallets: seq<Wallet>, user: UserId): (r: Option<nat>)
    ensures r.Some? ==> r.value < |wallets| && wallets[r.value].user == user && wallets[r.value].isPrimary
    ensures r.None? <==> forall i :: 0 <= i < |wallets| ==> !(wallets[i].user == user && wallets[i].isPrimary)
  {
    FindFirst(wallets, (w: Wallet) => w.user == user && w.isPrimary)
  }

  function StudentOf(students: seq<Student>, user: UserId): (r: Option<nat>)
    ensures r.Some? ==> r.value < |students| && students[r.value].user == user
    ensures r.None? <==> forall i :: 0 <= i < |students| ==> students[i].user != user
  {
    FindFirst(students, (s: Student) => s.user == user)
  }

  // ---- getProfile's wallet order ----

  /** All the user's wallets, in table order. */
  function UserWallets(wallets: seq<Wallet>, user: UserId): seq<Wallet> {
    Filter(wallets, (w: Wallet) => w.user == user)
  }

  /** The user's wallets of the given primacy, as a filter. */
  function OfKind(user: UserId, primary: bool): Wallet -> bool {
    (w: Wallet) => w.user == user && w.isPrimary == primary
  }

  function WalletsOf(wallets: seq<Wallet>, user: UserId, primary: bool): seq<Wallet> {
    Filter(wallets, OfKind(user, primary))
  }

  /** A new last row is the last of its kind's wallets, and leaves the
      other kinds as they were. */
  lemma WalletsOfSnoc(wallets: seq<Wallet>, w: Wallet, user: UserId, primary: bool)
    ensures WalletsOf(wallets + [w], user, primary)
      == if w.user == user && w.isPrimary == primary then WalletsOf(wallets, user, primary) + [w]
         else WalletsOf(wallets, user, primary)
  {
    FilterAppend(wallets, [w], OfKind(user, primary));
    FilterSingleton(w, OfKind(user, primary));
    assert WalletsOf(wallets, user, primary) + [] == WalletsOf(wallets, user, primary);
  }

  /** `ORDER BY is_primary DESC, created_at DESC`, where a later row is a
      newer one. */
  function ProfileWallets(wallets: seq<Wallet>, user: UserId): seq<Wallet> {
    Reverse(WalletsOf(wallets, user, true)) + Reverse(WalletsOf(wallets, user, false))
  }

  /** Every wallet of ws is the user's and has the given primacy. */
  ghost predicate AllOf(ws: seq<Wallet>, user: UserId, primary: bool) {
    forall i :: 0 <= i < |ws| ==> ws[i].user == user && ws[i].isPrimary == primary
  }

  lemma WalletsOfAllOf(wallets: seq<Wallet>, user: UserId, primary: bool)
    ensures AllOf(WalletsOf(wallets, user, primary), user, primary)
  {}

  lemma ReverseAllOf(ws: seq<Wallet>, user: UserId, primary: bool)
    requires AllOf(ws, user, primary)
    ensures AllOf(Reverse(ws), user, primary)
  {
    var r := Reverse(ws);
    forall i | 0 <= i < |r| ensures r[i].user == user && r[i].isPrimary == primary {
      assert r[i] == ws[|ws| - 1 - i];
    }
  }

  /** Every primary wallet is listed before every other one, and all the
      listed wallets are the user's. */
  lemma ProfileWalletsPrimaryFirst(wallets: seq<Wallet>, user: UserId)
    ensures var r := ProfileWallets(wallets, user);
      (forall i :: 0 <= i < |r| ==> r[i].user == user)
      && (forall i, j :: 0 <= i < j < |r| && r[j].isPrimary ==> r[i].isPrimary)
  {
    var p, q := Reverse(WalletsOf(wallets, user, true)), Reverse(WalletsOf(wallets, user, false));
    WalletsOfAllOf(wallets, user, true);
    WalletsOfAllOf(wallets, user, false);
    ReverseAllOf(WalletsOf(wallets, user, true), user, true);
    ReverseAllOf(WalletsOf(wallets, user, false), user, false);
    var r := p + q;
    assert r == ProfileWallets(wallets, user);
    forall i | 0 <= i < |r| ensures r[i].user == user && (r[i].isPrimary <==> i < |p|) {
      if i < |p| { assert r[i] == p[i]; } else { assert r[i] == q[i - |p|]; }
    }
  }

  /** Exactly the user's wallets are listed, each once. */
  lemma {:induction false} ProfileWalletsArePermutation(wallets: seq<Wallet>, user: UserId)
    ensures multiset(ProfileWallets(wallets, user))
      == multiset(UserWallets(wallets, user))
  {
    SplitByPrimacy(wallets, user);
  }

  lemma {:induction false} SplitByPrimacy(wallets: seq<Wallet>, user: UserId)
    ensures multiset(WalletsOf(wallets, user, true)) + multiset(WalletsOf(wallets, user, false))
      == multiset(UserWallets(wallets, user))
    decreases |wallets|
  {
    if wallets != [] {
      SplitByPrimacy(wallets[1..], user);
      WalletsOfCons(wallets, user, true);
      WalletsOfCons(wallets, user, false);
      UserWalletsCons(wallets, user);
    }
  }

  lemma WalletsOfCons(wallets: seq<Wallet>, user: UserId, primary: bool)
    requires wallets != []
    ensures var w := wallets[0];
      WalletsOf(wallets, user, primary)
      == (if w.user == user && w.isPrimary == primary then [w] else []) + WalletsOf(wallets[1..], user, primary)
  {}

  lemma UserWalletsCons(wallets: seq<Wallet>, user: UserId)
    requires wallets != []
    ensures UserWallets(wallets, user)
      == (if wallets[0].user == user then [wallets[0]] else []) + UserWallets(wallets[1..], user)
  {}

  /** A newer primary row of the user's heads the profile's list. */
  lemma NewestPrimaryListedFirst(wallets: seq<Wallet>, w: Wallet)
    requires w.isPrimary
    ensures ProfileWallets(wallets + [w], w.user) == [w] + ProfileWallets(wallets, w.user)
  {
    var ps, os := WalletsOf(wallets, w.user, true), WalletsOf(wallets, w.user, false);
    WalletsOfSnoc(wallets, w, w.user, true);
    WalletsOfSnoc(wallets, w, w.user, false);
    ReverseSnocThen(ps, w, Reverse(os));
  }

  /** A newer non-primary row of the user's comes right after the
      primaries, ahead of the older non-primary ones. */
  lemma NewestOtherListedAfterPrimaries(wallets: seq<Wallet>, w: Wallet)
    requires !w.isPrimary
    ensures ProfileWallets(wallets + [w], w.user)
      == Reverse(WalletsOf(wallets, w.user, true)) + ([w] + Reverse(WalletsOf(wallets, w.user, false)))
  {
    var ps, os := WalletsOf(wallets, w.user, true), WalletsOf(wallets, w.user, false);
    WalletsOfSnoc(wallets, w, w.user, true);
    WalletsOfSnoc(wallets, w, w.user, false);
    ReverseSnoc(os, w);
  }

  /** A row of another user's leaves the profile's list as it was. */
  lemma OtherUsersWalletIgnored(wallets: seq<Wallet>, w: Wallet, user: UserId)
    requires w.user != user
    ensures ProfileWallets(wallets + [w], user) == ProfileWallets(wallets, user)
  {
    WalletsOfSnoc(wallets, w, user, true);
    WalletsOfSnoc(wallets, w, user, false);
  }

  class Accounts {
    var users: seq<User>
    var verifications: seq<TokenRow>
    var resets: map<UserId, ResetRow>
    var wallets: seq<Wallet>
    var students: seq<Student>
    var credentials: seq<Credential>

    /** E-mails are unique; no address is stored twice; a user has at
        most one student record and student numbers are unique; every row
        names an existing user. */
    ghost predicate Valid()
      reads this
    {
      (forall i, j :: 0 <= i < j < |users| ==> users[i].email != users[j].email)
      && (forall i, j :: 0 <= i < j < |wallets| ==> wallets[i].address != wallets[j].address)
      && (forall i, j :: 0 <= i < j < |students| ==>
            students[i].user != students[j].user && students[i].studentNumber != students[j].studentNumber)
      && (forall i :: 0 <= i < |verifications| ==> verifications[i].user < |users|)
      && (forall u :: u in resets ==> u < |users|)
      && (forall i :: 0 <= i < |wallets| ==> wallets[i].user < |users|)
      && (forall i :: 0 <= i < |students| ==> students[i].user < |users|)
    }

    constructor ()
      ensures Valid()
      ensures users == [] && verifications == [] && resets == map[]
      ensures wallets == [] && students == [] && credentials == []
    {
      users, verifications, resets := [], [], map[];
      wallets, students, credentials := [], [], [];
    }

    /** `register`: 400 for an e-mail or a password the validators refuse,
        409 for a known e-mail; otherwise a new unverified user with role
        `user`. The verification token is mailed and never stored. */
    method Register(email: string, password: string, emailOk: bool, passwordOk: bool, now: int)
      returns (result: RegisterResult)
      requires Valid()
      modifies this
      ensures Valid()
      ensures result == InvalidEmail <==> !emailOk
      ensures result == WeakPassword <==> emailOk && !passwordOk
      ensures result == EmailTaken <==> emailOk && passwordOk && old(UserByEmail(users, email)).Some?
      ensures !result.Registered? ==> unchanged(this)
      ensures result.Registered? ==>
        result.id == |old(users)|
        && users == old(users) + [User(email, HashPassword(password), "user", false, None, now)]
      ensures verifications == old(verifications) && resets == old(resets)
      ensures wallets == old(wallets) && students == old(students) && credentials == old(credentials)
    {
      if !emailOk {
        return InvalidEmail;
      }
      if !passwordOk {
        return WeakPassword;
      }
      if UserByEmail(users, email).Some? {
        return EmailTaken;
      }
      result := Registered(|users|);
      users := users + [User(email, HashPassword(password), "user", false, None, now)];
    }

    /** `login`: unknown e-mail and wrong password give the same 401, then
        an unverified e-mail gives 403; only a success records the login. */
    method Login(email: string, password: string, now: int) returns (result: LoginResult)
      requires Valid()
      modifies this
      ensures Valid()
      ensures old(UserByEmail(users, email)).None? ==> result == InvalidCredentials
      ensures old(UserByEmail(users, email)).Some? ==>
        var u := old(users)[old(UserByEmail(users, email)).value];
        && (!PasswordMatches(password, u.password) <==> result == InvalidCredentials)
        && (PasswordMatches(password, u.password) && !u.verified <==> result == EmailNotVerified)
      ensures !result.LoggedIn? ==> unchanged(this)
      ensures result.LoggedIn? ==>
        result.id < |old(users)| && old(users)[result.id].email == email
        && users == old(users)[result.id := old(users)[result.id].(lastLogin := Some(now))]
      ensures verifications == old(verifications) && resets == old(resets)
      ensures wallets == old(wallets) && students == old(students) && credentials == old(credentials)
    {
      var found := UserByEmail(users, email);
      if found.None? {
        return InvalidCredentials;
      }
      var id := found.value;
      if !PasswordMatches(password, users[id].password) {
        return InvalidCredentials;
      }
      if !users[id].verified {
        return EmailNotVerified;
      }
      users := users[id := users[id].(lastLogin := Some(now))];
      result := LoggedIn(id);
    }

    /** `verifyEmail`: 400 unless some row holds the token unexpired;
        otherwise that row's user is verified and every row with the token
        is deleted, so the token cannot be used again. */
    method VerifyEmail(token: string, now: int) returns (result: TokenResult)
      requires Valid()
      modifies this
      ensures Valid()
      ensures result == InvalidToken <==> old(LiveToken(verifications, token, now)).None?
      ensures result == InvalidToken ==> unchanged(this)
      ensures result.TokenAccepted? ==>
        && result.user == old(verifications)[old(LiveToken(verifications, token, now)).value].user
        && users == old(users)[result.user := old(users)[result.user].(verified := true)]
        && verifications == WithoutToken(old(verifications), token)
        && LiveToken(verifications, token, now).None?
      ensures resets == old(resets) && wallets == old(wallets)
      ensures students == old(students) && credentials == old(credentials)
    {
      var found := LiveToken(verifications, token, now);
      if found.None? {
        return InvalidToken;
      }
      var user := verifications[found.value].user;
      users := users[user := users[user].(verified := true)];
      verifications := WithoutToken(verifications, token);
      result := TokenAccepted(user);
    }

    /** `forgotPassword`: the same answer (200 and `ResetNotice`) whether
        or not the e-mail is known. For a known one, the user's reset row
        becomes `token`, expiring an hour from now, replacing any older
        one. `mailed` is the token e-mailed, if any. */
    method ForgotPassword(email: string, token: string, now: int) returns (status: nat, message: string, mailed: Option<string>)
      requires Valid()
      modifies this
      ensures Valid()
      ensures status == 200 && message == ResetNotice
      ensures old(UserByEmail(users, email)).None? <==> mailed.None?
      ensures mailed.None? ==> unchanged(this)
      ensures mailed.Some? ==>
        mailed.value == token
        && resets == old(resets)[old(UserByEmail(users, email)).value := ResetRow(token, now + ResetLifetime)]
      ensures users == old(users) && verifications == old(verifications)
      ensures wallets == old(wallets) && students == old(students) && credentials == old(credentials)
    {
      status, message := 200, ResetNotice;
      var found := UserByEmail(users, email);
      if found.None? {
        return 200, ResetNotice, None;
      }
      resets := resets[found.value := ResetRow(token, now + ResetLifetime)];
      mailed := Some(token);
    }

    /** `resetPassword`: the new password is checked before the token (400
        either way); on success the user's hash is replaced and the rows
        holding the token are deleted, so the token is single-use. */
    method ResetPassword(token: string, password: string, passwordOk: bool, now: int) returns (result: ResetResult)
      requires Valid()
      modifies this
      ensures Valid()
      ensures result == ResetWeakPassword <==> !passwordOk
      ensures result == ResetInvalidToken <==> passwordOk && !(exists u :: old(LiveReset(resets, token, now, u)))
      ensures !result.PasswordReset? ==> unchanged(this)
      ensures result.PasswordReset? ==>
        && old(LiveReset(resets, token, now, result.user))
        && users == old(users)[result.user := old(users)[result.user].(password := HashPassword(password))]
        && resets == (map u | u in old(resets) && old(resets)[u].token != token :: old(resets)[u])
        && !(exists u :: LiveReset(resets, token, now, u))
      ensures verifications == old(verifications) && wallets == old(wallets)
      ensures students == old(students) && credentials == old(credentials)
    {
      if !passwordOk {
        return ResetWeakPassword;
      }
      if !(exists u :: u in resets && LiveReset(resets, token, now, u)) {
        return ResetInvalidToken;
      }
      var user :| user in resets && LiveReset(resets, token, now, user);
      users := users[user := users[user].(password := HashPassword(password))];
      resets := map u | u in resets && resets[u].token != token :: resets[u];
      result := PasswordReset(user);
    }

    /** `connectWallet`: 401 unless the recovered signer equals the address
        ignoring case; 409 when the address is stored for another user; a
        new address is inserted as primary and verified, an own one is only
        re-verified. */
    method ConnectWallet(user: UserId, address: string, signer: string, now: int) returns (result: ConnectResult)
      requires Valid() && user < |users|
      modifies this
      ensures Valid()
      ensures result == InvalidSignature <==> ToLower(signer) != ToLower(address)
      ensures result == WalletOfAnotherUser <==>
        ToLower(signer) == ToLower(address)
        && old(WalletByAddress(wallets, address)).Some?
        && old(wallets)[old(WalletByAddress(wallets, address)).value].user != user
      ensures !result.WalletConnected? ==> unchanged(this)
      ensures result.WalletConnected? ==>
        && result.address == address
        && (old(WalletByAddress(wallets, address)).None? ==>
              wallets == old(wallets) + [Wallet(user, address, true, true, Some(now))])
        && (old(WalletByAddress(wallets, address)).Some? ==>
              var i := old(WalletByAddress(wallets, address)).value;
              wallets == old(wallets)[i := old(wallets)[i].(isVerified := true, verifiedAt := Some(now))])
      ensures users == old(users) && verifications == old(verifications) && resets == old(resets)
      ensures students == old(students) && credentials == old(credentials)
    {
      if ToLower(signer) != ToLower(address) {
        return InvalidSignature;
      }
      var existing := WalletByAddress(wallets, address);
      if existing.Some? && wallets[existing.value].user != user {
        return WalletOfAnotherUser;
      }
      if existing.None? {
        wallets := wallets + [Wallet(user, address, true, true, Some(now))];
      } else {
        var i := existing.value;
        wallets := wallets[i := wallets[i].(isVerified := true, verifiedAt := Some(now))];
      }
      result := WalletConnected(address);
    }

    /** `registerStudent`: 409 when the user already is a student, 409 when
        the student number is taken, 400 without a primary wallet, each
        before anything is written; then the chain registration, whose
        failure rolls back; otherwise one student record and its
        registration credential. */
    method RegisterStudent(user: UserId, name: string, studentNumber: string, department: string,
                           chain: Option<ChainReceipt>, today: int)
      returns (result: StudentResult, request: Option<ChainRequest>)
      requires Valid() && user < |users|
      modifies this
      ensures Valid()
      ensures users == old(users) && verifications == old(verifications)
      ensures resets == old(resets) && wallets == old(wallets)
      ensures result == AlreadyStudent <==> old(StudentOf(students, user)).Some?
      ensures result == StudentNumberTaken <==>
        old(StudentOf(students, user)).None?
        && exists i :: 0 <= i < |old(students)| && old(students)[i].studentNumber == studentNumber
      ensures result == NoPrimaryWallet <==>
        old(StudentOf(students, user)).None?
        && (forall i :: 0 <= i < |old(students)| ==> old(students)[i].studentNumber != studentNumber)
        && old(PrimaryWallet(wallets, user)).None?
      ensures request.Some? <==> result.ChainFailed? || result.StudentRegistered?
      ensures request.Some? ==> old(PrimaryWallet(wallets, user)).Some?
      ensures request.Some? ==>
        request.value == ChainRequest(name, users[user].email, studentNumber, department,
                                      wallets[old(PrimaryWallet(wallets, user)).value].address)
      ensures result.ChainFailed? <==> request.Some? && chain.None?
      ensures !result.StudentRegistered? ==> unchanged(this)
      ensures result.StudentRegistered? ==>
        && result.student == |old(students)| && result.receipt == chain.value
        && students == old(students) + [Student(user, studentNumber, name, department, today)]
        && credentials == old(credentials) + [Credential(result.student, "STUDENT_REGISTRATION",
             "Student Registration", "Registered as a student in " + department, "EduVerse Platform",
             chain.value.transactionHash, chain.value)]
    {
      request := None;
      if StudentOf(students, user).Some? {
        return AlreadyStudent, None;
      }
      if exists i :: 0 <= i < |students| && students[i].studentNumber == studentNumber {
        return StudentNumberTaken, None;
      }
      var email := users[user].email;
      var primary := PrimaryWallet(wallets, user);
      if primary.None? {
        return NoPrimaryWallet, None;
      }
      request := Some(ChainRequest(name, email, studentNumber, department, wallets[primary.value].address));
      if chain.None? {
        return ChainFailed, request;
      }
      var id := |students|;
      students := students + [Student(user, studentNumber, name, department, today)];
      credentials := credentials + [Credential(id, "STUDENT_REGISTRATION", "Student Registration",
        "Registered as a student in " + department, "EduVerse Platform",
        chain.value.transactionHash, chain.value)];
      result := StudentRegistered(id, chain.value);
    }

    /** `getProfile`: 404 for an unknown user; otherwise the user's fields,
        the student record or null, and the wallets primary first, newest
        first. */
    method GetProfile(user: UserId) returns (result: ProfileView)
      requires Valid()
      ensures result == ProfileNotFound <==> user >= |users|
      ensures result.ProfileView? ==>
        && result.id == user && result.email == users[user].email && result.role == users[user].role
        && result.createdAt == users[user].createdAt
        && (result.student.None? <==> StudentOf(students, user).None?)
        && (result.student.Some? ==>
              var s := students[StudentOf(students, user).value];
              result.student.value == StudentView(StudentOf(students, user).value, s.studentNumber, s.name, s.department))
        && result.wallets == ProfileWallets(wallets, user)
    {
      if user >= |users| {
        return ProfileNotFound;
      }
      var u := users[user];
      var found := StudentOf(students, user);
      var student := if found.Some? then
        var s := students[found.value];
        Some(StudentView(found.value, s.studentNumber, s.name, s.department))
      else None;
      result := ProfileView(user, u.email, u.role, u.createdAt, student, ProfileWallets(wallets, user));
    }
  }

  /** A verification token works once: the second use of the same token
      is refused. */
  method VerifyTwice(accounts: Accounts, token: string, now: int) returns (first: TokenResult, second: TokenResult)
    requires accounts.Valid() && LiveToken(accounts.verifications, token, now).Some?
    modifies accounts
    ensures accounts.Valid()
    ensures first.TokenAccepted? && second == InvalidToken
  {
    first := accounts.VerifyEmail(token, now);
    second := accounts.VerifyEmail(token, now);
  }

  /** Every newly inserted wallet is primary, so a user who connects two
      addresses has two primary wallets. */
  method TwoPrimaryWallets(accounts: Accounts, user: UserId, a: string, b: string, now: int)
    requires accounts.Valid() && user < |accounts.users| && a != b
    requires WalletByAddress(accounts.wallets, a).None? && WalletByAddress(accounts.wallets, b).None?
    modifies accounts
    ensures exists i, j :: (0 <= i < j < |accounts.wallets|
      && accounts.wallets[i].user == user && accounts.wallets[i].isPrimary
      && accounts.wallets[j].user == user && accounts.wallets[j].isPrimary)
  {
    var n := |accounts.wallets|;
    var r1 := accounts.ConnectWallet(user, a, a, now);
    assert accounts.wallets[n].address == a;
    var r2 := accounts.ConnectWallet(user, b, b, now);
    assert accounts.wallets[n].isPrimary && accounts.wallets[n + 1].isPrimary;
  }
}
