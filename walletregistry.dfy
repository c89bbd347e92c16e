/** The web application's wallet account registry: users keyed by their
    wallet address, registered with an e-mail and a password, and logged in
    by a signature over a fixed message. Addresses are lower-cased on the
    way in and on every lookup. */
module WalletRegistry {
  import opened Common
  import Validators

  datatype WalletUser = WalletUser(email: string, password: PasswordHash, walletAddress: string, isWalletRegistered: bool)

  /** The message every wallet is asked to sign at login, written in parts
      so that its characters can be reasoned about piecewise. */
  const SignMessage: string :=
    "Please sign" + " this message" + " to verify" + " your wallet" + " ownership"

  datatype RegisterOutcome = WalletTaken | EmailInUse | Registered

  function RegisterMessage(r: RegisterOutcome): string {
    match r
    case WalletTaken => "Wallet is already registered"
    case EmailInUse => "Email is already in use"
    case Registered => ""
  }

  datatype LoginOutcome =
    | SignatureRejected
    | NotRegistered
    | LoggedIn(email: string, walletAddress: string, isWalletRegistered: bool)

  function LoginMessage(r: LoginOutcome): string {
    match r
    case SignatureRejected => "Failed to verify wallet signature"
    case NotRegistered => "Wallet not registered"
    case LoggedIn(_, _, _) => ""
  }

  /** Some user holds the address, compared lower-cased. */
  predicate HoldsAddress(users: seq<WalletUser>, address: string) {
    exists i :: 0 <= i < |users| && users[i].walletAddress == ToLower(address)
  }

  predicate HoldsEmail(users: seq<WalletUser>, email: string) {
    exists i :: 0 <= i < |users| && users[i].email == email
  }

  function UserAt(users: seq<WalletUser>, address: string): (r: Option<nat>)
    ensures r.Some? <==> HoldsAddress(users, address)
    ensures r.Some? ==> r.value < |users| && users[r.value].walletAddress == ToLower(address)
  {
    var key := ToLower(address);
    FindFirst(users, (u: WalletUser) => u.walletAddress == key)
  }

  /** Lookups do not see the case of the address asked about. */
  lemma HoldsAddressIgnoresCase(users: seq<WalletUser>, address: string)
    ensures HoldsAddress(users, address) <==> HoldsAddress(users, ToLower(address))
  {
    ToLowerIdempotent(address);
  }

  /** The signature check: the address recovered from the signature (None
      when the signature cannot be decoded) must be the claimed one, in
      any case. */
  predicate SignatureMatches(recovered: Option<string>, address: string) {
    recovered.Some? && ToLower(recovered.value) == ToLower(address)
  }

  /** The login message names no address: it has no '0', and every
      address begins with "0x". */
  lemma SignMessageOmitsAddress(address: string, k: nat)
    requires 1 <= |address| && address[0] == '0' && k + |address| <= |SignMessage|
    ensures SignMessage[k..k + |address|] != address
  {
    assert '0' !in "Please sign" && '0' !in " this message" && '0' !in " to verify"
      && '0' !in " your wallet" && '0' !in " ownership";
    assert '0' !in SignMessage;
    assert SignMessage[k..k + |address|][0] == SignMessage[k];
  }

  /** The message checked at login is not the ownership message the
      verification helper builds for any address: it is shorter than that
      message's fixed prefix. */
  lemma LoginMessageIsNotVerificationMessage(address: string)
    ensures SignMessage != Validators.WalletVerificationMessage(address)
  {
    assert |SignMessage| == 56;
    assert |Validators.WalletMessagePrefix| == 70;
  }

  class Registry {
    var users: seq<WalletUser>

    /** The unique indexes on address and e-mail, and addresses stored in
        lower case. */
    ghost predicate Valid()
      reads this
    {
      (forall i, j :: 0 <= i < j < |users| ==> users[i].walletAddress != users[j].walletAddress)
      && (forall i, j :: 0 <= i < j < |users| ==> users[i].email != users[j].email)
      && (forall i :: 0 <= i < |users| ==> ToLower(users[i].walletAddress) == users[i].walletAddress)
    }

    constructor()
      ensures users == [] && Valid()
    {
      users := [];
    }

    /** `checkWalletRegistration` */
    method CheckWalletRegistration(address: string) returns (isRegistered: bool, email: Option<string>)
      ensures isRegistered <==> HoldsAddress(users, address)
      ensures email.Some? <==> isRegistered
      ensures email.Some? ==> exists i :: (0 <= i < |users|
        && users[i].walletAddress == ToLower(address) && users[i].email == email.value)
    {
      var at := UserAt(users, address);
      if at.Some? {
        isRegistered, email := true, Some(users[at.value].email);
      } else {
        isRegistered, email := false, None;
      }
    }

    /** `registerWallet`: the address is checked before the e-mail, and the
        e-mail is compared as given. */
    method RegisterWallet(address: string, email: string, password: string) returns (r: RegisterOutcome)
      requires Valid()
      modifies this
      ensures Valid()
      ensures r == WalletTaken <==> old(HoldsAddress(users, address))
      ensures r == EmailInUse <==> !old(HoldsAddress(users, address)) && old(HoldsEmail(users, email))
      ensures r == Registered ==>
        users == old(users) + [WalletUser(email, HashPassword(password), ToLower(address), true)]
      ensures r != Registered ==> users == old(users)
    {
      var at := UserAt(users, address);
      if at.Some? {
        return WalletTaken;
      }
      var byEmail := FindFirst(users, (u: WalletUser) => u.email == email);
      if byEmail.Some? {
        return EmailInUse;
      }
      ToLowerIdempotent(address);
      users := users + [WalletUser(email, HashPassword(password), ToLower(address), true)];
      r := Registered;
    }

    /** `loginWithWallet`: the signature first, then the account. */
    method LoginWithWallet(address: string, recovered: Option<string>) returns (r: LoginOutcome)
      ensures r == SignatureRejected <==> !SignatureMatches(recovered, address)
      ensures r == NotRegistered <==> SignatureMatches(recovered, address) && !HoldsAddress(users, address)
      ensures r.LoggedIn? ==> exists i :: (0 <= i < |users| && users[i].walletAddress == ToLower(address)
        && r == LoggedIn(users[i].email, users[i].walletAddress, users[i].isWalletRegistered))
    {
      if !SignatureMatches(recovered, address) {
        return SignatureRejected;
      }
      var at := UserAt(users, address);
      if at.None? {
        return NotRegistered;
      }
      var u := users[at.value];
      r := LoggedIn(u.email, u.walletAddress, u.isWalletRegistered);
    }
  }

  /** An address registered in upper case is stored lower-cased, found in
      lower case and refused a second time in lower case. */
  method RegisterCaseScenario()
  {
    var reg := new Registry();
    var first := reg.RegisterWallet("0xAB", "Ann@x.io", "pw");
    assert first == Registered;
    assert reg.users[0].walletAddress == "0xab";
    var known, _ := reg.CheckWalletRegistration("0xab");
    assert reg.users[0].walletAddress == ToLower("0xab");
    assert known;
    var again := reg.RegisterWallet("0xab", "other@x.io", "pw");
    assert again == WalletTaken;
  }

  /** E-mails that differ only in case are two accounts. */
  method EmailCaseScenario()
  {
    var reg := new Registry();
    var first := reg.RegisterWallet("0xab", "Ann@x.io", "pw");
    assert first == Registered;
    assert "Ann@x.io"[0] != "ann@x.io"[0];
    assert !HoldsEmail(reg.users, "ann@x.io");
    assert !HoldsAddress(reg.users, "0xCD") by { assert ToLower("0xCD")[2] == 'c'; }
    var second := reg.RegisterWallet("0xCD", "ann@x.io", "pw");
    assert second == Registered;
  }

  /** A signature that recovers the address in lower case logs in the
      address asked about in upper case. */
  method LoginCaseScenario()
  {
    var reg := new Registry();
    var first := reg.RegisterWallet("0xAB", "Ann@x.io", "pw");
    assert first == Registered;
    ToLowerIdempotent("0xAB");
    assert reg.users[0].walletAddress == ToLower("0xAB");
    var login := reg.LoginWithWallet("0xAB", Some(ToLower("0xAB")));
    assert login.LoggedIn? && login.email == "Ann@x.io";
  }
}
